/** The Mastermind tool: it validates a proposed guess (exactly four
    colours, all from the six-colour palette) and scores it against the
    secret code with the two-pass peg algorithm. */
module MastermindTool {
  import opened Protocol

  const CodeLength: nat := 4
  const Palette: seq<string> := ["red", "blue", "green", "yellow", "purple", "orange"]

  datatype Peg = Correct | WrongPosition | Incorrect

  /** The tool's return value: `{valid: true, guess, feedback, isCorrect}`
      or `{valid: false, reason}`. */
  datatype GuessCheck =
    | GuessOk(guess: seq<string>, feedback: seq<Peg>, isCorrect: bool)
    | GuessRejected(reason: string)

  // ---------------------------------------------------------------------
  // Specification of the first (exact-position) pass

  /** Slot `i` is an exact match. The first pass runs over the code's
      indices; beyond the end of the guess `guess[i]` is `undefined` and
      never equals a code colour. */
  predicate Exact<T(==)>(code: seq<T>, guess: seq<T>, i: nat) {
    i < |code| && i < |guess| && code[i] == guess[i]
  }

  /** Number of exact matches among the first `n` code slots. */
  function ExactCount<T(==)>(code: seq<T>, guess: seq<T>, n: nat): nat
    requires n <= |code|
  {
    if n == 0 then 0
    else ExactCount(code, guess, n - 1) + if Exact(code, guess, n - 1) then 1 else 0
  }

  /** The colours consumed by the exact matches among the first `n` slots. */
  ghost function ExactColors<T>(code: seq<T>, guess: seq<T>, n: nat): multiset<T>
    requires n <= |code|
  {
    if n == 0 then multiset{}
    else ExactColors(code, guess, n - 1) + if Exact(code, guess, n - 1) then multiset{code[n - 1]} else multiset{}
  }

  /** `codeRemaining` after the first pass has looked at `n` slots:
      matched slots are nulled out. */
  function MaskCode<T(==)>(code: seq<T>, guess: seq<T>, n: nat): seq<Option<T>> {
    seq(|code|, j requires 0 <= j < |code| => if j < n && Exact(code, guess, j) then None else Some(code[j]))
  }

  /** `guessRemaining` after the first pass has looked at `n` slots. */
  function MaskGuess<T(==)>(code: seq<T>, guess: seq<T>, n: nat): seq<Option<T>> {
    seq(|guess|, j requires 0 <= j < |guess| => if j < n && Exact(code, guess, j) then None else Some(guess[j]))
  }

  // ---------------------------------------------------------------------
  // Specification of the second (position-free) pass

  /** `Array.prototype.findIndex` with `===`: the first index holding `x`,
      or -1. */
  function FirstIndexOf<T(==)>(s: seq<T>, x: T): (k: int)
    ensures -1 <= k < |s|
    ensures k == -1 <==> x !in s
    ensures 0 <= k ==> s[k] == x && forall j :: 0 <= j < k ==> s[j] != x
  {
    if s == [] then -1
    else if s[0] == x then 0
    else
      var k := FirstIndexOf(s[1..], x);
      if k == -1 then -1 else k + 1
  }

  /** The pegs the second pass emits for the remaining guess slots
      `guessLeft`, scanning them left to right against `codeLeft`: a
      nulled slot is skipped; otherwise the first remaining code slot of
      the same colour is consumed ("wrong-position"), or "incorrect" is
      emitted when there is none. */
  function Scan<T(==)>(codeLeft: seq<Option<T>>, guessLeft: seq<Option<T>>): seq<Peg>
    decreases |guessLeft|
  {
    if guessLeft == [] then []
    else match guessLeft[0]
      case None => Scan(codeLeft, guessLeft[1..])
      case Some(c) =>
        var k := FirstIndexOf(codeLeft, Some(c));
        if k == -1 then [Incorrect] + Scan(codeLeft, guessLeft[1..])
        else [WrongPosition] + Scan(codeLeft[k := None], guessLeft[1..])
  }

  /** The colours the second pass matches, following the same scan. */
  ghost function ScanMatched<T>(codeLeft: seq<Option<T>>, guessLeft: seq<Option<T>>): multiset<T>
    decreases |guessLeft|
  {
    if guessLeft == [] then multiset{}
    else match guessLeft[0]
      case None => ScanMatched(codeLeft, guessLeft[1..])
      case Some(c) =>
        var k := FirstIndexOf(codeLeft, Some(c));
        if k == -1 then ScanMatched(codeLeft, guessLeft[1..])
        else multiset{c} + ScanMatched(codeLeft[k := None], guessLeft[1..])
  }

  function Repeat(p: Peg, n: nat): seq<Peg> {
    seq(n, _ => p)
  }

  /** The feedback `generateFeedback(code, guess)` returns: every
      "correct" first, then one peg per remaining guess slot in guess
      order (not aligned with the guess's indices). */
  function Pegs<T(==)>(code: seq<T>, guess: seq<T>): seq<Peg> {
    Repeat(Correct, ExactCount(code, guess, |code|))
      + Scan(MaskCode(code, guess, |code|), MaskGuess(code, guess, |code|))
  }

  /** The colours the "correct" and "wrong-position" pegs stand for. */
  ghost function Matched<T>(code: seq<T>, guess: seq<T>): multiset<T> {
    ExactColors(code, guess, |code|)
      + ScanMatched(MaskCode(code, guess, |code|), MaskGuess(code, guess, |code|))
  }

  /** `feedback.every(f => f === "correct")` */
  predicate AllCorrect(feedback: seq<Peg>) {
    forall k :: 0 <= k < |feedback| ==> feedback[k] == Correct
  }

  function CountPeg(feedback: seq<Peg>, p: Peg): nat {
    if feedback == [] then 0
    else (if feedback[0] == p then 1 else 0) + CountPeg(feedback[1..], p)
  }

  /** The colours still present in a list of slots, some nulled out. */
  ghost function Present<T>(s: seq<Option<T>>): multiset<T> {
    if s == [] then multiset{}
    else (if s[0].Some? then multiset{s[0].value} else multiset{}) + Present(s[1..])
  }

  /** The first guess colour outside the palette, if any. */
  function FirstOffPalette(guess: seq<string>): (r: Option<string>)
    ensures r.None? <==> forall k :: 0 <= k < |guess| ==> guess[k] in Palette
    ensures r.Some? ==> exists k :: 0 <= k < |guess| && guess[k] == r.value && r.value !in Palette &&
                          forall j :: 0 <= j < k ==> guess[j] in Palette
  {
    if guess == [] then None
    else if guess[0] !in Palette then Some(guess[0])
    else
      var r := FirstOffPalette(guess[1..]);
      assert forall k :: 1 <= k < |guess| ==> guess[k] == guess[1..][k - 1];
      if r.Some? then
        assert exists k :: 0 <= k < |guess[1..]| && guess[1..][k] == r.value && r.value !in Palette &&
                 forall j :: 0 <= j < k ==> guess[1..][j] in Palette;
        var k :| 0 <= k < |guess[1..]| && guess[1..][k] == r.value && r.value !in Palette &&
                 forall j :: 0 <= j < k ==> guess[1..][j] in Palette;
        assert guess[k + 1] == r.value;
        assert forall j :: 0 <= j < k + 1 ==> guess[j] in Palette by {
          forall j | 0 <= j < k + 1 ensures guess[j] in Palette {
            if j > 0 { assert guess[j] == guess[1..][j - 1]; }
          }
        }
        r
      else r
  }

  // ---------------------------------------------------------------------
  // The operations

  /** The first pass of `generateFeedback`: every exact match emits
      "correct" and is nulled out in the copies `codeRemaining` and
      `guessRemaining`. */
  method MarkExact<T(==)>(code: seq<T>, guess: seq<T>)
    returns (feedback: seq<Peg>, codeRemaining: seq<Option<T>>, guessRemaining: seq<Option<T>>)
    ensures feedback == Repeat(Correct, ExactCount(code, guess, |code|))
    ensures codeRemaining == MaskCode(code, guess, |code|)
    ensures guessRemaining == MaskGuess(code, guess, |code|)
  {
    feedback := [];
    codeRemaining := seq(|code|, j requires 0 <= j < |code| => Some(code[j]));
    guessRemaining := seq(|guess|, j requires 0 <= j < |guess| => Some(guess[j]));
    for i := 0 to |code|
      invariant feedback == Repeat(Correct, ExactCount(code, guess, i))
      invariant codeRemaining == MaskCode(code, guess, i)
      invariant guessRemaining == MaskGuess(code, guess, i)
    {
      MaskCodeUpdate(code, guess, i + 1);
      MaskGuessUpdate(code, guess, i + 1);
      if i < |guess| && guess[i] == code[i] {
        feedback := feedback + [Correct];
        codeRemaining := codeRemaining[i := None];
        guessRemaining := guessRemaining[i := None];
      }
    }
  }

  /** `generateFeedback`: the first pass, then the second pass over the
      remaining guess slots; the inputs are values and stay as they are. */
  method GenerateFeedback<T(==)>(code: seq<T>, guess: seq<T>) returns (feedback: seq<Peg>)
    ensures feedback == Pegs(code, guess)
  {
    var codeRemaining, guessRemaining;
    feedback, codeRemaining, guessRemaining := MarkExact(code, guess);
    ghost var codeLeft, guessLeft, exact := codeRemaining, guessRemaining, feedback;
    var i := 0;
    while i < |guessRemaining|
      invariant |guessRemaining| == |guessLeft|
      invariant 0 <= i <= |guessRemaining|
      invariant guessRemaining[i..] == guessLeft[i..]
      invariant feedback + Scan(codeRemaining, guessRemaining[i..]) == exact + Scan(codeLeft, guessLeft)
    {
      var color := guessRemaining[i];
      ScanUnfold(codeRemaining, guessRemaining, i);
      if color.Some? {
        var codeIndex := FirstIndexOf(codeRemaining, color);
        if codeIndex != -1 {
          assert guessRemaining[i := None][i + 1..] == guessRemaining[i + 1..];
          assert feedback + ([WrongPosition] + Scan(codeRemaining[codeIndex := None], guessRemaining[i + 1..]))
              == (feedback + [WrongPosition]) + Scan(codeRemaining[codeIndex := None], guessRemaining[i + 1..]);
          feedback := feedback + [WrongPosition];
          codeRemaining := codeRemaining[codeIndex := None];
          guessRemaining := guessRemaining[i := None];
        } else {
          assert feedback + ([Incorrect] + Scan(codeRemaining, guessRemaining[i + 1..]))
              == (feedback + [Incorrect]) + Scan(codeRemaining, guessRemaining[i + 1..]);
          feedback := feedback + [Incorrect];
        }
      }
      i := i + 1;
    }
  }

  /** One step of the second pass, read off the remaining guess slots
      from index `i`. */
  lemma ScanUnfold<T>(codeLeft: seq<Option<T>>, guessLeft: seq<Option<T>>, i: nat)
    requires i < |guessLeft|
    ensures Scan(codeLeft, guessLeft[i..]) ==
              match guessLeft[i]
              case None => Scan(codeLeft, guessLeft[i + 1..])
              case Some(c) =>
                var k := FirstIndexOf(codeLeft, Some(c));
                if k == -1 then [Incorrect] + Scan(codeLeft, guessLeft[i + 1..])
                else [WrongPosition] + Scan(codeLeft[k := None], guessLeft[i + 1..])
  {
    assert guessLeft[i..][0] == guessLeft[i] && guessLeft[i..][1..] == guessLeft[i + 1..];
  }

  const WrongLength: string := "Guess must contain exactly 4 colors"

  /** What `MastermindTool.execute` returns: a guess that is not exactly
      four colours is rejected, then one holding a colour outside the
      palette (naming the first such colour); otherwise it is scored, and
      it is correct when every peg is "correct", which for a four-colour
      code means the guess is the code. */
  function Answer(code: seq<string>, guess: seq<string>): (r: GuessCheck)
    ensures r.GuessOk? <==> |guess| == CodeLength && forall k :: 0 <= k < |guess| ==> guess[k] in Palette
    ensures |guess| != CodeLength ==> r == GuessRejected(WrongLength)
    ensures |guess| == CodeLength && r.GuessRejected? ==>
              exists k :: 0 <= k < |guess| && guess[k] !in Palette && r.reason == "Invalid color: " + guess[k]
                && forall j :: 0 <= j < k ==> guess[j] in Palette
    ensures r.GuessOk? ==> r.guess == guess && r.feedback == Pegs(code, guess) && |r.feedback| == CodeLength
    ensures r.GuessOk? ==> r.isCorrect == AllCorrect(r.feedback)
    ensures r.GuessOk? && |code| == CodeLength ==> (r.isCorrect <==> guess == code)
  {
    if |guess| != CodeLength then GuessRejected(WrongLength)
    else match FirstOffPalette(guess)
      case Some(c) => GuessRejected("Invalid color: " + c)
      case None =>
        var feedback := Pegs(code, guess);
        PegsLength(code, guess);
        if |code| == CodeLength then
          AllCorrectIffEqual(code, guess);
          GuessOk(guess, feedback, AllCorrect(feedback))
        else GuessOk(guess, feedback, AllCorrect(feedback))
  }

  /** `MastermindTool.execute`: the length check, the palette loop and the
      scoring. */
  method Execute(code: seq<string>, guess: seq<string>) returns (r: GuessCheck)
    ensures r == Answer(code, guess)
  {
    if |guess| != CodeLength {
      return GuessRejected(WrongLength);
    }
    var i := 0;
    while i < |guess|
      invariant 0 <= i <= |guess|
      invariant forall j :: 0 <= j < i ==> guess[j] in Palette
    {
      if guess[i] !in Palette {
        assert FirstOffPalette(guess) == Some(guess[i]) by {
          var r := FirstOffPalette(guess);
          var k :| 0 <= k < |guess| && guess[k] == r.value && r.value !in Palette &&
                   forall j :: 0 <= j < k ==> guess[j] in Palette;
          assert k == i;
        }
        return GuessRejected("Invalid color: " + guess[i]);
      }
      i := i + 1;
    }
    var feedback := GenerateFeedback(code, guess);
    r := GuessOk(guess, feedback, AllCorrect(feedback));
  }

  // ---------------------------------------------------------------------
  // Facts about Present, FirstIndexOf and the masks

  lemma {:induction false} PresentOfSomes<T>(s: seq<T>)
    ensures Present(seq(|s|, j requires 0 <= j < |s| => Some(s[j]))) == multiset(s)
  {
    var t := seq(|s|, j requires 0 <= j < |s| => Some(s[j]));
    if s != [] {
      assert t[1..] == seq(|s[1..]|, j requires 0 <= j < |s[1..]| => Some(s[1..][j]));
      PresentOfSomes(s[1..]);
      assert s == [s[0]] + s[1..];
    }
  }

  lemma {:induction false} PresentUpdate<T>(s: seq<Option<T>>, j: nat, v: T)
    requires j < |s| && s[j] == Some(v)
    ensures Present(s) == Present(s[j := None]) + multiset{v}
  {
    if j == 0 {
      assert s[j := None][1..] == s[1..];
    } else {
      assert s[j := None][1..] == s[1..][j - 1 := None];
      PresentUpdate(s[1..], j - 1, v);
    }
  }

  lemma {:induction false} PresentHas<T>(s: seq<Option<T>>, v: T)
    ensures Some(v) in s <==> v in Present(s)
  {
    if s != [] {
      PresentHas(s[1..], v);
      assert Some(v) in s <==> s[0] == Some(v) || Some(v) in s[1..];
    }
  }

  /** Moving one colour from the remaining slots to the matched ones
      keeps the total. */
  lemma MoveOne<T>(now: multiset<T>, e: multiset<T>, v: T, prev: multiset<T>)
    requires prev == now + multiset{v}
    ensures now + (e + multiset{v}) == prev + e
  {
    assert forall x :: (now + (e + multiset{v}))[x] == (prev + e)[x];
  }

  /** Colours matched in place count once in both totals. */
  lemma SharedPart<T>(e: multiset<T>, pc: multiset<T>, pg: multiset<T>)
    ensures e + pg * pc == (pc + e) * (pg + e)
  {
    assert forall x :: (e + pg * pc)[x] == ((pc + e) * (pg + e))[x];
  }

  lemma {:induction false} MaskGuessAccount<T>(code: seq<T>, guess: seq<T>, n: nat)
    requires n <= |code|
    ensures Present(MaskGuess(code, guess, n)) + ExactColors(code, guess, n) == multiset(guess)
  {
    if n == 0 {
      assert MaskGuess(code, guess, 0) == seq(|guess|, j requires 0 <= j < |guess| => Some(guess[j]));
      PresentOfSomes(guess);
    } else {
      MaskGuessAccount(code, guess, n - 1);
      MaskGuessStep(code, guess, n);
    }
  }

  lemma MaskGuessStep<T>(code: seq<T>, guess: seq<T>, n: nat)
    requires 0 < n <= |code|
    requires Present(MaskGuess(code, guess, n - 1)) + ExactColors(code, guess, n - 1) == multiset(guess)
    ensures Present(MaskGuess(code, guess, n)) + ExactColors(code, guess, n) == multiset(guess)
  {
    var prev, now := MaskGuess(code, guess, n - 1), MaskGuess(code, guess, n);
    MaskGuessUpdate(code, guess, n);
    if Exact(code, guess, n - 1) {
      var e, v := ExactColors(code, guess, n - 1), guess[n - 1];
      PresentUpdate(prev, n - 1, v);
      assert ExactColors(code, guess, n) == e + multiset{v};
      MoveOne(Present(now), e, v, Present(prev));
    }
  }

  lemma MaskGuessUpdate<T>(code: seq<T>, guess: seq<T>, n: nat)
    requires 0 < n <= |code|
    ensures n - 1 < |guess| ==> MaskGuess(code, guess, n - 1)[n - 1] == Some(guess[n - 1])
    ensures MaskGuess(code, guess, n) ==
            if Exact(code, guess, n - 1) then MaskGuess(code, guess, n - 1)[n - 1 := None]
            else MaskGuess(code, guess, n - 1)
  {
  }

  lemma {:induction false} MaskCodeAccount<T>(code: seq<T>, guess: seq<T>, n: nat)
    requires n <= |code|
    ensures Present(MaskCode(code, guess, n)) + ExactColors(code, guess, n) == multiset(code)
  {
    if n == 0 {
      assert MaskCode(code, guess, 0) == seq(|code|, j requires 0 <= j < |code| => Some(code[j]));
      PresentOfSomes(code);
    } else {
      MaskCodeAccount(code, guess, n - 1);
      MaskCodeStep(code, guess, n);
    }
  }

  lemma MaskCodeStep<T>(code: seq<T>, guess: seq<T>, n: nat)
    requires 0 < n <= |code|
    requires Present(MaskCode(code, guess, n - 1)) + ExactColors(code, guess, n - 1) == multiset(code)
    ensures Present(MaskCode(code, guess, n)) + ExactColors(code, guess, n) == multiset(code)
  {
    var prev, now := MaskCode(code, guess, n - 1), MaskCode(code, guess, n);
    MaskCodeUpdate(code, guess, n);
    if Exact(code, guess, n - 1) {
      var e, v := ExactColors(code, guess, n - 1), code[n - 1];
      PresentUpdate(prev, n - 1, v);
      assert ExactColors(code, guess, n) == e + multiset{v};
      MoveOne(Present(now), e, v, Present(prev));
    }
  }

  lemma MaskCodeUpdate<T>(code: seq<T>, guess: seq<T>, n: nat)
    requires 0 < n <= |code|
    ensures MaskCode(code, guess, n - 1)[n - 1] == Some(code[n - 1])
    ensures MaskCode(code, guess, n) ==
            if Exact(code, guess, n - 1) then MaskCode(code, guess, n - 1)[n - 1 := None]
            else MaskCode(code, guess, n - 1)
  {
  }

  lemma {:induction false} ExactColorsSize<T>(code: seq<T>, guess: seq<T>, n: nat)
    requires n <= |code|
    ensures |ExactColors(code, guess, n)| == ExactCount(code, guess, n) <= n
  {
    if n > 0 {
      ExactColorsSize(code, guess, n - 1);
    }
  }

  lemma {:induction false} ExactCountFull<T>(code: seq<T>, guess: seq<T>, n: nat)
    requires n <= |code|
    ensures ExactCount(code, guess, n) == n <==> forall j :: 0 <= j < n ==> Exact(code, guess, j)
  {
    if n > 0 {
      ExactCountFull(code, guess, n - 1);
      ExactColorsSize(code, guess, n - 1);
    }
  }

  // ---------------------------------------------------------------------
  // Facts about the second pass

  lemma {:induction false} ScanLength<T>(codeLeft: seq<Option<T>>, guessLeft: seq<Option<T>>)
    ensures |Scan(codeLeft, guessLeft)| == |Present(guessLeft)|
    decreases |guessLeft|
  {
    if guessLeft != [] {
      match guessLeft[0]
      case None => ScanLength(codeLeft, guessLeft[1..]);
      case Some(c) =>
        var k := FirstIndexOf(codeLeft, Some(c));
        if k == -1 { ScanLength(codeLeft, guessLeft[1..]); }
        else { ScanLength(codeLeft[k := None], guessLeft[1..]); }
    }
  }

  lemma {:induction false} ScanNeverCorrect<T>(codeLeft: seq<Option<T>>, guessLeft: seq<Option<T>>)
    ensures Correct !in Scan(codeLeft, guessLeft)
    ensures CountPeg(Scan(codeLeft, guessLeft), Correct) == 0
    ensures CountPeg(Scan(codeLeft, guessLeft), WrongPosition) == |ScanMatched(codeLeft, guessLeft)|
    decreases |guessLeft|
  {
    if guessLeft != [] {
      match guessLeft[0]
      case None => ScanNeverCorrect(codeLeft, guessLeft[1..]);
      case Some(c) =>
        var k := FirstIndexOf(codeLeft, Some(c));
        if k == -1 {
          ScanNeverCorrect(codeLeft, guessLeft[1..]);
          assert ([Incorrect] + Scan(codeLeft, guessLeft[1..]))[1..] == Scan(codeLeft, guessLeft[1..]);
        } else {
          ScanNeverCorrect(codeLeft[k := None], guessLeft[1..]);
          assert ([WrongPosition] + Scan(codeLeft[k := None], guessLeft[1..]))[1..] == Scan(codeLeft[k := None], guessLeft[1..]);
        }
    }
  }

  /** A guess colour the code does not hold adds nothing to the
      intersection. */
  lemma IntersectAbsent<T>(c: T, g: multiset<T>, cl: multiset<T>)
    requires cl[c] == 0
    ensures g * cl == (multiset{c} + g) * cl
  {
    assert forall x :: (g * cl)[x] == ((multiset{c} + g) * cl)[x];
  }

  /** A guess colour the code holds adds one to the intersection. */
  lemma IntersectShared<T>(c: T, g: multiset<T>, cl: multiset<T>)
    ensures multiset{c} + g * cl == (multiset{c} + g) * (cl + multiset{c})
  {
    assert forall x :: (multiset{c} + g * cl)[x] == ((multiset{c} + g) * (cl + multiset{c}))[x];
  }

  /** The greedy scan matches, colour by colour, the smaller of the two
      remaining counts. */
  lemma {:induction false} ScanMatchedIsIntersection<T>(codeLeft: seq<Option<T>>, guessLeft: seq<Option<T>>)
    ensures ScanMatched(codeLeft, guessLeft) == Present(guessLeft) * Present(codeLeft)
    decreases |guessLeft|
  {
    if guessLeft != [] {
      match guessLeft[0]
      case None =>
        ScanMatchedIsIntersection(codeLeft, guessLeft[1..]);
      case Some(c) =>
        var k := FirstIndexOf(codeLeft, Some(c));
        var g', cl := Present(guessLeft[1..]), Present(codeLeft);
        assert Present(guessLeft) == multiset{c} + g';
        PresentHas(codeLeft, c);
        if k == -1 {
          ScanMatchedIsIntersection(codeLeft, guessLeft[1..]);
          IntersectAbsent(c, g', cl);
        } else {
          ScanMatchedIsIntersection(codeLeft[k := None], guessLeft[1..]);
          PresentUpdate(codeLeft, k, c);
          var cl' := Present(codeLeft[k := None]);
          IntersectShared(c, g', cl');
        }
    }
  }

  lemma {:induction false} CountPegAppend(a: seq<Peg>, b: seq<Peg>, p: Peg)
    ensures CountPeg(a + b, p) == CountPeg(a, p) + CountPeg(b, p)
  {
    if a == [] {
      assert a + b == b;
    } else {
      assert (a + b)[0] == a[0];
      assert (a + b)[1..] == a[1..] + b;
      CountPegAppend(a[1..], b, p);
    }
  }

  lemma {:induction false} CountPegRepeat(p: Peg, n: nat, q: Peg)
    ensures CountPeg(Repeat(p, n), q) == if p == q then n else 0
  {
    if n > 0 {
      assert Repeat(p, n)[1..] == Repeat(p, n - 1);
      CountPegRepeat(p, n - 1, q);
    }
  }

  // ---------------------------------------------------------------------
  // The properties of the feedback

  /** One peg per guess slot: four for a four-colour guess. */
  lemma PegsLength<T>(code: seq<T>, guess: seq<T>)
    ensures |Pegs(code, guess)| == |guess|
  {
    var n := |code|;
    MaskGuessAccount(code, guess, n);
    ExactColorsSize(code, guess, n);
    ScanLength(MaskCode(code, guess, n), MaskGuess(code, guess, n));
  }

  /** The feedback opens with exactly one "correct" per exact match, and
      no "correct" follows them. */
  lemma PegsCorrectFirst<T>(code: seq<T>, guess: seq<T>)
    ensures ExactCount(code, guess, |code|) <= |Pegs(code, guess)|
    ensures forall k :: 0 <= k < |Pegs(code, guess)| ==>
              (Pegs(code, guess)[k] == Correct <==> k < ExactCount(code, guess, |code|))
  {
    var n := |code|;
    var s := Scan(MaskCode(code, guess, n), MaskGuess(code, guess, n));
    ScanNeverCorrect(MaskCode(code, guess, n), MaskGuess(code, guess, n));
    var e := ExactCount(code, guess, n);
    assert forall k :: e <= k < |Pegs(code, guess)| ==> Pegs(code, guess)[k] == s[k - e];
  }

  /** The "correct" and "wrong-position" pegs are one per matched
      colour. */
  lemma PegCountIsMatched<T>(code: seq<T>, guess: seq<T>)
    ensures CountPeg(Pegs(code, guess), Correct) + CountPeg(Pegs(code, guess), WrongPosition)
            == |Matched(code, guess)|
  {
    var n := |code|;
    var mc, mg := MaskCode(code, guess, n), MaskGuess(code, guess, n);
    ExactColorsSize(code, guess, n);
    ScanNeverCorrect(mc, mg);
    var k := ExactCount(code, guess, n);
    CountPegAppend(Repeat(Correct, k), Scan(mc, mg), Correct);
    CountPegAppend(Repeat(Correct, k), Scan(mc, mg), WrongPosition);
    CountPegRepeat(Correct, k, Correct);
    CountPegRepeat(Correct, k, WrongPosition);
  }

  /** Every code slot is consumed at most once: for each colour, the
      "correct" and "wrong-position" pegs stand for exactly the smaller of
      its count in the code and its count in the guess, so their number is
      the size of the multiset intersection. */
  lemma MatchedIsIntersection<T>(code: seq<T>, guess: seq<T>)
    ensures Matched(code, guess) == multiset(code) * multiset(guess)
    ensures forall c :: Matched(code, guess)[c] <= multiset(code)[c] && Matched(code, guess)[c] <= multiset(guess)[c]
    ensures CountPeg(Pegs(code, guess), Correct) + CountPeg(Pegs(code, guess), WrongPosition)
            == |multiset(code) * multiset(guess)|
  {
    var n := |code|;
    var mc, mg := MaskCode(code, guess, n), MaskGuess(code, guess, n);
    var e := ExactColors(code, guess, n);
    MaskCodeAccount(code, guess, n);
    MaskGuessAccount(code, guess, n);
    ScanMatchedIsIntersection(mc, mg);
    SharedPart(e, Present(mc), Present(mg));
    PegCountIsMatched(code, guess);
  }

  /** Scoring the code against itself gives a "correct" for every slot. */
  lemma SelfFeedback<T>(code: seq<T>)
    ensures Pegs(code, code) == Repeat(Correct, |code|)
  {
    var n := |code|;
    ExactCountFull(code, code, n);
    PegsLength(code, code);
    assert ExactCount(code, code, n) == n;
  }

  /** For a code and guess of the same length, every peg is "correct"
      exactly when the guess is the code. */
  lemma AllCorrectIffEqual<T>(code: seq<T>, guess: seq<T>)
    requires |code| == |guess|
    ensures AllCorrect(Pegs(code, guess)) <==> guess == code
  {
    var n := |code|;
    PegsLength(code, guess);
    PegsCorrectFirst(code, guess);
    ExactColorsSize(code, guess, n);
    ExactCountFull(code, guess, n);
    if AllCorrect(Pegs(code, guess)) {
      var e := ExactCount(code, guess, n);
      assert n <= e by {
        if n > 0 { assert Pegs(code, guess)[n - 1] == Correct; }
      }
      assert forall j :: 0 <= j < n ==> guess[j] == code[j] by {
        forall j | 0 <= j < n ensures guess[j] == code[j] { assert Exact(code, guess, j); }
      }
    }
    if guess == code {
      SelfFeedback(code);
    }
  }

  /** The worked example: secret red-blue-green-yellow, guess
      blue-red-green-purple. */
  lemma ExampleFeedback()
    ensures Pegs(["red", "blue", "green", "yellow"], ["blue", "red", "green", "purple"])
            == [Correct, WrongPosition, WrongPosition, Incorrect]
  {
    var code, guess := ["red", "blue", "green", "yellow"], ["blue", "red", "green", "purple"];
    assert !Exact(code, guess, 0) && !Exact(code, guess, 1) && Exact(code, guess, 2) && !Exact(code, guess, 3);
    var mc := [Some("red"), Some("blue"), None, Some("yellow")];
    var mg := [Some("blue"), Some("red"), None, Some("purple")];
    assert MaskCode(code, guess, 4) == mc;
    assert MaskGuess(code, guess, 4) == mg;
    assert FirstIndexOf(mc, Some("blue")) == 1;
    var mc1 := mc[1 := None];
    assert FirstIndexOf(mc1, Some("red")) == 0;
    var mc2 := mc1[0 := None];
    assert FirstIndexOf(mc2, Some("purple")) == -1;
    assert Scan(mc2, mg[3..]) == [Incorrect];
    assert Scan(mc2, mg[2..]) == [Incorrect];
    assert Scan(mc1, mg[1..]) == [WrongPosition, Incorrect];
    assert Scan(mc, mg) == [WrongPosition, WrongPosition, Incorrect];
  }
}
