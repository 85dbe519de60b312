/** The key machine of calculator_window.cpp. */
module Calculator {
  import opened Bytes
  import opened Decimal
  import opened CString

  const LIMIT: int := 0x8000_0000_0000_0000

  /** Magnitudes the code can print: int64_t without its minimum, whose negation overflows. */
  predicate Fits(v: int) { -LIMIT < v < LIMIT }

  type i64 = x: int | Fits(x)

  function Abs(v: int): nat { if v < 0 then -v else v }

  function Take(s: string, n: nat): string { if |s| <= n then s else s[..n] }

  /** C division, towards zero. */
  function Quot(a: int, b: int): int
    requires b != 0
  {
    if (a < 0) == (b < 0) then Abs(a) / Abs(b) else -(Abs(a) / Abs(b))
  }

  /** Quot is the truncating quotient: the remainder is smaller than the divisor and has the dividend's sign. */
  lemma QuotTruncates(a: int, b: int)
    requires b != 0
    ensures var r := a - Quot(a, b) * b;
            Abs(r) < Abs(b) && (r != 0 ==> (r < 0 <==> a < 0))
  {
    var q, r := Abs(a) / Abs(b), Abs(a) % Abs(b);
    assert Abs(a) == Abs(b) * q + r;
    if (a < 0) == (b < 0) {
      assert Quot(a, b) * b == q * b;
      assert b < 0 ==> q * b == -(Abs(b) * q);
    } else {
      assert Quot(a, b) * b == -(q * b) by { assert (-q) * b == -(q * b); }
      assert b < 0 ==> q * b == -(Abs(b) * q);
    }
  }

  /** What an operator key means; None for a division by zero. */
  function Apply(a: int, op: char, b: int): Option<int> {
    match op
    case '+' => Some(a + b)
    case '-' => Some(a - b)
    case '*' => Some(a * b)
    case '/' => if b == 0 then None else Some(Quot(a, b))
    case _ => Some(a)
  }

  predicate Safe(r: Option<int>) { r.Some? ==> Fits(r.value) }

  // ---- numbers and text ---------------------------------------------------------

  function RunEnd(s: string, i: nat): (e: nat)
    requires i <= |s|
    ensures i <= e <= |s| && AllDigits(s[i..e]) && (e < |s| ==> !IsDigit(s[e]))
    decreases |s| - i
  {
    if i < |s| && IsDigit(s[i]) then RunEnd(s, i + 1) else i
  }

  predicate Negative(s: string) { s != "" && s[0] == '-' }

  function SignLen(s: string): nat { if Negative(s) then 1 else 0 }

  /** An optional minus and the leading digits; 0 when there are none. */
  function Parse(s: string): int {
    var v := Val(s[SignLen(s)..RunEnd(s, SignLen(s))]);
    if Negative(s) then 0 - v else v
  }

  predicate Signed(s: string) { s != "" && AllDigits(s[SignLen(s)..]) }

  function Sign(v: int): string { if v < 0 then "-" else "" }

  /** fmtNum with room for max bytes, terminator included. */
  function Fmt(v: int, max: nat): string
    requires max >= 2
  {
    Take(Sign(v) + Numeral(Abs(v)), max - 1)
  }

  const EXACT: int := 1_000_000_000_000_000_000

  lemma Powers()
    ensures Pow10(18) == EXACT && Pow10(19) == 10 * EXACT && LIMIT < Pow10(19)
  {
    assert Pow10(9) == 1_000_000_000;
    assert Pow10(14) == 100_000 * Pow10(9);
    assert Pow10(18) == 10_000 * Pow10(14);
  }

  lemma Width(w: nat)
    requires w < LIMIT
    ensures |Digits(w)| <= 19
    ensures |Digits(w)| <= 18 <==> w < EXACT
  {
    hide Pow10;
    Powers();
    DigitCount(w, 18);
    DigitCount(w, 19);
  }

  lemma ParseOf(s: string)
    requires Signed(s)
    ensures Parse(s) == if Negative(s) then 0 - Val(s[1..]) else Val(s)
  {
    var k := SignLen(s);
    var e := RunEnd(s, k);
    assert e == |s| by {
      assert forall i :: k <= i < |s| ==> s[i] == s[k..][i - k];
    }
    assert s[k..e] == s[k..];
    assert s[0..] == s;
  }

  /** What the display of v reads back as. */
  function Shown(v: int): int {
    if v > -EXACT then v else -(-v / 10)
  }

  /** The 20-byte buffer shows every number faithfully down to -10^18 + 1; below that its last digit is lost. */
  lemma RoundTrip(v: i64)
    ensures Signed(Fmt(v, 20)) && |Fmt(v, 20)| <= 19
    ensures Parse(Fmt(v, 20)) == Shown(v) && Fits(Shown(v))
    ensures Parse(Fmt(v, 20)) == v <==> v > -EXACT
  {
    var w := Abs(v);
    NumeralRoundTrip(w);
    assert Fits(v);
    Width(w);
    var full := Sign(v) + Numeral(w);
    var s := Fmt(v, 20);
    if v >= 0 {
      assert full == Numeral(w) && s == full;
      ParseOf(s);
    } else if v > -EXACT {
      assert s == full && s[1..] == Numeral(w);
      ParseOf(s);
    } else {
      assert s[1..] == Digits(w / 10);
      ValDigits(w / 10);
      ParseOf(s);
      assert 0 <= w / 10 <= w;
    }
  }

  // ---- the machine -----------------------------------------------------------------

  datatype Calc = Calc(lhs: i64, op: char, text: string, again: bool, result: bool, err: bool)

  datatype Key = Digit(d: char) | Op(op: char) | Equal | Clear | Delete

  function Start(): Calc { Calc(0, NUL, "0", false, false, false) }

  /** A computed value or an error on the display. */
  function Outcome(c: Calc, v: Option<int>): Calc
    requires Safe(v)
  {
    match v
    case None => c.(text := "Err", err := true)
    case Some(r) => c.(lhs := r, text := Fmt(r, 20), err := false)
  }

  function CommitOp(c: Calc, newOp: char): Calc
    requires Defined(c, Op(newOp))
  {
    var cur := Parse(c.text);
    var d := if c.op == NUL || c.again then c.(lhs := cur) else Outcome(c, Apply(c.lhs, c.op, cur));
    d.(op := newOp, again := true, result := false)
  }

  function DoEqual(c: Calc): Calc
    requires Defined(c, Equal)
  {
    if c.err then Start()
    else
      var v := if c.op == NUL then Some(Parse(c.text)) else Apply(c.lhs, c.op, Parse(c.text));
      Outcome(c, v).(op := NUL, again := true, result := true)
  }

  function AppendDigit(c: Calc, d: char): Calc {
    var c := if c.err then Start() else c;
    if c.again || c.result then c.(text := [d], again := false, result := false)
    else if |c.text| < 18 then c.(text := c.text + [d])
    else c
  }

  function DelDigit(c: Calc): Calc {
    if c.err || c.result then Start()
    else if |c.text| > 1 then c.(text := c.text[..|c.text| - 1])
    else c.(text := "0")
  }

  /** A key the code handles without signed overflow. */
  predicate Defined(c: Calc, k: Key) {
    && Fits(Parse(c.text))
    && (k.Digit? ==> IsDigit(k.d))
    && (k.Op? ==> k.op in "+-*/")
    && (k.Op? && c.op != NUL && !c.again ==> Safe(Apply(c.lhs, c.op, Parse(c.text))))
    && (k.Equal? && c.op != NUL && !c.err ==> Safe(Apply(c.lhs, c.op, Parse(c.text))))
  }

  function Press(c: Calc, k: Key): Calc
    requires Defined(c, k)
  {
    match k
    case Digit(d) => AppendDigit(c, d)
    case Op(op) => CommitOp(c, op)
    case Equal => DoEqual(c)
    case Clear => Start()
    case Delete => DelDigit(c)
  }

  /** The display is a signed digit string of at most 19 characters or "Err", and "Err" exactly in the error state. */
  ghost predicate Inv(c: Calc) {
    && 1 <= |c.text| <= 19
    && (if c.err then c.text == "Err" && c.again else Signed(c.text) && Fits(Parse(c.text)))
    && (!c.again ==> AllDigits(c.text) && |c.text| <= 18)
    && (c.result ==> c.again)
  }

  lemma DigitsFit(s: string)
    requires AllDigits(s) && 1 <= |s| <= 18
    ensures Signed(s) && Parse(s) == Val(s) && Fits(Parse(s))
  {
    assert IsDigit(s[0]);
    assert s[0..] == s;
    ParseOf(s);
    ValBound(s);
    Powers();
    PowMonotone(|s|, 18);
  }

  lemma {:induction false} PowMonotone(a: nat, b: nat)
    requires a <= b
    ensures Pow10(a) <= Pow10(b)
  {
    if a < b {
      PowMonotone(a, b - 1);
    }
  }

  lemma DeleteFits(s: string)
    requires Signed(s) && 1 < |s| && Fits(Parse(s))
    ensures var t := s[..|s| - 1]; Signed(t) && Fits(Parse(t)) && (AllDigits(s) ==> AllDigits(t))
  {
    var t := s[..|s| - 1];
    var k := SignLen(s);
    assert SignLen(t) == k;
    assert t[k..] == s[k..][..|s| - 1 - k];
    ParseOf(s);
    ParseOf(t);
    ValPrefix(s[k..], |s| - 1 - k);
    assert s[0..] == s && t[0..] == t;
  }

  lemma DigitKeeps(c: Calc, d: char)
    requires Inv(c) && IsDigit(d)
    ensures Inv(AppendDigit(c, d))
  {
    DigitsFit([d]);
    DigitsFit("0" + [d]);
    if !c.again && |c.text| < 18 {
      DigitsFit(c.text + [d]);
    }
  }

  lemma OutcomeKeeps(c: Calc, v: Option<int>, op: char, result: bool)
    requires Inv(c) && !c.err && Safe(v)
    ensures Inv(Outcome(c, v).(op := op, again := true, result := result))
  {
    if v.Some? {
      RoundTrip(v.value);
    }
  }

  lemma DeleteKeeps(c: Calc)
    requires Inv(c)
    ensures Inv(DelDigit(c))
  {
    DigitsFit("0");
    if !c.err && |c.text| > 1 {
      DeleteFits(c.text);
    }
  }

  lemma PressKeeps(c: Calc, k: Key)
    requires Inv(c) && Defined(c, k)
    ensures Inv(Press(c, k))
  {
    DigitsFit("0");
    match k
    case Digit(d) => DigitKeeps(c, d);
    case Op(op) =>
      if c.op != NUL && !c.again {
        OutcomeKeeps(c, Apply(c.lhs, c.op, Parse(c.text)), op, false);
      }
    case Equal =>
      if !c.err {
        OutcomeKeeps(c, if c.op == NUL then Some(Parse(c.text)) else Apply(c.lhs, c.op, Parse(c.text)), NUL, true);
      }
    case Clear =>
    case Delete => DeleteKeeps(c);
  }

  // ---- evaluation -------------------------------------------------------------------

  /** The machine after a sequence of keys; None once a key overflows int64_t. */
  function Run(c: Calc, keys: seq<Key>): Option<Calc>
    decreases |keys|
  {
    if keys == [] then Some(c)
    else if !Defined(c, keys[0]) then None
    else Run(Press(c, keys[0]), keys[1..])
  }

  lemma {:induction false} RunAppend(c: Calc, a: seq<Key>, b: seq<Key>)
    ensures Run(c, a + b) == (if Run(c, a).None? then None else Run(Run(c, a).value, b))
    decreases |a|
  {
    hide Defined, Press;
    if a == [] {
      assert a + b == b;
    } else {
      assert (a + b)[1..] == a[1..] + b;
      if Defined(c, a[0]) {
        RunAppend(Press(c, a[0]), a[1..], b);
      }
    }
  }

  lemma RunOne(c: Calc, k: Key)
    requires Defined(c, k)
    ensures Run(c, [k]) == Some(Press(c, k))
  {
    assert [k][1..] == [];
    assert Run(Press(c, k), []) == Some(Press(c, k));
  }

  function DigitKeys(ds: string): seq<Key> {
    if ds == "" then [] else [Digit(ds[0])] + DigitKeys(ds[1..])
  }

  function OpKeys(ops: string): seq<Key> {
    if ops == "" then [] else [Op(ops[0])] + OpKeys(ops[1..])
  }

  /** One or more operator keys and then a number. */
  datatype Term = Term(ops: string, digits: string)

  function AllKeys(terms: seq<Term>): seq<Key> {
    if terms == [] then [] else OpKeys(terms[0].ops) + DigitKeys(terms[0].digits) + AllKeys(terms[1..])
  }

  predicate Operators(ops: string) { ops != "" && forall i :: 0 <= i < |ops| ==> ops[i] in "+-*/" }

  predicate Number(ds: string) { ds != "" && AllDigits(ds) }

  predicate TermOk(t: Term) { Operators(t.ops) && Number(t.digits) }

  /** Only the first `room` digits of a number enter the display. */
  function Typed(ds: string, room: nat): nat
    requires AllDigits(ds)
  {
    Val(Take(ds, room))
  }

  /** The left-to-right value: of repeated operators the last one counts. None for a division by zero. */
  function Fold(acc: int, terms: seq<Term>): Option<int>
    requires forall i :: 0 <= i < |terms| ==> TermOk(terms[i])
    decreases |terms|
  {
    if terms == [] then Some(acc)
    else
      var t := terms[0];
      assert TermOk(t);
      match Apply(acc, t.ops[|t.ops| - 1], Typed(t.digits, 18))
      case None => None
      case Some(v) => Fold(v, terms[1..])
  }

  /** What a second operator key leaves of the accumulator: the display read back. */
  function Kept(acc: int, ops: string): int {
    if |ops| <= 1 then acc else Shown(acc)
  }

  function StepValue(acc: int, t: Term): Option<int>
    requires TermOk(t)
  {
    Apply(Kept(acc, t.ops), t.ops[|t.ops| - 1], Typed(t.digits, 18))
  }

  function CodeFold(acc: int, terms: seq<Term>): Option<int>
    requires forall i :: 0 <= i < |terms| ==> TermOk(terms[i])
    decreases |terms|
  {
    if terms == [] then Some(acc)
    else
      match StepValue(acc, terms[0])
      case None => None
      case Some(v) => CodeFold(v, terms[1..])
  }

  /** No accumulator overflows, and nothing but the last term divides by zero. */
  predicate Evaluable(acc: int, terms: seq<Term>)
    requires forall i :: 0 <= i < |terms| ==> TermOk(terms[i])
    decreases |terms|
  {
    && Fits(acc)
    && (terms == [] ||
        match StepValue(acc, terms[0])
        case None => |terms| == 1
        case Some(v) => Evaluable(v, terms[1..]))
  }

  /** Evaluating the machine now would give acc. */
  predicate Denotes(c: Calc, acc: Option<int>) {
    !c.err && if c.op == NUL then acc == Some(Parse(c.text)) else !c.again && acc == Apply(c.lhs, c.op, Parse(c.text))
  }

  lemma {:induction false} DigitsAppended(c: Calc, ds: string)
    requires Inv(c) && !c.err && !c.again && AllDigits(ds)
    ensures Run(c, DigitKeys(ds)) == Some(c.(text := Take(c.text + ds, 18)))
    decreases |ds|
  {
    if ds == "" {
      assert c.text + ds == c.text;
    } else {
      var g := AppendDigit(c, ds[0]);
      DigitKeeps(c, ds[0]);
      DigitsAppended(g, ds[1..]);
      assert c.text + ds == (c.text + [ds[0]]) + ds[1..];
      assert Take(g.text + ds[1..], 18) == Take(c.text + ds, 18);
      assert DigitKeys(ds)[1..] == DigitKeys(ds[1..]);
    }
  }

  lemma DigitsReplace(c: Calc, ds: string)
    requires Inv(c) && !c.err && c.again && Number(ds)
    ensures Run(c, DigitKeys(ds)) == Some(c.(text := Take(ds, 18), again := false, result := false))
  {
    var g := AppendDigit(c, ds[0]);
    DigitKeeps(c, ds[0]);
    DigitsAppended(g, ds[1..]);
    assert [ds[0]] + ds[1..] == ds;
    assert DigitKeys(ds)[1..] == DigitKeys(ds[1..]);
  }

  lemma TextBound(s: string)
    requires Signed(s) && |s| <= 19
    ensures Shown(Parse(s)) == Parse(s)
  {
    ParseOf(s);
    if Negative(s) {
      ValBound(s[1..]);
      Powers();
      PowMonotone(|s| - 1, 18);
    }
  }

  /** The first operator key commits the value the machine denotes, and leaves it on the display. */
  lemma FirstOp(c: Calc, acc: i64, op: char)
    requires Inv(c) && Denotes(c, Some(acc)) && op in "+-*/"
    ensures Defined(c, Op(op))
    ensures var g := CommitOp(c, op);
            Inv(g) && !g.err && g.again && g.op == op && g.lhs == acc && Parse(g.text) == Shown(acc)
  {
    PressKeeps(c, Op(op));
    RoundTrip(acc);
    if c.op == NUL {
      TextBound(c.text);
    }
  }

  /** Each further operator key changes the operator and reloads the left-hand side from the display. */
  lemma {:induction false} MoreOps(c: Calc, ops: string)
    requires Inv(c) && !c.err && c.again && c.op != NUL && !c.result
    requires ops == "" || Operators(ops)
    ensures Run(c, OpKeys(ops)) ==
      Some(if ops == "" then c else c.(op := ops[|ops| - 1], lhs := Parse(c.text)))
    decreases |ops|
  {
    if ops != "" {
      var g := CommitOp(c, ops[0]);
      PressKeeps(c, Op(ops[0]));
      assert OpKeys(ops)[1..] == OpKeys(ops[1..]);
      assert ops[0] in "+-*/" && ops[0] != NUL;
      assert forall i :: 0 <= i < |ops[1..]| ==> ops[1..][i] == ops[i + 1];
      MoreOps(g, ops[1..]);
    }
  }

  /** Repeated operator keys keep the last; they keep the accumulator exactly when it is above -10^18. */
  lemma OpsPressed(c: Calc, acc: i64, ops: string)
    requires Inv(c) && Denotes(c, Some(acc)) && Operators(ops)
    ensures Run(c, OpKeys(ops)).Some?
    ensures var g := Run(c, OpKeys(ops)).value;
            && Inv(g) && !g.err && g.again && g.op == ops[|ops| - 1] && g.lhs == Kept(acc, ops)
            && (g.lhs == acc <==> |ops| == 1 || acc > -EXACT)
  {
    hide Parse, Fmt;
    FirstOp(c, acc, ops[0]);
    RoundTrip(acc);
    assert ops[0] in "+-*/" && ops[0] != NUL;
    assert forall i :: 0 <= i < |ops[1..]| ==> ops[1..][i] == ops[i + 1];
    var g := CommitOp(c, ops[0]);
    MoreOps(g, ops[1..]);
    assert OpKeys(ops)[1..] == OpKeys(ops[1..]);
  }

  lemma TermStep(c: Calc, acc: i64, t: Term)
    requires Inv(c) && Denotes(c, Some(acc)) && TermOk(t)
    ensures var r := Run(c, OpKeys(t.ops) + DigitKeys(t.digits));
            && r.Some? && Inv(r.value) && Denotes(r.value, StepValue(acc, t)) && r.value.op != NUL
  {
    hide Run, Inv;
    OpsPressed(c, acc, t.ops);
    var g := Run(c, OpKeys(t.ops)).value;
    NumberEntered(g, t.digits);
    RunAppend(c, OpKeys(t.ops), DigitKeys(t.digits));
    assert t.ops[|t.ops| - 1] in "+-*/";
  }

  lemma NumberEntered(g: Calc, ds: string)
    requires Inv(g) && !g.err && g.again && Number(ds)
    ensures var r := Run(g, DigitKeys(ds));
            && r.Some? && Inv(r.value) && !r.value.err && !r.value.again && r.value.op == g.op && r.value.lhs == g.lhs
            && Parse(r.value.text) == Typed(ds, 18)
  {
    DigitsReplace(g, ds);
    DigitsFit(Take(ds, 18));
  }

  /** '=' shows the value the machine denotes, or the error. */
  function Answer(lhs: i64, v: Option<int>): Calc
    requires Safe(v)
  {
    match v
    case None => Calc(lhs, NUL, "Err", true, true, true)
    case Some(r) => Calc(r, NUL, Fmt(r, 20), true, true, false)
  }

  lemma EqualAnswers(c: Calc, v: Option<int>)
    requires Inv(c) && Denotes(c, v) && Safe(v)
    ensures Run(c, [Equal]) == Some(Answer(c.lhs, v))
  {
    RunOne(c, Equal);
  }

  lemma {:induction false} Evaluates(c: Calc, acc: i64, terms: seq<Term>)
    requires Inv(c) && Denotes(c, Some(acc)) && forall i :: 0 <= i < |terms| ==> TermOk(terms[i])
    requires Evaluable(acc, terms)
    ensures Safe(CodeFold(acc, terms))
    ensures exists lhs: i64 :: Run(c, AllKeys(terms) + [Equal]) == Some(Answer(lhs, CodeFold(acc, terms)))
    decreases |terms|
  {
    hide Run, Inv, Denotes, StepValue, Answer;
    if terms == [] {
      EqualAnswers(c, Some(acc));
      assert AllKeys(terms) + [Equal] == [Equal];
    } else {
      var t := terms[0];
      TermStep(c, acc, t);
      var first := OpKeys(t.ops) + DigitKeys(t.digits);
      var g := Run(c, first).value;
      assert AllKeys(terms) + [Equal] == first + (AllKeys(terms[1..]) + [Equal]);
      RunAppend(c, first, AllKeys(terms[1..]) + [Equal]);
      match StepValue(acc, t)
      case None =>
        EqualAnswers(g, None);
        assert AllKeys(terms[1..]) + [Equal] == [Equal];
      case Some(v) =>
        Evaluates(g, v, terms[1..]);
    }
  }

  /** Every accumulator that meets a repeated operator is above -10^18. */
  predicate Shows(acc: int, terms: seq<Term>)
    requires forall i :: 0 <= i < |terms| ==> TermOk(terms[i])
    decreases |terms|
  {
    terms == [] ||
    (&& (|terms[0].ops| == 1 || acc > -EXACT)
     && (StepValue(acc, terms[0]).Some? ==> Shows(StepValue(acc, terms[0]).value, terms[1..])))
  }

  lemma {:induction false} FoldsAgree(acc: int, terms: seq<Term>)
    requires (forall i :: 0 <= i < |terms| ==> TermOk(terms[i])) && Shows(acc, terms)
    ensures CodeFold(acc, terms) == Fold(acc, terms)
    decreases |terms|
  {
    if terms != [] && StepValue(acc, terms[0]).Some? {
      FoldsAgree(StepValue(acc, terms[0]).value, terms[1..]);
    }
  }

  /** At the start, after Clear, or with a result on display. */
  predicate Idle(c: Calc) { c == Start() || (c.result && !c.err && c.op == NUL) }

  lemma FirstNumber(c: Calc, first: string)
    requires Inv(c) && Idle(c) && Number(first)
    ensures Run(c, DigitKeys(first)).Some?
    ensures var g := Run(c, DigitKeys(first)).value;
            Inv(g) && Denotes(g, Some(Typed(first, if c == Start() then 17 else 18)))
  {
    if c == Start() {
      DigitsFit("0");
      DigitsAppended(c, first);
      LeadingZero(Take(first, 17));
      assert Take("0" + first, 18) == "0" + Take(first, 17);
      DigitsFit("0" + Take(first, 17));
    } else {
      NumberEntered(c, first);
    }
  }

  /** Number, then operators and numbers, then '=': the display is the left-to-right value with truncating division
      and reads back as that value exactly when it is above -10^18; a final division by zero shows "Err". The first
      number has one digit less of room when it follows the initial "0". */
  lemma LeftToRight(c: Calc, first: string, terms: seq<Term>)
    requires Inv(c) && Idle(c) && Number(first) && forall i :: 0 <= i < |terms| ==> TermOk(terms[i])
    requires var n := Typed(first, if c == Start() then 17 else 18); Evaluable(n, terms) && Shows(n, terms)
    ensures var n := Typed(first, if c == Start() then 17 else 18);
            var r := Run(c, DigitKeys(first) + (AllKeys(terms) + [Equal]));
            && r.Some? && r.value.result && r.value.op == NUL
            && match Fold(n, terms)
               case None => r.value.err && r.value.text == "Err"
               case Some(v) => !r.value.err && r.value.lhs == v && Fits(v) && r.value.text == Fmt(v, 20)
                               && (Parse(r.value.text) == v <==> v > -EXACT)
  {
    hide Run, Inv, Denotes, Evaluable, Shows;
    var n := Typed(first, if c == Start() then 17 else 18);
    FirstNumber(c, first);
    RunAppend(c, DigitKeys(first), AllKeys(terms) + [Equal]);
    EvaluableFits(n, terms);
    Evaluates(Run(c, DigitKeys(first)).value, n, terms);
    FoldsAgree(n, terms);
    if Fold(n, terms).Some? {
      RoundTrip(Fold(n, terms).value);
    }
  }

  lemma OneTerm(acc: int, op: char, ds: string, ts: seq<Term>)
    requires |ts| > 0 && ts[0] == Term([op], ds) && op in "+-*/" && Number(ds)
    ensures TermOk(ts[0]) && StepValue(acc, ts[0]) == Apply(acc, op, Typed(ds, 18))
  {
  }

  /** On the keys: a number, plus another, minus the other, shows the first again. */
  lemma SubtractUndoesAdd(n: string, m: string)
    requires Number(n) && Number(m)
    ensures var r := Run(Start(), DigitKeys(n) + (AllKeys([Term("+", m), Term("-", m)]) + [Equal]));
            r.Some? && !r.value.err && r.value.lhs == Typed(n, 17) && Parse(r.value.text) == Typed(n, 17)
  {
    var a, b := Typed(n, 17), Typed(m, 18);
    var terms := [Term("+", m), Term("-", m)];
    TypedSmall(n, 17);
    TypedSmall(m, 18);
    TwoSteps(a, "+", "-", m, b, a + b, Some(a));
    StartDenotes();
    LeftToRight(Start(), n, terms);
  }

  /** Times a number other than 0 and divided by it: the same. */
  lemma DivideUndoesMultiply(n: string, m: string)
    requires Number(n) && Number(m) && Typed(m, 18) != 0 && Fits(Typed(n, 17) * Typed(m, 18))
    ensures var r := Run(Start(), DigitKeys(n) + (AllKeys([Term("*", m), Term("/", m)]) + [Equal]));
            r.Some? && !r.value.err && r.value.lhs == Typed(n, 17) && Parse(r.value.text) == Typed(n, 17)
  {
    var a, b := Typed(n, 17), Typed(m, 18);
    var terms := [Term("*", m), Term("/", m)];
    TypedSmall(n, 17);
    TypedSmall(m, 18);
    Cancels(a, b);
    TwoSteps(a, "*", "/", m, b, a * b, Some(a));
    StartDenotes();
    LeftToRight(Start(), n, terms);
  }

  lemma Cancels(a: nat, b: nat)
    requires b != 0
    ensures 0 <= a * b && Quot(a * b, b) == a
  {
    QuotTruncates(a * b, b);
    var q := Quot(a * b, b);
    assert a * b - q * b == (a - q) * b;
    if a - q >= 1 {
      Scale(a - q, b);
    } else if a - q <= -1 {
      assert (q - a) * b == -((a - q) * b);
      Scale(q - a, b);
    }
  }

  lemma Scale(k: nat, b: nat)
    requires k >= 1
    ensures k * b >= b
  {
  }

  lemma TypedSmall(ds: string, room: nat)
    requires AllDigits(ds) && room <= 18
    ensures Typed(ds, room) < EXACT
  {
    ValBound(Take(ds, room));
    Powers();
    PowMonotone(|Take(ds, room)|, 18);
  }

  /** Two terms on the same number, evaluated. */
  lemma TwoSteps(a: nat, op1: string, op2: string, m: string, b: nat, mid: int, end: Option<int>)
    requires |op1| == |op2| == 1 && Operators(op1) && Operators(op2) && Number(m) && b == Typed(m, 18)
    requires Fits(a) && Fits(mid) && mid >= 0 && Apply(a, op1[0], b) == Some(mid) && Apply(mid, op2[0], b) == end
    requires end.Some? && Fits(end.value) && end.value >= 0
    ensures var terms := [Term(op1, m), Term(op2, m)];
            && (forall i :: 0 <= i < |terms| ==> TermOk(terms[i]))
            && Evaluable(a, terms) && Shows(a, terms) && Fold(a, terms) == end
  {
    var t, u := Term(op1, m), Term(op2, m);
    var terms := [t, u];
    assert terms[1..] == [u] && [u][1..] == [];
    assert TermOk(t) && TermOk(u);
    assert StepValue(a, t) == Some(mid) && StepValue(mid, u) == end;
    assert Evaluable(end.value, []) && Shows(end.value, []) && Fold(end.value, []) == end;
    assert Evaluable(mid, [u]) && Shows(mid, [u]) && Fold(mid, [u]) == end;
  }

  lemma EvaluableFits(acc: int, terms: seq<Term>)
    requires (forall i :: 0 <= i < |terms| ==> TermOk(terms[i])) && Evaluable(acc, terms)
    ensures Fits(acc)
  {
  }

  const BILLION: string := "1000000000"

  /** 0 - 1000000000 * 1000000000, keyed in from the start. */
  const TO_BOUND: seq<Term> := [Term("-", BILLION), Term("*", BILLION)]

  lemma BillionTyped()
    ensures Number(BILLION) && Typed(BILLION, 18) == 1_000_000_000
  {
    assert BILLION[..9] == "100000000";
    assert "100000000"[..8] == "10000000";
    assert "10000000"[..7] == "1000000";
    assert "1000000"[..6] == "100000";
    assert "100000"[..5] == "10000";
    assert "10000"[..4] == "1000";
    assert "1000"[..3] == "100";
    assert "100"[..2] == "10";
    assert "10"[..1] == "1";
    assert "1"[..0] == "";
  }

  /** Why the bound is needed: the machine reaches -10^18, and a second operator key turns it into -10^17. */
  lemma RepeatLosesDigit(ops: string)
    requires Operators(ops) && |ops| > 1
    ensures var r := Run(Start(), AllKeys(TO_BOUND) + OpKeys(ops));
            && r.Some? && r.value.lhs == -100_000_000_000_000_000 && r.value.op == ops[|ops| - 1]
            && var c := Run(Start(), AllKeys(TO_BOUND));
            && c.Some? && Inv(c.value) && Denotes(c.value, Some(-EXACT))
  {
    hide Run, Denotes, Inv, AllKeys, StepValue, TermOk;
    StartDenotes();
    BoundSteps();
    TwoTerms(Start(), 0, TO_BOUND, -1_000_000_000, -EXACT);
    OpsPressed(Run(Start(), AllKeys(TO_BOUND)).value, -EXACT, ops);
    RunAppend(Start(), AllKeys(TO_BOUND), OpKeys(ops));
  }

  lemma BoundSteps()
    ensures TermOk(TO_BOUND[0]) && StepValue(0, TO_BOUND[0]) == Some(-1_000_000_000)
    ensures TermOk(TO_BOUND[1]) && StepValue(-1_000_000_000, TO_BOUND[1]) == Some(-EXACT)
  {
    hide Val;
    BillionTyped();
  }

  lemma TwoTerms(c: Calc, acc: i64, ts: seq<Term>, mid: i64, end: int)
    requires Inv(c) && Denotes(c, Some(acc)) && |ts| == 2 && TermOk(ts[0]) && TermOk(ts[1])
    requires StepValue(acc, ts[0]) == Some(mid) && StepValue(mid, ts[1]) == Some(end)
    ensures var r := Run(c, AllKeys(ts));
            r.Some? && Inv(r.value) && Denotes(r.value, Some(end))
  {
    hide Run, Denotes, Inv, StepValue, TermOk;
    var a, b := OpKeys(ts[0].ops) + DigitKeys(ts[0].digits), OpKeys(ts[1].ops) + DigitKeys(ts[1].digits);
    TermStep(c, acc, ts[0]);
    TermStep(Run(c, a).value, mid, ts[1]);
    RunAppend(c, a, b);
    assert ts[1..][0] == ts[1] && ts[1..][1..] == [];
    assert AllKeys(ts[1..]) == b;
    assert AllKeys(ts) == a + b;
  }

  lemma StartDenotes()
    ensures Inv(Start()) && Denotes(Start(), Some(0))
  {
    DigitsFit("0");
  }

  /** The first digit after an error starts over as after Clear. */
  lemma {:induction false} ErrorClears(c: Calc, ds: string)
    requires Inv(c) && c.err && Number(ds)
    ensures Run(c, DigitKeys(ds)) == Run(Start(), DigitKeys(ds))
  {
    DigitsFit("0");
    assert Parse("Err") == 0;
  }

  /** Backspace undoes a digit, unless it replaced the display or met the cap. */
  lemma DeleteUndoesDigit(c: Calc, d: char)
    requires Inv(c) && IsDigit(d)
    ensures DelDigit(AppendDigit(c, d)) == c <==> !c.again && |c.text| < 18
    ensures c.again || c.err ==> DelDigit(AppendDigit(c, d)).text == "0"
  {
    if !c.again && |c.text| < 18 {
      assert (c.text + [d])[..|c.text|] == c.text;
    }
  }

  // ---- the code -----------------------------------------------------------------------

  /** Parsing cannot overflow when the text's value fits. */
  method ParseInp(s: array<char>, ghost text: string) returns (r: i64)
    requires Holds(s, |text|, text) && Fits(Parse(text))
    ensures r == Parse(text)
  {
    var i := 0;
    var neg := s[i] == '-';
    assert s[0] == (if text == "" then NUL else text[0]);
    if neg {
      i := i + 1;
    }
    ghost var k := i;
    ghost var e := RunEnd(text, k);
    ghost var run := text[k..e];
    var v: i64 := 0;
    assert run[..0] == "";
    while '0' <= s[i] && s[i] <= '9'
      invariant k <= i <= e
      invariant v == Val(run[..i - k])
      decreases e - i
    {
      v := Accumulate(s, text, k, e, i, v);
      i := i + 1;
    }
    BufferAt(s, text);
    assert forall j :: k <= j < e ==> IsDigit(text[j]) by {
      assert forall j :: k <= j < e ==> text[j] == run[j - k];
    }
    assert run[..e - k] == run;
    r := if neg then -v else v;
  }

  /** One digit of parseInp. */
  method Accumulate(s: array<char>, ghost text: string, ghost k: nat, ghost e: nat, i: nat, v: i64) returns (r: i64)
    requires Holds(s, |text|, text) && k == SignLen(text) && k <= |text| && e == RunEnd(text, k) && k <= i <= e
    requires '0' <= s[i] <= '9' && Fits(Parse(text))
    requires v == Val(text[k..e][..i - k])
    ensures i < e && r == Val(text[k..e][..i + 1 - k])
  {
    assert i < |text| && s[i] == text[i];
    assert i < e;
    ghost var run := text[k..e];
    assert run[i - k] == s[i];
    ValSnoc(run, i - k);
    ValPrefix(run, i + 1 - k);
    r := v * 10 + (s[i] as int - '0' as int);
  }

  /** fmtNum's first loop: the digits of v, last one first. */
  method ReversedDigits(v0: i64, tmp: array<char>) returns (ti: nat)
    requires v0 > 0 && tmp.Length == 20
    modifies tmp
    ensures ti == |Digits(v0)| <= 19
    ensures forall k :: 0 <= k < ti ==> tmp[k] == Digits(v0)[ti - 1 - k]
  {
    assert Fits(v0);
    Width(v0);
    ghost var d := Digits(v0);
    var v: nat := v0;
    ti := 0;
    while v > 0 && ti < 19
      invariant |d| == |Digits(v)| + ti && d[..|d| - ti] == Digits(v)
      invariant forall k :: 0 <= k < ti ==> tmp[k] == d[|d| - 1 - k]
      decreases v
    {
      assert d[|d| - 1 - ti] == d[..|d| - ti][|d| - 1 - ti];
      assert d[..|d| - ti - 1] == d[..|d| - ti][..|d| - ti - 1];
      tmp[ti] := DigitChar(v % 10);
      ti := ti + 1;
      v := v / 10;
    }
    assert v > 0 ==> |Digits(v)| > 0;
  }

  /** fmtNum's second loop: copy the digits back in order, as far as the buffer goes. */
  method CopyDigits(tmp: array<char>, ti: nat, buf: array<char>, start: nat, max: nat, ghost d: string) returns (i: nat)
    requires ti == |d| <= tmp.Length && start < max <= buf.Length && buf != tmp
    requires forall k :: 0 <= k < ti ==> tmp[k] == d[ti - 1 - k]
    modifies buf
    ensures i == start + |Take(d, max - 1 - start)| && i < max
    ensures buf[start..i] == Take(d, max - 1 - start)
    ensures forall k :: 0 <= k < start ==> buf[k] == old(buf[k])
  {
    i := start;
    var j := ti - 1;
    while j >= 0 && i < max - 1
      invariant -1 <= j < ti && i == start + (ti - 1 - j) && start <= i <= max - 1
      invariant forall k :: start <= k < i ==> buf[k] == d[k - start]
      invariant forall k :: 0 <= k < start ==> buf[k] == old(buf[k])
      decreases j + 1
    {
      buf[i] := tmp[j];
      i := i + 1;
      j := j - 1;
    }
  }

  method FmtNum(v0: i64, buf: array<char>, max: nat)
    requires 2 <= max <= buf.Length
    modifies buf
    ensures Holds(buf, |Fmt(v0, max)|, Fmt(v0, max))
  {
    if v0 == 0 {
      buf[0] := '0';
      buf[1] := NUL;
      assert Fmt(v0, max) == "0" && buf[..1] == "0";
      return;
    }
    FmtParts(v0, max);
    assert Fits(v0) && Fits(-v0);
    var neg := v0 < 0;
    var v: i64 := if neg then -v0 else v0;
    var i := 0;
    if neg {
      buf[0] := '-';
      i := 1;
    }
    assert buf[..i] == Sign(v0);
    PrintDigits(v, buf, i, max);
  }

  /** fmtNum after the sign. */
  method PrintDigits(v: i64, buf: array<char>, start: nat, max: nat)
    requires v > 0 && start < max <= buf.Length
    requires NUL !in buf[..start] + Take(Digits(v), max - 1 - start)
    modifies buf
    ensures var s := old(buf[..start]) + Take(Digits(v), max - 1 - start);
            Holds(buf, |s|, s)
  {
    var tmp := new char[20];
    var ti := ReversedDigits(v, tmp);
    var i := CopyDigits(tmp, ti, buf, start, max, Digits(v));
    buf[i] := NUL;
    assert buf[..i] == buf[..start] + buf[start..i];
    assert buf[..start] == old(buf[..start]);
  }

  lemma FmtParts(v: i64, max: nat)
    requires max >= 2 && v != 0
    ensures Fmt(v, max) == Sign(v) + Take(Digits(Abs(v)), max - 1 - |Sign(v)|)
    ensures NUL !in Fmt(v, max)
  {
    ValDigits(Abs(v));
    hide Digits, Val;
    var d := Digits(Abs(v));
    assert Numeral(Abs(v)) == d;
    assert |Sign(v)| <= 1;
    var t := Take(d, max - 1 - |Sign(v)|);
    assert forall i :: 0 <= i < |t| ==> t[i] == d[i];
    assert Fmt(v, max) == Sign(v) + t;
  }

  /** compute, with outErr as a second result. */
  method Compute(a: i64, op: char, b: i64) returns (r: i64, outErr: bool)
    requires Safe(Apply(a, op, b))
    ensures outErr == Apply(a, op, b).None?
    ensures r == if outErr then 0 else Apply(a, op, b).value
    ensures outErr <==> op == '/' && b == 0
    ensures op == '+' ==> r == a + b
    ensures op == '-' ==> r == a - b
    ensures op == '*' ==> r == a * b
    ensures op == '/' && b != 0 ==> Abs(a - r * b) < Abs(b) && (a - r * b != 0 ==> (a - r * b < 0 <==> a < 0))
    ensures op !in "+-*/" ==> r == a
  {
    if b != 0 {
      QuotTruncates(a, b);
    }
    outErr := false;
    r := a;
    if op == '+' {
      r := a + b;
    } else if op == '-' {
      r := a - b;
    } else if op == '*' {
      r := a * b;
    } else if op == '/' {
      if b == 0 {
        outErr := true;
        r := 0;
      } else {
        r := Quot(a, b);
      }
    }
  }

  class CalculatorWindow {
    var lhs: i64
    var pendingOp: char
    const inp: array<char>
    var inpLen: nat
    var replaceNext: bool
    var resultSt: bool
    var err: bool

    ghost predicate Layout()
      reads this, inp
    {
      inp.Length == 20 && inpLen < 20 && Holds(inp, inpLen, inp[..inpLen])
    }

    ghost function State(): Calc
      reads this, inp
      requires Layout()
    {
      Calc(lhs, pendingOp, inp[..inpLen], replaceNext, resultSt, err)
    }

    ghost predicate Valid()
      reads this, inp
    {
      Layout() && Inv(State())
    }

    ghost predicate Is(c: Calc)
      reads this, inp
    {
      Layout() && State() == c
    }

    constructor ()
      ensures Valid() && Is(Start()) && fresh(inp)
    {
      inp := new char[20];
      inpLen, lhs, pendingOp := 1, 0, NUL;
      replaceNext, resultSt, err := false, false, false;
      new;
      inp[0], inp[1] := '0', NUL;
      DigitsFit("0");
      assert inp[..1] == "0";
    }

    method ShowText(s: string)
      requires inp.Length == 20 && |s| < 20 && NUL !in s
      modifies this`inpLen, inp
      ensures Layout() && inp[..inpLen] == s
    {
      inpLen := 0;
      while inpLen < |s|
        invariant inpLen <= |s|
        invariant inp[..inpLen] == s[..inpLen]
      {
        inp[inpLen] := s[inpLen];
        inpLen := inpLen + 1;
      }
      inp[inpLen] := NUL;
    }

    method ShowResult(r: i64)
      requires inp.Length == 20
      modifies this`inpLen, this`lhs, inp
      ensures Layout() && inp[..inpLen] == Fmt(r, 20) && lhs == r
    {
      FmtNum(r, inp, 20);
      inpLen := Strlen(inp, Fmt(r, 20));
      lhs := r;
    }

    /** compute on the pending operation, and its outcome on the display. */
    method EvaluatePending(cur: i64)
      requires Layout() && Safe(Apply(lhs, pendingOp, cur))
      modifies this`inpLen, this`lhs, this`err, inp
      ensures Is(Outcome(old(State()), Apply(old(lhs), pendingOp, cur)))
    {
      var result;
      result, err := Compute(lhs, pendingOp, cur);
      if !err {
        ShowResult(result);
      } else {
        ShowText("Err");
      }
    }

    method SetMode(op: char, result: bool)
      requires Layout()
      modifies this`pendingOp, this`replaceNext, this`resultSt
      ensures Is(old(State()).(op := op, again := true, result := result))
    {
      pendingOp := op;
      replaceNext := true;
      resultSt := result;
    }

    method CommitOpKey(newOp: char)
      requires Valid() && Defined(State(), Op(newOp))
      modifies this, inp
      ensures Valid() && Is(CommitOp(old(State()), newOp))
    {
      assert err ==> replaceNext;
      hide Inv, Parse, Fmt, Apply;
      PressKeeps(State(), Op(newOp));
      var cur := ParseInp(inp, inp[..inpLen]);
      if pendingOp != NUL && !replaceNext {
        EvaluatePending(cur);
      } else {
        lhs := cur;
      }
      SetMode(newOp, false);
    }

    method DoEqualKey()
      requires Valid() && Defined(State(), Equal)
      modifies this, inp
      ensures Valid() && Is(DoEqual(old(State())))
    {
      hide Inv, Parse, Fmt, Apply;
      PressKeeps(State(), Equal);
      if err {
        DoClearKey();
        return;
      }
      var cur := ParseInp(inp, inp[..inpLen]);
      if pendingOp != NUL {
        EvaluatePending(cur);
      } else {
        ShowResult(cur);
      }
      SetMode(NUL, true);
    }

    method DoClearKey()
      requires inp.Length == 20
      modifies this, inp
      ensures Valid() && Is(Start())
    {
      lhs := 0;
      pendingOp := NUL;
      ShowText("0");
      replaceNext := false;
      resultSt := false;
      err := false;
      DigitsFit("0");
    }

    method AppendDigitKey(d: char)
      requires Valid() && IsDigit(d)
      modifies this, inp
      ensures Valid() && Is(AppendDigit(old(State()), d))
    {
      DigitKeeps(State(), d);
      if err {
        DoClearKey();
      }
      if replaceNext || resultSt {
        ShowText([d]);
        replaceNext := false;
        resultSt := false;
      } else if inpLen < 18 {
        Push(d);
      }
    }

    method Push(d: char)
      requires Layout() && inpLen < 19 && d != NUL
      modifies this`inpLen, inp
      ensures Layout() && inp[..inpLen] == old(inp[..inpLen]) + [d]
    {
      inp[inpLen] := d;
      inpLen := inpLen + 1;
      inp[inpLen] := NUL;
    }

    method DelDigitKey()
      requires Valid()
      modifies this, inp
      ensures Valid() && Is(DelDigit(old(State())))
    {
      hide Inv;
      DeleteKeeps(State());
      if err || resultSt {
        DoClearKey();
      } else if inpLen > 1 {
        Pop();
      } else {
        ShowText("0");
      }
    }

    method Pop()
      requires Layout() && inpLen > 0
      modifies this`inpLen, inp
      ensures Layout() && inp[..inpLen] == old(inp[..inpLen])[..old(inpLen) - 1]
    {
      inpLen := inpLen - 1;
      inp[inpLen] := NUL;
      assert inp[..inpLen] == old(inp[..inpLen])[..inpLen];
    }
  }
}
