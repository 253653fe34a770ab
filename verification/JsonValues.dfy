/** What it means that an array has come back: the same keys, the same values, each number the same. */
module JsonValues {
  import opened Common
  import opened JsonEvents
  import opened JsonRoundTrip

  // ------------------------------------------------------------ numbers

  function Pow2(n: nat): (p: real)
    ensures p > 0.0
  {
    if n == 0 then 1.0 else 2.0 * Pow2(n - 1)
  }

  function Scaled(m: int, e: int): real {
    if e >= 0 then m as real * Pow2(e) else m as real / Pow2(-e)
  }

  /** What a C double can be, but for NaN, the infinities and the sign of zero. */
  ghost predicate IsDouble(r: real) {
    exists m: int, e: int :: -0x20_0000_0000_0000 <= m <= 0x20_0000_0000_0000 && -1074 <= e <= 971 && r == Scaled(m, e)
  }

  /** A text of digits, with or without a minus sign, as a number. */
  function Numeral(s: string): Option<int> {
    var digits := if s != [] && s[0] == '-' then s[1..] else s;
    if exists k :: 0 <= k < |digits| && !('0' <= digits[k] <= '9') then None
    else match Digits(digits, None)
      case None => None
      case Some(n) => var m: int := n; Some(if |digits| < |s| then -m else m)
  }

  /** The number gawk finds in a text: a numeral stands for itself, other texts are left to strtod. */
  function NumberOf(f: Foreign, s: string): real {
    match Numeral(s)
    case Some(n) => n as real
    case None => f.strtod(s)
  }

  /** Of rapidjson and strtod: the text of a fraction is read back as that double. */
  ghost predicate Reads(f: Foreign) {
    forall r :: IsDouble(r) && !Whole(r) ==> NumberOf(f, f.fraction(r)) == r
  }

  lemma NumeralOfSigned(n: int)
    ensures Numeral(Signed(n)) == Some(n)
  {
    var m := if n < 0 then -n else n;
    DigitsOfDecimal(m);
    assert n < 0 ==> Signed(n)[1..] == Decimal(m);
    assert Decimal(m)[0] != '-';
  }

  /** A whole number has a text that an int64_t can print exactly when it is in its range. */
  lemma HasTextIff(f: Foreign, r: real)
    requires Whole(r)
    ensures (exists n :: -TWO63 <= n < TWO63 && NumberOf(f, Signed(n)) == r) <==> Fits64(r)
  {
    var n := DoubleToInt(r);
    NumeralOfSigned(n);
    forall k | -TWO63 <= k < TWO63 && NumberOf(f, Signed(k)) == r ensures k == n {
      NumeralOfSigned(k);
    }
    assert Fits64(r) ==> NumberOf(f, Signed(n)) == r;
  }

  /** The text written for a number is read as that number. */
  lemma NumberKept(f: Foreign, r: real)
    requires Reads(f) && IsDouble(r) && Fits64(r)
    ensures NumberEvent(f, r).NumberText? && NumberOf(f, NumberEvent(f, r).s) == r
  {
    if Whole(r) {
      NumeralOfSigned(DoubleToInt(r));
    }
  }

  // ------------------------------------------------------------ values

  /** What gawk sees to: in every array the indices are different, and every number is a double. */
  ghost predicate Awk(v: Value) {
    match v
    case Number(r) => IsDouble(r)
    case Array(es) => UniqueKeys(es) && forall i :: 0 <= i < |es| ==> Awk(es[i].value)
    case _ => true
  }

  /** A string comes back as itself, but for the marks of a regex. */
  predicate SameString(s: string, t: Tree) {
    t.Leaf? && if LooksLikeRegex(s) then t.v.Regex? && s == "@/" + t.v.s + "/" else t.v == StrNum(s)
  }

  /** The tree is the value: a number is a text that is read as this number, an array has the same
      indices, each with its value. */
  ghost predicate Same(f: Foreign, v: Value, t: Tree)
    decreases v
  {
    match v
    case Number(r) => t.Leaf? && t.v.StrNum? && NumberOf(f, t.v.s) == r
    case Str(s) => SameString(s, t)
    case StrNum(s) => SameString(s, t)
    case Array(es) =>
      && t.Branch? && t.m.Keys == KeysOf(es)
      && forall i :: 0 <= i < |es| ==> es[i].key in t.m && Same(f, es[i].value, t.m[es[i].key])
    case _ => t == Leaf(v)
  }

  lemma StringKept(s: string)
    requires !Underflows(s)
    ensures SameString(s, Leaf(StringLeaf(s)))
  {
    if LooksLikeRegex(s) {
      var t := s[2..|s| - 1];
      assert s == "@/" + t + "/";
    }
  }

  lemma ArraySame(f: Foreign, v: Value, t: Tree)
    requires v.Array? && t.Branch? && Maps(f, v.elems, t.m)
    requires forall i :: 0 <= i < |v.elems| ==> Same(f, v.elems[i].value, Norm(f, v.elems[i].value))
    ensures Same(f, v, t)
  {
    hide Norm;
    forall k ensures k in t.m.Keys <==> k in KeysOf(v.elems) {}
    forall i | 0 <= i < |v.elems| ensures v.elems[i].key in t.m && Same(f, v.elems[i].value, t.m[v.elems[i].key]) {
      assert v.elems[i] in v.elems;
    }
  }

  /** What the handler builds is the value. */
  lemma {:induction false} NormSame(f: Foreign, v: Value)
    requires Reads(f) && Awk(v) && Clean(v)
    ensures Same(f, v, Norm(f, v))
    decreases v
  {
    match v
    case Number(r) => NumberKept(f, r);
    case Str(s) => StringKept(s);
    case StrNum(s) => StringKept(s);
    case Array(es) =>
      var t := Norm(f, v);
      ArrayNorm(f, v);
      assert forall i :: 0 <= i < |es| ==> Awk(es[i].value) && Clean(es[i].value);
      hide *;
      forall i | 0 <= i < |es| ensures Same(f, es[i].value, Norm(f, es[i].value)) {
        NormSame(f, es[i].value);
      }
      ArraySame(f, v, t);
    case _ =>
  }
}
