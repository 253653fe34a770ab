/** awk arrays as JSON (json/json.cpp, json/awkjsonhandler.cpp): the events the writer makes of a value,
    and the state the handler reaches on them. The text in between is rapidjson's: an event list. */
module JsonEvents {
  import opened Common

  // ------------------------------------------------------------ awk values

  /** A value of an awk array; an array is the list flatten_array gives of it. */
  datatype Value =
    | Number(r: real) | Boolean(b: bool) | Str(s: string) | StrNum(s: string) | Regex(s: string) | Undefined
    | Array(elems: seq<Elem>)

  datatype Elem = Elem(key: string, value: Value)

  /** What rapidjson's writer and reader exchange; a number comes back as its text
      (kParseNumbersAsStringsFlag). Wild is what the cast of a number makes that no int64_t holds: it is
      undefined, so nothing is known of what is written. */
  datatype Event =
    | Null | Bool(b: bool) | NumberText(s: string) | String(s: string) | Wild
    | Key(s: string) | StartObject | EndObject | StartArray | EndArray

  // ------------------------------------------------------------ numbers

  function Digit(d: nat): (c: char)
    requires d < 10
    ensures '0' <= c <= '9' && c as int - '0' as int == d
  {
    (d + '0' as int) as char
  }

  /** The decimal digits of a number, without leading zeros. */
  function Decimal(n: nat): (s: string)
    ensures s != [] && forall k :: 0 <= k < |s| ==> '0' <= s[k] <= '9'
  {
    if n < 10 then [Digit(n)] else Decimal(n / 10) + [Digit(n % 10)]
  }

  function Signed(n: int): string { if n < 0 then ['-'] + Decimal(-n) else Decimal(n) }

  const TWO31: int := 0x8000_0000
  const TWO32: int := 0x1_0000_0000
  const TWO63: int := 0x8000_0000_0000_0000

  /** The conversion of a wider integer to int: modulo 2^32, two's complement. */
  function ToInt(n: int): int { (n + TWO31) % TWO32 - TWO31 }

  /** What is foreign: qsort, the text rapidjson writes for a fraction, and the number strtod reads in a
      text. */
  datatype Foreign = Foreign(sort: seq<Elem> -> seq<Elem>, fraction: real -> string, strtod: string -> real)

  /** double_to_int: towards zero. */
  function DoubleToInt(r: real): int { if r >= 0.0 then r.Floor else -((-r).Floor) }

  predicate Whole(r: real) { DoubleToInt(r) as real == r }

  /** The cast to int64_t, which is tried on a whole number only, is defined. */
  predicate Fits64(r: real) { Whole(r) ==> -TWO63 <= DoubleToInt(r) < TWO63 }

  /** (int64_t), written out. */
  function Int64Event(r: real): Event {
    if Fits64(r) then NumberText(Signed(DoubleToInt(r))) else Wild
  }

  function NumberEvent(f: Foreign, r: real): Event {
    if Whole(r) then Int64Event(r) else NumberText(f.fraction(r))
  }

  // ------------------------------------------------------------ the order of keys

  function IsSpace(c: char): bool { c == ' ' || '\t' <= c <= '\r' }

  function SkipSpace(s: string): (r: string)
    ensures |r| <= |s|
  {
    if s != [] && IsSpace(s[0]) then SkipSpace(s[1..]) else s
  }

  /** The value of the digits at the start of the string, after those with value n; None: no digit at all. */
  function Digits(s: string, n: Option<nat>): Option<nat>
    decreases |s|
  {
    if s != [] && '0' <= s[0] <= '9' then
      Digits(s[1..], Some((if n.Some? then 10 * n.value else 0) + (s[0] as int - '0' as int)))
    else n
  }

  /** strtol in base 10; None when there is nothing to convert. */
  function Strtol(s: string): Option<int> {
    var t := SkipSpace(s);
    var negative := t != [] && t[0] == '-';
    var u := if t != [] && (t[0] == '-' || t[0] == '+') then t[1..] else t;
    match Digits(u, None)
    case None => None
    case Some(n) =>
      var m: int := n;
      Some(if negative then (if m > TWO63 then -TWO63 else -m) else if m >= TWO63 then TWO63 - 1 else m)
  }

  function CStr(s: string): string { if s == [] || s[0] == 0 as char then [] else [s[0]] + CStr(s[1..]) }

  /** strcmp, up to its sign. */
  function Strcmp(l: string, r: string): int
    decreases |l|
  {
    if l == [] then (if r == [] then 0 else -1)
    else if r == [] then 1
    else if l[0] != r[0] then l[0] as int - r[0] as int
    else Strcmp(l[1..], r[1..])
  }

  /** compare: numerically when both keys convert; the long difference becomes an int. */
  function Compare(l: Elem, r: Elem): int {
    var lv, rv := Strtol(l.key), Strtol(r.key);
    if lv.None? || rv.None? then Strcmp(CStr(l.key), CStr(r.key)) else ToInt(lv.value - rv.value)
  }

  /** The index that belongs at a place: counted from 1, as "%d" prints it. */
  function Place(i: nat): string { Signed(ToInt(i + 1)) }

  predicate IsList(es: seq<Elem>) {
    forall i :: 0 <= i < |es| ==> es[i].key == Place(i)
  }

  /** qsort only moves elements. */
  ghost predicate Permutes(f: Foreign) {
    forall es: seq<Elem> :: multiset(f.sort(es)) == multiset(es)
  }

  /** A comparison qsort can rely on. */
  ghost predicate Consistent(es: seq<Elem>) {
    && (forall a, b :: a in es && b in es ==> (Compare(a, b) <= 0 || Compare(b, a) <= 0))
    && (forall a, b, c :: a in es && b in es && c in es && Compare(a, b) <= 0 && Compare(b, c) <= 0 ==> Compare(a, c) <= 0)
  }

  ghost predicate Sorted(es: seq<Elem>) {
    forall i, j :: 0 <= i < j < |es| ==> Compare(es[i], es[j]) <= 0
  }

  /** ... and it sorts whenever it can. */
  ghost predicate Sorts(f: Foreign) {
    Permutes(f) && forall es :: Consistent(es) ==> Sorted(f.sort(es))
  }

  lemma SortMembers(f: Foreign, es: seq<Elem>)
    requires Permutes(f)
    ensures |f.sort(es)| == |es| && forall e :: e in f.sort(es) <==> e in es
  {
    assert multiset(f.sort(es)) == multiset(es);
    assert |multiset(f.sort(es))| == |f.sort(es)| && |multiset(es)| == |es|;
    forall e ensures e in f.sort(es) <==> e in es {
      assert e in multiset(f.sort(es)) <==> e in f.sort(es);
      assert e in multiset(es) <==> e in es;
    }
  }

  // ------------------------------------------------------------ what the writer writes

  /** The array is written as a JSON list. */
  ghost predicate AsList(f: Foreign, linear: bool, es: seq<Elem>) { linear && IsList(f.sort(es)) }

  ghost function Events(f: Foreign, linear: bool, v: Value): seq<Event>
    requires Permutes(f)
    decreases v, if v.Array? then |v.elems| + 1 else 0
  {
    match v
    case Number(r) => [NumberEvent(f, r)]
    case Boolean(b) => [Bool(b)]
    case Str(s) => [String(s)]
    case StrNum(s) => [String(s)]
    case Regex(s) => [String("@/" + s + "/")]
    case Undefined => [Null]
    case Array(es) =>
      if AsList(f, linear, es) then [StartArray] + ListEvents(f, linear, v, |es|) + [EndArray]
      else [StartObject] + ElemEvents(f, linear, v, |es|) + [EndObject]
  }

  /** The first k elements, in sorted order, without their keys. */
  ghost function ListEvents(f: Foreign, linear: bool, v: Value, k: nat): seq<Event>
    requires Permutes(f) && v.Array? && k <= |v.elems|
    decreases v, k
  {
    SortMembers(f, v.elems);
    if k == 0 then []
    else
      var e := f.sort(v.elems)[k - 1];
      assert e in v.elems;
      ListEvents(f, linear, v, k - 1) + Events(f, linear, e.value)
  }

  /** The first k elements, each after its key. */
  ghost function ElemEvents(f: Foreign, linear: bool, v: Value, k: nat): seq<Event>
    requires Permutes(f) && v.Array? && k <= |v.elems|
    decreases v, k
  {
    if k == 0 then []
    else
      var e := v.elems[k - 1];
      ElemEvents(f, linear, v, k - 1) + ([Key(e.key)] + Events(f, linear, e.value))
  }

  /** flatten_array fails on an empty array, so to_json fails on a value that holds one. */
  ghost predicate HasEmpty(v: Value) {
    v.Array? && (v.elems == [] || exists i :: 0 <= i < |v.elems| && HasEmpty(v.elems[i].value))
  }

  // ------------------------------------------------------------ the handler

  /** An array as it is rebuilt: leaves, and maps from index to value. */
  datatype Tree = Leaf(v: Value) | Branch(m: map<string, Tree>)

  datatype Saved = Saved(out: map<string, Tree>, key: string, value: Tree, index: nat, listing: bool)

  /** m_outArray, m_currentKey, m_currentValue, m_currentIndex, m_processingArray; m_level, m_memberStack. */
  datatype State = State(cur: Saved, level: nat, stack: seq<Saved>)

  /** setElement. */
  function SetElement(s: Saved): Saved {
    if s.listing then s.(out := s.out[Decimal(s.index) := s.value], index := s.index + 1)
    else s.(out := s.out[s.key := s.value])
  }

  /** A value arrives: it becomes the current one, and is installed. */
  function Install(s: Saved, t: Tree): Saved { SetElement(s.(value := t)) }

  function Fresh(): Saved { Saved(map[], [], Leaf(Undefined), 0, false) }

  predicate LooksLikeRegex(s: string) { |s| >= 2 && s[0] == '@' && s[1] == '/' && s[|s| - 1] == '/' }

  /** String: "@/", too short for what it looks like, makes the length wrap around. */
  predicate Underflows(s: string) { LooksLikeRegex(s) && |s| == 2 }

  function StringLeaf(s: string): Value
    requires !Underflows(s)
  {
    if LooksLikeRegex(s) then Regex(s[2..|s| - 1]) else StrNum(s)
  }

  /** What the reader, the length arithmetic and the cast allow. */
  predicate Allowed(s: State, e: Event) {
    match e
    case Wild => false
    case String(t) => !Underflows(t)
    case NumberText(t) => !Underflows(t)
    case EndObject => s.level > 0 && |s.stack| == s.level - 1
    case EndArray => s.level > 0 && |s.stack| == s.level - 1
    case _ => true
  }

  function Start(s: State): State {
    if s.level == 0 then s.(level := 1) else State(Fresh(), s.level + 1, s.stack + [s.cur])
  }

  function End(s: State): State
    requires s.level > 0 && |s.stack| == s.level - 1
  {
    if s.level == 1 then s.(level := 0)
    else State(Install(s.stack[|s.stack| - 1], Branch(s.cur.out)), s.level - 1, s.stack[..|s.stack| - 1])
  }

  function Step(s: State, e: Event): State
    requires Allowed(s, e)
  {
    match e
    case Null => s.(cur := Install(s.cur, Leaf(Undefined)))
    case Bool(b) => s.(cur := Install(s.cur, Leaf(Boolean(b))))
    case NumberText(t) => s.(cur := Install(s.cur, Leaf(StringLeaf(t))))
    case String(t) => s.(cur := Install(s.cur, Leaf(StringLeaf(t))))
    case Key(k) => s.(cur := s.cur.(key := k))
    case StartObject => Start(s)
    case StartArray => var t := Start(s); t.(cur := t.cur.(listing := true, index := 1))
    case EndObject => End(s)
    case EndArray => var t := End(s); if t.level == 0 then t.(cur := t.cur.(listing := false, index := 1)) else t
  }

  /** The state after a list of events; None: one of them has no defined effect. */
  ghost function Run(s: State, es: seq<Event>): Option<State>
    decreases |es|
  {
    if es == [] then Some(s)
    else if !Allowed(s, es[0]) then None
    else Run(Step(s, es[0]), es[1..])
  }

  lemma {:induction false} RunAppend(s: State, xs: seq<Event>, ys: seq<Event>)
    ensures Run(s, xs + ys) == match Run(s, xs) { case None => None case Some(t) => Run(t, ys) }
    decreases |xs|
  {
    if xs == [] {
      assert xs + ys == ys;
    } else {
      assert (xs + ys)[1..] == xs[1..] + ys;
      if Allowed(s, xs[0]) {
        RunAppend(Step(s, xs[0]), xs[1..], ys);
      }
    }
  }

  lemma RunOne(s: State, e: Event)
    ensures Run(s, [e]) == if Allowed(s, e) then Some(Step(s, e)) else None
  {
    assert [e][1..] == [];
    if Allowed(s, e) {
      hide Step;
      assert Run(Step(s, e), []) == Some(Step(s, e));
    }
  }
}
