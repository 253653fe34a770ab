/** from_json after to_json, and when an array is written as a list. */
module JsonRoundTrip {
  import opened Common
  import opened JsonEvents

  // ------------------------------------------------------------ what a value becomes

  /** The value, up to its leaves: numbers and strings come back as STRNUM, a string that looks like a
      regex comes back as one. */
  ghost function Norm(f: Foreign, v: Value): Tree
    decreases v, if v.Array? then |v.elems| + 1 else 0
  {
    match v
    case Number(r) => Leaf(if Fits64(r) then StrNum(NumberEvent(f, r).s) else Undefined)
    case Boolean(b) => Leaf(v)
    case Str(s) => Leaf(if Underflows(s) then Undefined else StringLeaf(s))
    case StrNum(s) => Leaf(if Underflows(s) then Undefined else StringLeaf(s))
    case Regex(s) => Leaf(v)
    case Undefined => Leaf(v)
    case Array(es) => Branch(MapOf(f, v, |es|))
  }

  /** The first k elements, by key. */
  ghost function MapOf(f: Foreign, v: Value, k: nat): map<string, Tree>
    requires v.Array? && k <= |v.elems|
    decreases v, k
  {
    if k == 0 then map[]
    else MapOf(f, v, k - 1)[v.elems[k - 1].key := Norm(f, v.elems[k - 1].value)]
  }

  /** No string in the value is "@/", and no whole number is out of the range of int64_t. */
  ghost predicate Clean(v: Value) {
    match v
    case Number(r) => Fits64(r)
    case Str(s) => !Underflows(s)
    case StrNum(s) => !Underflows(s)
    case Array(es) => forall i :: 0 <= i < |es| ==> Clean(es[i].value)
    case _ => true
  }

  /** Fewer elements than an int can count, at every level. */
  ghost predicate Countable(v: Value) {
    v.Array? ==> |v.elems| < TWO31 && forall i :: 0 <= i < |v.elems| ==> Countable(v.elems[i].value)
  }

  /** The digits of a fraction never look like a regex. */
  ghost predicate Plain(f: Foreign) { Permutes(f) && forall r :: !LooksLikeRegex(f.fraction(r)) }

  // ------------------------------------------------------------ decimal digits

  lemma {:induction false} DigitsAppend(xs: string, ys: string, n: Option<nat>)
    requires forall k :: 0 <= k < |xs| ==> '0' <= xs[k] <= '9'
    ensures Digits(xs + ys, n) == Digits(ys, Digits(xs, n))
    decreases |xs|
  {
    if xs == [] {
      assert xs + ys == ys;
    } else {
      assert (xs + ys)[1..] == xs[1..] + ys;
      DigitsAppend(xs[1..], ys, Some((if n.Some? then 10 * n.value else 0) + (xs[0] as int - '0' as int)));
    }
  }

  lemma {:induction false} DigitsOfDecimal(n: nat)
    ensures Digits(Decimal(n), None) == Some(n)
    decreases n
  {
    var d := [Digit(n % 10)];
    assert d[1..] == [];
    if n >= 10 {
      DigitsOfDecimal(n / 10);
      DigitsAppend(Decimal(n / 10), d, None);
      assert Digits(d[1..], Some(n)) == Some(n);
    } else {
      assert Digits(d[1..], Some(n)) == Some(n);
    }
  }

  /** strtol reads a canonical decimal back. */
  lemma StrtolOfDecimal(n: nat)
    requires n < TWO63
    ensures Strtol(Decimal(n)) == Some(n)
  {
    DigitsOfDecimal(n);
    var s := Decimal(n);
    assert '0' <= s[0] <= '9' && SkipSpace(s) == s;
  }

  lemma DecimalInjective(a: nat, b: nat)
    requires Decimal(a) == Decimal(b)
    ensures a == b
  {
    DigitsOfDecimal(a);
    DigitsOfDecimal(b);
  }

  lemma NumberPlain(f: Foreign, r: real)
    requires Plain(f) && Fits64(r)
    ensures NumberEvent(f, r).NumberText? && !LooksLikeRegex(NumberEvent(f, r).s)
  {
    var n := DoubleToInt(r);
    assert Signed(n)[0] == '-' || '0' <= Signed(n)[0] <= '9';
  }

  // ------------------------------------------------------------ one value, one element

  lemma LeafInstalls(f: Foreign, linear: bool, v: Value, s: State)
    requires Plain(f) && !v.Array?
    ensures Run(s, Events(f, linear, v)) ==
      if Clean(v) then Some(s.(cur := Install(s.cur, Norm(f, v)))) else None
  {
    if v.Number? && Fits64(v.r) {
      NumberPlain(f, v.r);
    }
    if v.Regex? {
      var t := "@/" + v.s + "/";
      assert t[2..|t| - 1] == v.s;
    }
    RunOne(s, Events(f, linear, v)[0]);
  }

  ghost predicate CleanTo(es: seq<Elem>, k: nat)
    requires k <= |es|
  {
    forall i :: 0 <= i < k ==> Clean(es[i].value)
  }

  /** The first k sorted elements, by place. */
  ghost function ListMap(f: Foreign, es: seq<Elem>, k: nat): map<string, Tree>
    requires k <= |es|
  {
    if k == 0 then map[] else ListMap(f, es, k - 1)[Decimal(k) := Norm(f, es[k - 1].value)]
  }

  /** Between start and end, the events of an array have built this map. */
  ghost predicate Built(s: State, r: Option<State>, clean: bool, out: map<string, Tree>) {
    if clean then r.Some? && r.value.level == s.level && r.value.stack == s.stack && r.value.cur.out == out
    else r == None
  }

  lemma Ended(s: State, t: State)
    requires s.level >= 1 && |s.stack| == s.level - 1
    requires t.level == s.level + 1 && t.stack == s.stack + [s.cur]
    ensures Allowed(t, EndObject) && Step(t, EndObject) == s.(cur := Install(s.cur, Branch(t.cur.out)))
    ensures Allowed(t, EndArray) && Step(t, EndArray) == s.(cur := Install(s.cur, Branch(t.cur.out)))
  {
    assert (s.stack + [s.cur])[..|s.stack|] == s.stack;
  }

  lemma Bracketed(s: State, start: Event, body: seq<Event>, end: Event, r: Option<State>)
    requires s.level >= 1 && |s.stack| == s.level - 1
    requires (start == StartObject && end == EndObject) || (start == StartArray && end == EndArray)
    requires r == Run(Step(s, start), body)
    requires r.Some? ==> r.value.level == s.level + 1 && r.value.stack == s.stack + [s.cur]
    ensures Run(s, [start] + body + [end]) ==
      if r.Some? then Some(s.(cur := Install(s.cur, Branch(r.value.cur.out)))) else None
  {
    assert Allowed(s, start);
    if r.Some? {
      Ended(s, r.value);
    }
    hide *;
    RunOne(s, start);
    RunAppend(s, [start], body);
    assert Run(s, [start] + body) == r;
    RunAppend(s, [start] + body, [end]);
    if r.Some? {
      RunOne(r.value, end);
    }
  }

  /** On the events of a value, at any depth, the handler's level, stack, key and mode end as they began,
      and exactly one element is installed: the value. If a string in it is "@/", or a whole number out of
      range, there is no telling. */
  lemma {:induction false} ValueInstalls(f: Foreign, linear: bool, v: Value, s: State)
    requires Plain(f) && Countable(v) && s.level >= 1 && |s.stack| == s.level - 1
    ensures Run(s, Events(f, linear, v)) ==
      if Clean(v) then Some(s.(cur := Install(s.cur, Norm(f, v)))) else None
    decreases v, if v.Array? then |v.elems| + 1 else 0
  {
    if !v.Array? {
      LeafInstalls(f, linear, v, s);
    } else {
      var n := |v.elems|;
      SortMembers(f, v.elems);
      hide Run, Step, SetElement;
      assert Clean(v) <==> CleanTo(v.elems, n);
      if AsList(f, linear, v.elems) {
        var t := Step(s, StartArray);
        Started(s);
        ListInstalls(f, linear, v, t, n);
        ListIsMap(f, v);
        CleanSorted(f, v.elems);
        Bracketed(s, StartArray, ListEvents(f, linear, v, n), EndArray, Run(t, ListEvents(f, linear, v, n)));
      } else {
        var t := Step(s, StartObject);
        Started(s);
        ElemsInstall(f, linear, v, t, n);
        Bracketed(s, StartObject, ElemEvents(f, linear, v, n), EndObject, Run(t, ElemEvents(f, linear, v, n)));
      }
    }
  }

  lemma Started(s: State)
    requires s.level >= 1
    ensures var t := Step(s, StartObject);
      t.level == s.level + 1 && t.stack == s.stack + [s.cur] && !t.cur.listing && t.cur.out == map[]
    ensures var t := Step(s, StartArray);
      t.level == s.level + 1 && t.stack == s.stack + [s.cur] && t.cur.listing && t.cur.out == map[] && t.cur.index == 1
  {}

  lemma {:induction false} ElemsInstall(f: Foreign, linear: bool, v: Value, s: State, k: nat)
    requires Plain(f) && Countable(v) && v.Array? && k <= |v.elems|
    requires s.level >= 1 && |s.stack| == s.level - 1 && !s.cur.listing && s.cur.out == map[]
    ensures var r := Run(s, ElemEvents(f, linear, v, k));
      Built(s, r, CleanTo(v.elems, k), MapOf(f, v, k)) && (r.Some? ==> !r.value.cur.listing)
    decreases v, k
  {
    if k > 0 {
      var e := v.elems[k - 1];
      ElemsInstall(f, linear, v, s, k - 1);
      var before, r := ElemEvents(f, linear, v, k - 1), Run(s, ElemEvents(f, linear, v, k - 1));
      assert CleanTo(v.elems, k) <==> CleanTo(v.elems, k - 1) && Clean(e.value);
      RunAppend(s, before, [Key(e.key)] + Events(f, linear, e.value));
      if r.Some? {
        RunAppend(r.value, [Key(e.key)], Events(f, linear, e.value));
        RunOne(r.value, Key(e.key));
        var t := Step(r.value, Key(e.key));
        ValueInstalls(f, linear, e.value, t);
      }
    }
  }

  lemma {:induction false} ListInstalls(f: Foreign, linear: bool, v: Value, s: State, k: nat)
    requires Plain(f) && Countable(v) && v.Array? && k <= |v.elems| == |f.sort(v.elems)|
    requires s.level >= 1 && |s.stack| == s.level - 1 && s.cur.listing && s.cur.out == map[] && s.cur.index == 1
    ensures var r, es := Run(s, ListEvents(f, linear, v, k)), f.sort(v.elems);
      Built(s, r, CleanTo(es, k), ListMap(f, es, k)) && (r.Some? ==> r.value.cur.listing && r.value.cur.index == k + 1)
    decreases v, k
  {
    if k > 0 {
      SortMembers(f, v.elems);
      var es := f.sort(v.elems);
      var e := es[k - 1];
      assert e in v.elems;
      ListInstalls(f, linear, v, s, k - 1);
      var before, r := ListEvents(f, linear, v, k - 1), Run(s, ListEvents(f, linear, v, k - 1));
      assert CleanTo(es, k) <==> CleanTo(es, k - 1) && Clean(e.value);
      RunAppend(s, before, Events(f, linear, e.value));
      if r.Some? {
        ValueInstalls(f, linear, e.value, r.value);
      }
    }
  }

  lemma CleanSorted(f: Foreign, es: seq<Elem>)
    requires Permutes(f)
    ensures |f.sort(es)| == |es| && (CleanTo(f.sort(es), |es|) <==> CleanTo(es, |es|))
  {
    SortMembers(f, es);
    var sorted := f.sort(es);
    if CleanTo(es, |es|) {
      forall i | 0 <= i < |es| ensures Clean(sorted[i].value) { assert sorted[i] in es; }
    }
    if CleanTo(sorted, |es|) {
      forall i | 0 <= i < |es| ensures Clean(es[i].value) { assert es[i] in sorted; }
    }
  }

  // ------------------------------------------------------------ the list holds the same elements

  /** Elements with one key are one element. */
  ghost predicate OneEach(es: seq<Elem>) {
    forall a, b :: a in es && b in es && a.key == b.key ==> a == b
  }

  /** The map says what the elements say. */
  ghost predicate Maps(f: Foreign, es: seq<Elem>, m: map<string, Tree>) {
    && (forall e :: e in es ==> e.key in m && m[e.key] == Norm(f, e.value))
    && (forall k :: k in m ==> exists e :: e in es && e.key == k)
  }

  lemma MapsUnique(f: Foreign, xs: seq<Elem>, ys: seq<Elem>, m: map<string, Tree>, m': map<string, Tree>)
    requires Maps(f, xs, m) && Maps(f, ys, m') && forall e :: e in xs <==> e in ys
    ensures m == m'
  {
    hide Norm;
    forall k ensures k in m <==> k in m' {}
    forall k | k in m && k in m' ensures m[k] == m'[k] {
      var e :| e in xs && e.key == k;
    }
  }

  lemma MapsSnoc(f: Foreign, es: seq<Elem>, e: Elem, m: map<string, Tree>)
    requires Maps(f, es, m) && forall x :: x in es && x.key == e.key ==> x == e
    ensures Maps(f, es + [e], m[e.key := Norm(f, e.value)])
  {
    hide Norm;
    var m', es' := m[e.key := Norm(f, e.value)], es + [e];
    forall k | k in m' ensures exists x :: x in es' && x.key == k {
      if k == e.key {
        assert e in es';
      } else {
        var x :| x in es && x.key == k;
        assert x in es';
      }
    }
  }

  lemma OneBefore(es: seq<Elem>, k: nat)
    requires OneEach(es) && 0 < k <= |es|
    ensures forall x :: x in es[..k - 1] && x.key == es[k - 1].key ==> x == es[k - 1]
    ensures es[..k] == es[..k - 1] + [es[k - 1]]
  {
    assert es[k - 1] in es;
    forall x | x in es[..k - 1] && x.key == es[k - 1].key ensures x == es[k - 1] {
      assert x in es;
    }
  }

  lemma MapOfStep(f: Foreign, v: Value, k: nat)
    requires v.Array? && k <= |v.elems|
    ensures k == 0 ==> Maps(f, v.elems[..k], MapOf(f, v, k))
    ensures k > 0 ==> MapOf(f, v, k) == MapOf(f, v, k - 1)[v.elems[k - 1].key := Norm(f, v.elems[k - 1].value)]
  {
    hide Norm;
  }

  lemma {:induction false} MapOfMaps(f: Foreign, v: Value, k: nat)
    requires v.Array? && k <= |v.elems| && OneEach(v.elems)
    ensures Maps(f, v.elems[..k], MapOf(f, v, k))
    decreases k
  {
    hide *;
    MapOfStep(f, v, k);
    if k > 0 {
      MapOfMaps(f, v, k - 1);
      OneBefore(v.elems, k);
      MapsSnoc(f, v.elems[..k - 1], v.elems[k - 1], MapOf(f, v, k - 1));
    }
  }

  lemma {:induction false} ListMapMaps(f: Foreign, es: seq<Elem>, k: nat)
    requires k <= |es| < TWO31 && IsList(es)
    ensures Maps(f, es[..k], ListMap(f, es, k))
    decreases k
  {
    if k > 0 {
      ListMapMaps(f, es, k - 1);
      assert ListMap(f, es, k) == ListMap(f, es, k - 1)[Decimal(k) := Norm(f, es[k - 1].value)];
      hide *;
      ListKeys(es);
      ListOneEach(es);
      OneBefore(es, k);
      MapsSnoc(f, es[..k - 1], es[k - 1], ListMap(f, es, k - 1));
    }
  }

  lemma PlaceIs(i: nat)
    requires i + 1 < TWO31
    ensures Place(i) == Decimal(i + 1)
  {
    ToIntSmall(i + 1);
    hide ToInt, Decimal;
  }

  lemma ToIntSmall(n: int)
    requires -TWO31 <= n < TWO31
    ensures ToInt(n) == n
  {}

  lemma ListKeys(es: seq<Elem>)
    requires |es| < TWO31
    ensures IsList(es) <==> forall i :: 0 <= i < |es| ==> es[i].key == Decimal(i + 1)
  {
    forall i | 0 <= i < |es| ensures Place(i) == Decimal(i + 1) {
      PlaceIs(i);
    }
    hide Place;
  }

  lemma ListOneEach(es: seq<Elem>)
    requires |es| < TWO31 && IsList(es)
    ensures OneEach(es)
  {
    ListKeys(es);
    forall a, b | a in es && b in es && a.key == b.key ensures a == b {
      var i :| 0 <= i < |es| && es[i] == a;
      var j :| 0 <= j < |es| && es[j] == b;
      DecimalInjective(i + 1, j + 1);
    }
  }

  lemma ListIsMap(f: Foreign, v: Value)
    requires Permutes(f) && v.Array? && |v.elems| < TWO31 && IsList(f.sort(v.elems))
    ensures |f.sort(v.elems)| == |v.elems| && ListMap(f, f.sort(v.elems), |v.elems|) == MapOf(f, v, |v.elems|)
  {
    var es, n := f.sort(v.elems), |v.elems|;
    SortMembers(f, v.elems);
    ListOneEach(es);
    ListMapMaps(f, es, n);
    MapOfMaps(f, v, n);
    assert es[..n] == es && v.elems[..n] == v.elems;
    MapsUnique(f, es, v.elems, ListMap(f, es, n), MapOf(f, v, n));
  }

  // ------------------------------------------------------------ the whole round trip

  /** On all the events of a value, whichever way it is written, the handler rebuilds it, up to its leaves,
      and ends at level 0 with nothing stacked; of these, exactly the strings "@/" and the whole numbers
      that no int64_t holds are in the way. */
  lemma EventsRebuild(f: Foreign, linear: bool, v: Value, value: Tree)
    requires Plain(f) && Countable(v) && v.Array?
    ensures var r := Run(State(Saved(map[], [], value, 0, false), 0, []), Events(f, linear, v));
      && (r.Some? <==> Clean(v))
      && (r.Some? ==>
            Branch(r.value.cur.out) == Norm(f, v) && r.value.level == 0 && r.value.stack == [] && !r.value.cur.listing)
  {
    var s, n := State(Saved(map[], [], value, 0, false), 0, []), |v.elems|;
    SortMembers(f, v.elems);
    assert Clean(v) <==> CleanTo(v.elems, n);
    var start, end := if AsList(f, linear, v.elems) then StartArray else StartObject,
                      if AsList(f, linear, v.elems) then EndArray else EndObject;
    var body := if AsList(f, linear, v.elems) then ListEvents(f, linear, v, n) else ElemEvents(f, linear, v, n);
    var t := Step(s, start);
    if AsList(f, linear, v.elems) {
      ListInstalls(f, linear, v, t, n);
      ListIsMap(f, v);
      CleanSorted(f, v.elems);
    } else {
      ElemsInstall(f, linear, v, t, n);
    }
    var r := Run(t, body);
    assert Events(f, linear, v) == [start] + body + [end] && Allowed(s, start);
    assert r.Some? ==> r.value.level == 1 && r.value.stack == [] && Branch(r.value.cur.out) == Norm(f, v);
    assert start == StartObject && r.Some? ==> !r.value.cur.listing;
    hide *;
    RunOne(s, start);
    RunAppend(s, [start], body);
    RunAppend(s, [start] + body, [end]);
    if r.Some? {
      EndsAtTop(r.value, end);
      RunOne(r.value, end);
    }
  }

  lemma EndsAtTop(s: State, end: Event)
    requires s.level == 1 && s.stack == [] && (end == EndArray || (end == EndObject && !s.cur.listing))
    ensures Allowed(s, end)
    ensures var t := Step(s, end); t.level == 0 && t.stack == [] && t.cur.out == s.cur.out && !t.cur.listing
  {}

  /** For an awk array, where keys are unique, the rebuilt map has the same keys, each with its value. */
  lemma ArrayNorm(f: Foreign, v: Value)
    requires v.Array? && UniqueKeys(v.elems)
    ensures Norm(f, v).Branch? && Maps(f, v.elems, Norm(f, v).m)
  {
    UniqueOneEach(v.elems);
    MapOfMaps(f, v, |v.elems|);
    assert v.elems[..|v.elems|] == v.elems;
  }

  // ------------------------------------------------------------ when an array is written as a list

  ghost predicate UniqueKeys(es: seq<Elem>) {
    forall i, j :: 0 <= i < j < |es| ==> es[i].key != es[j].key
  }

  lemma UniqueOneEach(es: seq<Elem>)
    requires UniqueKeys(es)
    ensures OneEach(es)
  {
    forall a, b | a in es && b in es && a.key == b.key ensures a == b {
      var i :| 0 <= i < |es| && es[i] == a;
      var j :| 0 <= j < |es| && es[j] == b;
    }
  }

  lemma {:induction false} AtMostOnce(es: seq<Elem>, e: Elem)
    requires UniqueKeys(es)
    ensures multiset(es)[e] <= 1
    decreases |es|
  {
    if es != [] {
      var n := |es| - 1;
      assert es == es[..n] + [es[n]];
      AtMostOnce(es[..n], e);
      assert es[n] !in es[..n];
    }
  }

  lemma AtLeastTwice(es: seq<Elem>, i: nat, j: nat)
    requires i < j < |es| && es[i] == es[j]
    ensures multiset(es)[es[i]] >= 2
  {
    assert es == es[..j] + es[j..];
    assert es[..j][i] == es[i] && es[j..][0] == es[j];
    assert es[i] in multiset(es[..j]) && es[i] in multiset(es[j..]);
  }

  lemma PermutedUnique(xs: seq<Elem>, es: seq<Elem>)
    requires UniqueKeys(es) && multiset(xs) == multiset(es)
    ensures UniqueKeys(xs)
  {
    UniqueOneEach(es);
    forall i, j | 0 <= i < j < |xs| ensures xs[i].key != xs[j].key {
      if xs[i].key == xs[j].key {
        assert xs[i] in multiset(xs) && xs[j] in multiset(xs);
        assert xs[i] in es && xs[j] in es;
        AtLeastTwice(xs, i, j);
        AtMostOnce(es, xs[i]);
      }
    }
  }

  ghost function KeysOf(es: seq<Elem>): set<string> { set e | e in es :: e.key }

  /** {"1", ..., "n"}, in canonical decimal. */
  ghost function Numerals(n: nat): set<string> { set i: nat | 1 <= i <= n :: Decimal(i) }

  /** The key is the numeral of a number from 1 to n. */
  ghost predicate Numbered(e: Elem, n: nat) {
    var k := Strtol(e.key);
    k.Some? && 1 <= k.value <= n && e.key == Decimal(k.value)
  }

  lemma NumberedIff(e: Elem, n: nat)
    requires n < TWO31
    ensures e.key in Numerals(n) <==> Numbered(e, n)
  {
    if e.key in Numerals(n) {
      var i: nat :| 1 <= i <= n && Decimal(i) == e.key;
      StrtolOfDecimal(i);
    }
  }

  /** Numerals are compared as numbers. */
  lemma ComparesNumbers(a: Elem, b: Elem, n: nat)
    requires n < TWO31 && Numbered(a, n) && Numbered(b, n)
    ensures Compare(a, b) == Strtol(a.key).value - Strtol(b.key).value
  {
    hide Strtol, Decimal;
    ToIntSmall(Strtol(a.key).value - Strtol(b.key).value);
    hide ToInt;
  }

  /** So qsort can rely on the comparison. */
  lemma NumeralsConsistent(es: seq<Elem>, n: nat)
    requires n < TWO31 && forall e :: e in es ==> Numbered(e, n)
    ensures Consistent(es)
  {
    hide Compare, Strtol, Decimal;
    forall a, b | a in es && b in es ensures Compare(a, b) <= 0 || Compare(b, a) <= 0 {
      ComparesNumbers(a, b, n);
      ComparesNumbers(b, a, n);
    }
    forall a, b, c | a in es && b in es && c in es && Compare(a, b) <= 0 && Compare(b, c) <= 0 ensures Compare(a, c) <= 0 {
      ComparesNumbers(a, b, n);
      ComparesNumbers(b, c, n);
      ComparesNumbers(a, c, n);
    }
  }

  /** n different numbers from 1 to n, in order, are 1, ..., n. */
  lemma {:induction false} InOrder(xs: seq<int>, i: nat)
    requires i < |xs| && (forall k :: 0 <= k < |xs| ==> 1 <= xs[k] <= |xs|)
    requires forall j, k :: 0 <= j < k < |xs| ==> xs[j] < xs[k]
    ensures xs[i] == i + 1
  {
    AtLeast(xs, i);
    AtMost(xs, i);
  }

  lemma {:induction false} AtLeast(xs: seq<int>, i: nat)
    requires i < |xs| && (forall k :: 0 <= k < |xs| ==> 1 <= xs[k] <= |xs|)
    requires forall j, k :: 0 <= j < k < |xs| ==> xs[j] < xs[k]
    ensures xs[i] >= i + 1
  {
    if i > 0 {
      AtLeast(xs, i - 1);
    }
  }

  lemma {:induction false} AtMost(xs: seq<int>, i: nat)
    requires i < |xs| && (forall k :: 0 <= k < |xs| ==> 1 <= xs[k] <= |xs|)
    requires forall j, k :: 0 <= j < k < |xs| ==> xs[j] < xs[k]
    ensures xs[i] <= i + 1
    decreases |xs| - i
  {
    if i < |xs| - 1 {
      AtMost(xs, i + 1);
    }
  }

  /** Whatever order the elements are left in, a list has the keys "1" to "n". */
  lemma ListHasNumerals(f: Foreign, es: seq<Elem>)
    requires Permutes(f) && |es| < TWO31 && IsList(f.sort(es))
    ensures KeysOf(es) == Numerals(|es|)
  {
    var sorted, n := f.sort(es), |es|;
    SortMembers(f, es);
    ListKeys(sorted);
    hide Decimal, IsList;
    forall k ensures k in KeysOf(es) <==> k in Numerals(n) {
      if k in KeysOf(es) {
        var e :| e in es && e.key == k;
        assert e in sorted;
        var i :| 0 <= i < n && sorted[i] == e;
        assert Decimal(i + 1) in Numerals(n);
      }
      if k in Numerals(n) {
        var i: nat :| 1 <= i <= n && Decimal(i) == k;
        assert sorted[i - 1] in es && sorted[i - 1].key == k;
      }
    }
  }

  /** With do_linear_arrays, an array is written as a list, in numeric order, exactly when its keys are
      "1" to "n". */
  lemma ListIff(f: Foreign, es: seq<Elem>)
    requires Sorts(f) && UniqueKeys(es) && |es| < TWO31
    ensures AsList(f, true, es) <==> KeysOf(es) == Numerals(|es|)
  {
    if AsList(f, true, es) {
      ListHasNumerals(f, es);
    } else if KeysOf(es) == Numerals(|es|) {
      NumeralsMakeList(f, es);
    }
  }

  lemma NumeralsMakeList(f: Foreign, es: seq<Elem>)
    requires Sorts(f) && UniqueKeys(es) && |es| < TWO31 && KeysOf(es) == Numerals(|es|)
    ensures IsList(f.sort(es))
  {
    var sorted, n := f.sort(es), |es|;
    SortMembers(f, es);
    PermutedUnique(sorted, es);
    hide Compare, Strtol, Decimal, Place, Numerals;
    forall e | e in es ensures Numbered(e, n) {
      assert e.key in KeysOf(es);
      NumberedIff(e, n);
    }
    NumeralsConsistent(es, n);
    assert Sorted(sorted);
    forall i | 0 <= i < n ensures Numbered(sorted[i], n) {
      assert sorted[i] in es;
    }
    SortedNumerals(sorted);
  }

  lemma SortedNumerals(es: seq<Elem>)
    requires |es| < TWO31 && UniqueKeys(es) && Sorted(es) && forall i :: 0 <= i < |es| ==> Numbered(es[i], |es|)
    ensures IsList(es)
  {
    hide Compare, Strtol, Decimal, Place;
    var xs := seq(|es|, i requires 0 <= i < |es| => Strtol(es[i].key).value);
    forall j, k | 0 <= j < k < |xs| ensures xs[j] < xs[k] {
      ComparesNumbers(es[j], es[k], |es|);
    }
    forall i | 0 <= i < |es| ensures es[i].key == Place(i) {
      InOrder(xs, i);
      PlaceIs(i);
    }
  }
}
