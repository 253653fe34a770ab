/** What to_json writes, without its sort: an array whose indices are "1" to "n" is a list of the values at those
    indices, any other an object of its elements (json/json.cpp). */
module JsonText {
  import opened Common
  import opened JsonEvents
  import opened JsonRoundTrip

  /** Where the element with this index is. */
  function Lookup(es: seq<Elem>, key: string): (i: Option<nat>)
    ensures i.Some? ==> i.value < |es| && es[i.value].key == key
    ensures i.None? ==> forall k :: 0 <= k < |es| ==> es[k].key != key
  {
    if es == [] then None
    else if es[|es| - 1].key == key then Some(|es| - 1)
    else Lookup(es[..|es| - 1], key)
  }

  /** The array has the indices of a list, and lists are asked for. */
  ghost predicate ListLike(linear: bool, es: seq<Elem>) { linear && KeysOf(es) == Numerals(|es|) }

  ghost function Text(f: Foreign, linear: bool, v: Value): seq<Event>
    requires Permutes(f)
    decreases v, if v.Array? then |v.elems| + 1 else 0
  {
    if !v.Array? then Events(f, linear, v)
    else if ListLike(linear, v.elems) then [StartArray] + ValuesText(f, linear, v, |v.elems|) + [EndArray]
    else [StartObject] + MembersText(f, linear, v, |v.elems|) + [EndObject]
  }

  /** The values at the indices "1" to "k". */
  ghost function ValuesText(f: Foreign, linear: bool, v: Value, k: nat): seq<Event>
    requires Permutes(f) && v.Array?
    decreases v, k
  {
    if k == 0 then []
    else
      var at := Lookup(v.elems, Decimal(k));
      ValuesText(f, linear, v, k - 1) + (if at.Some? then Text(f, linear, v.elems[at.value].value) else [])
  }

  /** The first k elements, each as its index and its value. */
  ghost function MembersText(f: Foreign, linear: bool, v: Value, k: nat): seq<Event>
    requires Permutes(f) && v.Array? && k <= |v.elems|
    decreases v, k
  {
    if k == 0 then []
    else MembersText(f, linear, v, k - 1) + ([Key(v.elems[k - 1].key)] + Text(f, linear, v.elems[k - 1].value))
  }

  /** In every array the indices are different. */
  ghost predicate Unique(v: Value) {
    v.Array? ==> UniqueKeys(v.elems) && forall i :: 0 <= i < |v.elems| ==> Unique(v.elems[i].value)
  }

  lemma LookupUnique(es: seq<Elem>, i: nat)
    requires UniqueKeys(es) && i < |es|
    ensures Lookup(es, es[i].key) == Some(i)
  {
    hide Lookup;
    assert forall k :: 0 <= k < |es| && k != i ==> es[k].key != es[i].key;
    assert es[i].key == es[i].key && Lookup(es, es[i].key).Some?;
  }

  /** What is written with the sort is this text, at every depth. */
  lemma {:induction false} EventsAreText(f: Foreign, linear: bool, v: Value)
    requires Sorts(f) && Unique(v) && Countable(v)
    ensures Events(f, linear, v) == Text(f, linear, v)
    decreases v, if v.Array? then |v.elems| + 1 else 0
  {
    if v.Array? {
      ListIff(f, v.elems);
      ListNeedsLinear(f, linear, v.elems);
      hide UniqueKeys, Sorts, KeysOf, Numerals, IsList;
      if ListLike(linear, v.elems) {
        ValuesAreText(f, linear, v, |v.elems|);
      } else {
        MembersAreText(f, linear, v, |v.elems|);
      }
    }
  }

  lemma TextStarts(f: Foreign, linear: bool, v: Value)
    requires Permutes(f) && v.Array?
    ensures Text(f, linear, v) != [] && (Text(f, linear, v)[0] == StartArray <==> ListLike(linear, v.elems))
  {
    hide ListLike, ValuesText, MembersText;
  }

  lemma ListNeedsLinear(f: Foreign, linear: bool, es: seq<Elem>)
    ensures AsList(f, linear, es) <==> linear && AsList(f, true, es)
  {}

  lemma {:induction false} ValuesAreText(f: Foreign, linear: bool, v: Value, k: nat)
    requires Sorts(f) && v.Array? && Unique(v) && Countable(v) && AsList(f, linear, v.elems) && k <= |v.elems|
    ensures ListEvents(f, linear, v, k) == ValuesText(f, linear, v, k)
    decreases v, k
  {
    hide *;
    ListFacts(f, linear, v);
    if k == 0 {
      NoValue(f, linear, v);
    } else {
      var i := SortedAt(f, v.elems, k);
      ValuesAreText(f, linear, v, k - 1);
      EventsAreText(f, linear, v.elems[i].value);
      NextValue(f, linear, v, k, i);
    }
  }

  lemma ListFacts(f: Foreign, linear: bool, v: Value)
    requires Sorts(f) && v.Array? && Unique(v) && Countable(v) && AsList(f, linear, v.elems)
    ensures Permutes(f) && UniqueKeys(v.elems) && IsList(f.sort(v.elems)) && |f.sort(v.elems)| == |v.elems| < TWO31
    ensures forall i :: 0 <= i < |v.elems| ==> Unique(v.elems[i].value) && Countable(v.elems[i].value)
  {
    SortMembers(f, v.elems);
    hide UniqueKeys, IsList;
  }

  lemma NoValue(f: Foreign, linear: bool, v: Value)
    requires Permutes(f) && v.Array?
    ensures ListEvents(f, linear, v, 0) == ValuesText(f, linear, v, 0)
  {
    hide Events, Text, Lookup;
  }

  lemma NextValue(f: Foreign, linear: bool, v: Value, k: nat, i: nat)
    requires Permutes(f) && v.Array? && 0 < k <= |v.elems| == |f.sort(v.elems)| && i < |v.elems|
    requires v.elems[i] == f.sort(v.elems)[k - 1] && Lookup(v.elems, Decimal(k)) == Some(i)
    ensures ListEvents(f, linear, v, k) == ListEvents(f, linear, v, k - 1) + Events(f, linear, v.elems[i].value)
    ensures ValuesText(f, linear, v, k) == ValuesText(f, linear, v, k - 1) + Text(f, linear, v.elems[i].value)
  {
    hide Events, Text, Lookup, Decimal;
  }

  /** The k-th element of a sorted list is the one with the index k. */
  lemma SortedAt(f: Foreign, es: seq<Elem>, k: nat) returns (i: nat)
    requires Permutes(f) && UniqueKeys(es) && IsList(f.sort(es)) && 0 < k <= |es| < TWO31
    ensures |f.sort(es)| == |es| && i < |es| && es[i] == f.sort(es)[k - 1] && Lookup(es, Decimal(k)) == Some(i)
  {
    SortMembers(f, es);
    var e := f.sort(es)[k - 1];
    assert e in es;
    i :| 0 <= i < |es| && es[i] == e;
    SortedKey(f, es, k - 1);
    LookupUnique(es, i);
  }

  lemma SortedKey(f: Foreign, es: seq<Elem>, i: nat)
    requires Permutes(f) && IsList(f.sort(es)) && |es| < TWO31 && i < |f.sort(es)|
    ensures f.sort(es)[i].key == Decimal(i + 1)
  {
    SortMembers(f, es);
    PlaceIs(i);
  }

  lemma {:induction false} MembersAreText(f: Foreign, linear: bool, v: Value, k: nat)
    requires Sorts(f) && v.Array? && Unique(v) && Countable(v) && k <= |v.elems|
    ensures ElemEvents(f, linear, v, k) == MembersText(f, linear, v, k)
    decreases v, k
  {
    if k > 0 {
      MembersAreText(f, linear, v, k - 1);
      EventsAreText(f, linear, v.elems[k - 1].value);
    }
  }
}
