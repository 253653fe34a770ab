/** to_json (json/json.cpp). */
module JsonWriter {
  import opened Common
  import opened JsonEvents
  import opened JsonRoundTrip
  import opened JsonText

  /** rapidjson's writer, which accepts everything. */
  class Writer {
    var events: seq<Event>

    constructor ()
      ensures events == []
    {
      events := [];
    }

    method Put(e: Event) returns (ok: bool)
      modifies this
      ensures ok && events == old(events) + [e]
    {
      events := events + [e];
      ok := true;
    }
  }

  /** qsort. */
  method Qsort(f: Foreign, a: array<Elem>)
    requires Permutes(f)
    modifies a
    ensures a[..] == f.sort(old(a[..]))
  {
    var sorted := f.sort(a[..]);
    SortMembers(f, a[..]);
    forall i | 0 <= i < a.Length {
      a[i] := sorted[i];
    }
    assert a[..] == sorted;
  }

  /** The elements sorted by index, and whether the index of each is its place. */
  method SortElems(f: Foreign, es: seq<Elem>) returns (sorted: array<Elem>, list: bool)
    requires Permutes(f)
    ensures fresh(sorted) && sorted[..] == f.sort(es) && list == IsList(f.sort(es))
  {
    sorted := new Elem[|es|](_ => Elem([], Undefined));
    var i := 0;
    while i < |es|
      invariant i <= |es| && sorted[..i] == es[..i]
    {
      sorted[i] := es[i];
      i := i + 1;
    }
    assert sorted[..] == es;
    Qsort(f, sorted);
    i := 0;
    while i < sorted.Length
      invariant i <= sorted.Length && forall j :: 0 <= j < i ==> sorted[j].key == Place(j)
      invariant sorted[..] == f.sort(es)
    {
      if sorted[i].key != Place(i) {
        assert f.sort(es)[i] == sorted[i];
        return sorted, false;
      }
      i := i + 1;
    }
    assert forall j :: 0 <= j < |f.sort(es)| ==> f.sort(es)[j] == sorted[j];
    list := true;
  }

  /** write_value: it fails exactly when an array in the value is empty. */
  method WriteValue(w: Writer, f: Foreign, v: Value, linear: bool) returns (ok: bool)
    requires Permutes(f)
    modifies w
    ensures ok <==> !HasEmpty(v)
    ensures ok ==> w.events == old(w.events) + Events(f, linear, v)
    decreases v, 3
  {
    match v {
      case Array(_) => ok := WriteArray(w, f, v, linear);
      case Number(r) =>
        if Whole(r) {
          ok := w.Put(Int64Event(r));
        } else {
          ok := w.Put(NumberText(f.fraction(r)));
        }
      case Boolean(b) => ok := w.Put(Bool(b));
      case Str(s) => ok := w.Put(String(s));
      case StrNum(s) => ok := w.Put(String(s));
      case Regex(s) =>
        var full := "@/";
        full := full + s;
        full := full + "/";
        ok := w.Put(String(full));
      case Undefined => ok := w.Put(Null);
    }
  }

  /** write_elem. */
  method WriteElem(w: Writer, f: Foreign, e: Elem, linear: bool) returns (ok: bool)
    requires Permutes(f)
    modifies w
    ensures ok <==> !HasEmpty(e.value)
    ensures ok ==> w.events == old(w.events) + ([Key(e.key)] + Events(f, linear, e.value))
    decreases e
  {
    ok := w.Put(Key(e.key));
    if ok {
      ok := WriteValue(w, f, e.value, linear);
    }
  }

  /** write_array. */
  method WriteArray(w: Writer, f: Foreign, v: Value, linear: bool) returns (ok: bool)
    requires Permutes(f) && v.Array?
    modifies w
    ensures ok <==> !HasEmpty(v)
    ensures ok ==> w.events == old(w.events) + Events(f, linear, v)
    decreases v, 2, 1
  {
    if |v.elems| == 0 {
      return false;     // flatten_array fails
    }
    var list := false;
    var sorted: array<Elem>;
    if linear {
      sorted, list := SortElems(f, v.elems);
    }
    hide HasEmpty, ListEvents, ElemEvents, IsList;
    if linear && list {
      ok := WriteList(w, f, v, linear, sorted);
    } else {
      ok := WriteObject(w, f, v, linear);
    }
  }

  method WriteList(w: Writer, f: Foreign, v: Value, linear: bool, sorted: array<Elem>) returns (ok: bool)
    requires Permutes(f) && v.Array? && v.elems != [] && sorted[..] == f.sort(v.elems)
    modifies w
    ensures ok <==> !HasEmpty(v)
    ensures ok ==> w.events == old(w.events) + ([StartArray] + ListEvents(f, linear, v, |v.elems|) + [EndArray])
    decreases v, 2, 0
  {
    hide HasEmpty, ListEvents, IsList;
    var put := w.Put(StartArray);
    ok := WriteSorted(w, f, v, linear, sorted);
    if ok {
      put := w.Put(EndArray);
      Brackets(old(w.events), StartArray, ListEvents(f, linear, v, |v.elems|), EndArray);
    }
  }

  method WriteObject(w: Writer, f: Foreign, v: Value, linear: bool) returns (ok: bool)
    requires Permutes(f) && v.Array? && v.elems != []
    modifies w
    ensures ok <==> !HasEmpty(v)
    ensures ok ==> w.events == old(w.events) + ([StartObject] + ElemEvents(f, linear, v, |v.elems|) + [EndObject])
    decreases v, 2, 0
  {
    hide HasEmpty, ElemEvents;
    var put := w.Put(StartObject);
    ok := WriteElems(w, f, v, linear);
    if ok {
      put := w.Put(EndObject);
      Brackets(old(w.events), StartObject, ElemEvents(f, linear, v, |v.elems|), EndObject);
    }
  }

  lemma Brackets(before: seq<Event>, start: Event, body: seq<Event>, end: Event)
    ensures before + [start] + body + [end] == before + ([start] + body + [end])
  {}

  method WriteSorted(w: Writer, f: Foreign, v: Value, linear: bool, sorted: array<Elem>) returns (ok: bool)
    requires Permutes(f) && v.Array? && v.elems != [] && sorted[..] == f.sort(v.elems)
    modifies w
    ensures ok <==> !HasEmpty(v)
    ensures ok ==> w.events == old(w.events) + ListEvents(f, linear, v, |v.elems|)
    decreases v, 1
  {
    SortMembers(f, v.elems);
    ghost var es := f.sort(v.elems);
    hide Events, HasEmpty;
    var i := 0;
    while i < sorted.Length
      invariant i <= sorted.Length == |es| && sorted[..] == es
      invariant w.events == old(w.events) + ListEvents(f, linear, v, i)
      invariant forall j :: 0 <= j < i ==> !HasEmpty(es[j].value)
    {
      assert sorted[i] == es[i] && es[i] in v.elems;
      ok := WriteValue(w, f, sorted[i].value, linear);
      if !ok {
        EmptyInside(v, es[i]);
        return false;
      }
      ConcatAssoc(old(w.events), ListEvents(f, linear, v, i), Events(f, linear, es[i].value));
      i := i + 1;
    }
    NoneEmpty(v, es);
    ok := true;
  }

  method WriteElems(w: Writer, f: Foreign, v: Value, linear: bool) returns (ok: bool)
    requires Permutes(f) && v.Array? && v.elems != []
    modifies w
    ensures ok <==> !HasEmpty(v)
    ensures ok ==> w.events == old(w.events) + ElemEvents(f, linear, v, |v.elems|)
    decreases v, 1
  {
    hide Events, HasEmpty;
    var i := 0;
    while i < |v.elems|
      invariant i <= |v.elems|
      invariant w.events == old(w.events) + ElemEvents(f, linear, v, i)
      invariant forall j :: 0 <= j < i ==> !HasEmpty(v.elems[j].value)
    {
      var e := v.elems[i];
      assert e in v.elems;
      ok := WriteElem(w, f, e, linear);
      if !ok {
        EmptyInside(v, e);
        return false;
      }
      ConcatAssoc(old(w.events), ElemEvents(f, linear, v, i), [Key(e.key)] + Events(f, linear, e.value));
      i := i + 1;
    }
    NoneEmpty(v, v.elems);
    ok := true;
  }

  lemma EmptyInside(v: Value, e: Elem)
    requires v.Array? && e in v.elems && HasEmpty(e.value)
    ensures HasEmpty(v)
  {
    var i :| 0 <= i < |v.elems| && v.elems[i] == e;
    assert HasEmpty(v.elems[i].value);
  }

  lemma NoneEmpty(v: Value, es: seq<Elem>)
    requires v.Array? && v.elems != [] && (forall e :: e in v.elems ==> e in es)
    requires forall j :: 0 <= j < |es| ==> !HasEmpty(es[j].value)
    ensures !HasEmpty(v)
  {
    forall i | 0 <= i < |v.elems| ensures !HasEmpty(v.elems[i].value) {
      assert v.elems[i] in es;
    }
  }

  /** to_json: the events of the text, or nothing when an array somewhere in it is empty. */
  method ToJson(f: Foreign, v: Value, linear: bool) returns (json: Option<seq<Event>>)
    requires Permutes(f) && v.Array?
    ensures json == if HasEmpty(v) then None else Some(Events(f, linear, v))
    ensures json.Some? && Sorts(f) && Unique(v) && Countable(v) ==>
      json.value == Text(f, linear, v) && (json.value[0] == StartArray <==> ListLike(linear, v.elems))
  {
    if Sorts(f) && Unique(v) && Countable(v) {
      EventsAreText(f, linear, v);
    }
    hide Text, Sorts, Unique, Countable, ListLike;
    TextStarts(f, linear, v);
    var w := new Writer();
    var ok := WriteArray(w, f, v, linear);
    assert [] + Events(f, linear, v) == Events(f, linear, v);
    json := if ok then Some(w.events) else None;
  }
}
