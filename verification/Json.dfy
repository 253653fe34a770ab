/** to_json, then from_json on the text it returned (json/json.cpp). */
module Json {
  import opened Common
  import opened JsonEvents
  import opened JsonRoundTrip
  import opened JsonValues
  import JsonHandler
  import JsonWriter

  /** What comes back of an array: None when to_json returns nothing, or when what one of the two does is
      not defined. The array comes back, with the value of every leaf, exactly when no array in it is empty,
      no string in it is "@/", and every whole number in it is one that an int64_t holds. */
  method ThereAndBack(f: Foreign, v: Value, linear: bool, garbage: Tree) returns (back: Option<map<string, Tree>>)
    requires Plain(f) && Reads(f) && Awk(v) && Countable(v) && v.Array?
    ensures back.Some? <==> Clean(v) && !HasEmpty(v)
    ensures back.Some? ==> Same(f, v, Branch(back.value))
  {
    hide Run, Events, Norm, Clean, HasEmpty, Same, Reads, Awk;
    var json := JsonWriter.ToJson(f, v, linear);
    if json.None? {
      return None;
    }
    EventsRebuild(f, linear, v, garbage);
    back := JsonHandler.FromJson(json.value, garbage);
    if Clean(v) {
      NormSame(f, v);
    }
  }

  /** An array with an empty array in it is not written, although nothing else in it is in the way. */
  lemma EmptyInside()
    ensures var v := Array([Elem("a", Array([]))]);
      Awk(v) && Clean(v) && Countable(v) && HasEmpty(v)
  {
    var v := Array([Elem("a", Array([]))]);
    assert HasEmpty(v.elems[0].value);
  }

  /** The string "@/" is written, and breaks the reading. */
  lemma AtSlash(f: Foreign, linear: bool, garbage: Tree)
    requires Plain(f)
    ensures var v := Array([Elem("a", Str("@/"))]);
      && Awk(v) && Countable(v) && !HasEmpty(v)
      && Run(State(Saved(map[], [], garbage, 0, false), 0, []), Events(f, linear, v)).None?
  {
    var v := Array([Elem("a", Str("@/"))]);
    assert !Clean(v.elems[0].value);
    EventsRebuild(f, linear, v, garbage);
  }

  /** 2^64 is a double; its cast is not defined, and no text that an int64_t can print stands for it. */
  lemma TooWide(f: Foreign, linear: bool, garbage: Tree)
    requires Plain(f)
    ensures var v := Array([Elem("a", Number(18446744073709551616.0))]);
      && Awk(v) && Countable(v) && !HasEmpty(v)
      && Run(State(Saved(map[], [], garbage, 0, false), 0, []), Events(f, linear, v)).None?
    ensures forall n :: -TWO63 <= n < TWO63 ==> NumberOf(f, Signed(n)) != 18446744073709551616.0
  {
    var r := 18446744073709551616.0;
    var v := Array([Elem("a", Number(r))]);
    assert Pow2(4) == 16.0;
    assert Pow2(8) == 256.0;
    assert Pow2(12) == 4096.0;
    assert r == Scaled(0x10_0000_0000_0000, 12);
    assert Awk(v.elems[0].value);
    assert !Clean(v.elems[0].value);
    HasTextIff(f, r);
    EventsRebuild(f, linear, v, garbage);
  }
}
