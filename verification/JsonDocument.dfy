/** from_json on any JSON text, whoever wrote it: what the array holds afterwards (json/awkjsonhandler.cpp). */
module JsonDocument {
  import opened Common
  import opened JsonEvents
  import opened JsonRoundTrip

  /** A JSON text, with its numbers as they are spelled. */
  datatype Json =
    | NullText | BoolText(b: bool) | NumText(s: string) | StringText(s: string)
    | List(items: seq<Json>) | Object(members: seq<(string, Json)>)

  function EventsOf(d: Json): seq<Event>
    decreases d, if d.List? then |d.items| + 1 else if d.Object? then |d.members| + 1 else 0
  {
    match d
    case NullText => [Null]
    case BoolText(b) => [Bool(b)]
    case NumText(s) => [NumberText(s)]
    case StringText(s) => [String(s)]
    case List(items) => [StartArray] + ItemEvents(d, |items|) + [EndArray]
    case Object(members) => [StartObject] + MemberEvents(d, |members|) + [EndObject]
  }

  function ItemEvents(d: Json, k: nat): seq<Event>
    requires d.List? && k <= |d.items|
    decreases d, k
  {
    if k == 0 then [] else ItemEvents(d, k - 1) + EventsOf(d.items[k - 1])
  }

  function MemberEvents(d: Json, k: nat): seq<Event>
    requires d.Object? && k <= |d.members|
    decreases d, k
  {
    if k == 0 then []
    else MemberEvents(d, k - 1) + ([Key(d.members[k - 1].0)] + EventsOf(d.members[k - 1].1))
  }

  /** The awk value: a list is an array from "1" on, an object an array by its keys, of which the last one counts;
      a string or a number is a STRNUM, or a regex without its marks. */
  function TreeOf(d: Json): Tree
    requires Sound(d)
    decreases d, if d.List? then |d.items| + 1 else if d.Object? then |d.members| + 1 else 0
  {
    match d
    case NullText => Leaf(Undefined)
    case BoolText(b) => Leaf(Boolean(b))
    case NumText(s) => Leaf(StringLeaf(s))
    case StringText(s) => Leaf(StringLeaf(s))
    case List(items) => Branch(ItemMap(d, |items|))
    case Object(members) => Branch(MemberMap(d, |members|))
  }

  function ItemMap(d: Json, k: nat): map<string, Tree>
    requires d.List? && k <= |d.items| && Sound(d)
    decreases d, k
  {
    if k == 0 then map[] else ItemMap(d, k - 1)[Decimal(k) := TreeOf(d.items[k - 1])]
  }

  function MemberMap(d: Json, k: nat): map<string, Tree>
    requires d.Object? && k <= |d.members| && Sound(d)
    decreases d, k
  {
    if k == 0 then map[] else MemberMap(d, k - 1)[d.members[k - 1].0 := TreeOf(d.members[k - 1].1)]
  }

  /** No string in it is "@/". */
  predicate Sound(d: Json) {
    match d
    case NumText(s) => !Underflows(s)
    case StringText(s) => !Underflows(s)
    case List(items) => forall i :: 0 <= i < |items| ==> Sound(items[i])
    case Object(members) => forall i :: 0 <= i < |members| ==> Sound(members[i].1)
    case _ => true
  }

  // ------------------------------------------------------------ one text inside another

  /** The handler after some events, if they have a defined effect. */
  ghost predicate Reaches(s: State, es: seq<Event>, t: State) { Run(s, es) == Some(t) }

  lemma {:induction false} JsonInstalls(d: Json, s: State)
    requires Sound(d) && s.level >= 1 && |s.stack| == s.level - 1
    ensures Reaches(s, EventsOf(d), s.(cur := Install(s.cur, TreeOf(d))))
    decreases d, if d.List? then |d.items| + 1 else if d.Object? then |d.members| + 1 else 0
  {
    match d
    case List(items) =>
      var t := Step(s, StartArray);
      Started(s);
      ItemsInstall(d, t, |items|);
      hide Run, Step;
      Bracketed(s, StartArray, ItemEvents(d, |items|), EndArray, Run(t, ItemEvents(d, |items|)));
    case Object(members) =>
      var t := Step(s, StartObject);
      Started(s);
      MembersInstall(d, t, |members|);
      hide Run, Step;
      Bracketed(s, StartObject, MemberEvents(d, |members|), EndObject, Run(t, MemberEvents(d, |members|)));
    case _ => RunOne(s, EventsOf(d)[0]);
  }

  lemma {:induction false} ItemsInstall(d: Json, s: State, k: nat)
    requires d.List? && k <= |d.items| && Sound(d) && s.level >= 1 && |s.stack| == s.level - 1
    requires s.cur.listing && s.cur.index == 1 && s.cur.out == map[]
    ensures var r := Run(s, ItemEvents(d, k));
      && r.Some? && r.value.level == s.level && r.value.stack == s.stack
      && r.value.cur.out == ItemMap(d, k) && r.value.cur.listing && r.value.cur.index == k + 1
    decreases d, k
  {
    if k > 0 {
      ItemsInstall(d, s, k - 1);
      RunAppend(s, ItemEvents(d, k - 1), EventsOf(d.items[k - 1]));
      JsonInstalls(d.items[k - 1], Run(s, ItemEvents(d, k - 1)).value);
    }
  }

  lemma {:induction false} MembersInstall(d: Json, s: State, k: nat)
    requires d.Object? && k <= |d.members| && Sound(d) && s.level >= 1 && |s.stack| == s.level - 1
    requires !s.cur.listing && s.cur.out == map[]
    ensures var r := Run(s, MemberEvents(d, k));
      && r.Some? && r.value.level == s.level && r.value.stack == s.stack
      && r.value.cur.out == MemberMap(d, k) && !r.value.cur.listing
    decreases d, k
  {
    if k > 0 {
      MembersInstall(d, s, k - 1);
      var (key, value) := d.members[k - 1];
      var r := Run(s, MemberEvents(d, k - 1)).value;
      var t := Step(r, Key(key));
      RunAppend(s, MemberEvents(d, k - 1), [Key(key)] + EventsOf(value));
      RunAppend(r, [Key(key)], EventsOf(value));
      RunOne(r, Key(key));
      JsonInstalls(value, t);
    }
  }

  // ------------------------------------------------------------ the whole text

  function Initial(garbage: Tree): State { State(Saved(map[], [], garbage, 0, false), 0, []) }

  /** A text that is an array or an object: the array that was handed over holds what it says; nothing is left open. */
  lemma WholeText(d: Json, garbage: Tree)
    requires Sound(d) && (d.List? || d.Object?)
    ensures var r := Run(Initial(garbage), EventsOf(d));
      r.Some? && Branch(r.value.cur.out) == TreeOf(d) && r.value.level == 0 && r.value.stack == []
  {
    var s := Initial(garbage);
    var start, end := if d.List? then StartArray else StartObject, if d.List? then EndArray else EndObject;
    var body := if d.List? then ItemEvents(d, |d.items|) else MemberEvents(d, |d.members|);
    var t := Step(s, start);
    if d.List? {
      ItemsInstall(d, t, |d.items|);
    } else {
      MembersInstall(d, t, |d.members|);
    }
    var r := Run(t, body).value;
    assert EventsOf(d) == [start] + body + [end];
    hide Run, Step, EventsOf, ItemEvents, MemberEvents, ItemMap, MemberMap;
    RunOne(s, start);
    RunAppend(s, [start], body);
    RunAppend(s, [start] + body, [end]);
    RunOne(r, end);
    EndsTop(r, end);
  }

  lemma EndsTop(r: State, end: Event)
    requires r.level == 1 && r.stack == [] && (end == EndArray || end == EndObject)
    ensures Allowed(r, end)
    ensures var q := Step(r, end); q.level == 0 && q.stack == [] && q.cur.out == r.cur.out
  {}

  /** A text that is neither leaves its one value under the empty index. */
  lemma BareText(d: Json, garbage: Tree)
    requires Sound(d) && !d.List? && !d.Object?
    ensures var r := Run(Initial(garbage), EventsOf(d)); r.Some? && r.value.cur.out == map["" := TreeOf(d)]
  {
    RunOne(Initial(garbage), EventsOf(d)[0]);
  }
}
