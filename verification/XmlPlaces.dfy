/** Rows and columns across documents: each parser counts from the start of its own document, and the puller
    adds where that document began (set_row_col and prev_last_row in xml/xml_puller.c). */
module XmlPlaces {
  import opened Common
  import opened XmlEvents
  import opened XmlRun
  import P = Puller

  /** What a byte does to a place in a text: it ends the line, it takes a column, or it is one more byte of the
      character before it. */
  datatype Move = NextLine | NextColumn | Stay

  type Moves = byte -> Move

  const FIRST: Origin := Origin(1, 1)

  function After(moves: Moves, o: Origin, b: byte): Origin {
    match moves(b)
    case NextLine => Origin(o.row + 1, 1)
    case NextColumn => Origin(o.row, o.col + 1)
    case Stay => o
  }

  /** Row and column, both from 1, behind a text that starts here. */
  function Where(moves: Moves, o: Origin, text: bytes): (w: Origin)
    ensures w.row >= o.row
  {
    if text == [] then o else After(moves, Where(moves, o, text[..|text| - 1]), text[|text| - 1])
  }

  lemma {:induction false} WhereAppend(moves: Moves, o: Origin, a: bytes, b: bytes)
    ensures Where(moves, o, a + b) == Where(moves, Where(moves, o, a), b)
    decreases |b|
  {
    if b == [] {
      assert a + b == a;
    } else {
      assert (a + b)[..|a + b| - 1] == a + b[..|b| - 1];
      WhereAppend(moves, o, a, b[..|b| - 1]);
    }
  }

  /** This is the place of a byte of the document, as its parser counts. */
  ghost predicate PlacedAt(moves: Moves, doc: bytes, at: Place) {
    0 <= at.index <= |doc| && Origin(at.line, at.column + 1) == Where(moves, FIRST, doc[..at.index])
  }

  /** Assumed of Expat, for an encoding whose bytes tell what they do: lines and columns are those of the byte
      at which an event starts. */
  ghost predicate Placed(x: Expat, moves: Moves) {
    forall d, fed, final :: var o := Parse(x, d, fed, final);
      && PlacedAt(moves, Flat(fed), o.place)
      && forall i :: 0 <= i < |o.calls| ==> PlacedAt(moves, Flat(fed), o.calls[i].at)
  }

  // ------------------------------------------------------------ one place

  /** The place of the same byte, counted from the start of the file. */
  ghost function InFile(moves: Moves, stream: bytes, start: int, at: Place): Place {
    if 0 <= start && 0 <= at.index && start + at.index <= |stream| then
      var w := Where(moves, FIRST, stream[..start + at.index]);
      at.(line := w.row, column := w.col - 1)
    else at
  }

  /** set_row_col adds the two counts. */
  lemma {:induction false} RowColAdds(moves: Moves, o: Origin, text: bytes, at: Place)
    requires Origin(at.line, at.column + 1) == Where(moves, FIRST, text)
    ensures SetRowCol(o, at) == Where(moves, o, text)
    decreases |text|
  {
    if text != [] {
      var w := Where(moves, FIRST, text[..|text| - 1]);
      RowColAdds(moves, o, text[..|text| - 1], Place(w.row, w.col - 1, 0, 0));
    }
  }

  /** What the puller makes of a place in the document is the place in the file. */
  lemma PlaceInFile(moves: Moves, stream: bytes, start: int, doc: bytes, at: Place)
    requires 0 <= start && start + |doc| <= |stream| && stream[start..start + |doc|] == doc && PlacedAt(moves, doc, at)
    ensures var there := InFile(moves, stream, start, at);
      && SetRowCol(Where(moves, FIRST, stream[..start]), at) == Where(moves, FIRST, stream[..start + at.index])
      && SetRowCol(FIRST, there) == Where(moves, FIRST, stream[..start + at.index])
      && SpotOf(Where(moves, FIRST, stream[..start]), at) == SpotOf(FIRST, there)
  {
    var before, within := stream[..start], doc[..at.index];
    assert stream[..start + at.index] == before + within;
    WhereAppend(moves, FIRST, before, within);
    RowColAdds(moves, Where(moves, FIRST, before), within, at);
  }

  /** A longer text does not move a place in it. */
  lemma PlacedLonger(moves: Moves, doc: bytes, more: bytes, at: Place)
    requires PlacedAt(moves, doc, at)
    ensures PlacedAt(moves, doc + more, at)
  {
    assert (doc + more)[..at.index] == doc[..at.index];
  }

  // ------------------------------------------------------------ items

  function PlaceOfItem(item: Item): Place
    requires !item.Flush?
  {
    if item.Call? then item.cb.at else item.at
  }

  /** The same item, with another place, where no document takes over from another. */
  function ItemAt(item: Item, there: Place): Item {
    match item
    case Call(cb) => Call(cb.(at := there))
    case Flush => Flush
    case DocEnd(_, _) => DocEnd(there, false)
    case Fail(fault, _) => Fail(fault, there)
  }

  ghost function ItemInFile(moves: Moves, stream: bytes, start: int, item: Item): Item {
    if item.Flush? then item else ItemAt(item, InFile(moves, stream, start, PlaceOfItem(item)))
  }

  ghost function ItemsInFile(moves: Moves, stream: bytes, start: int, items: seq<Item>): seq<Item> {
    if items == [] then [] else [ItemInFile(moves, stream, start, items[0])] + ItemsInFile(moves, stream, start, items[1..])
  }

  ghost predicate ItemPlaced(moves: Moves, doc: bytes, item: Item) {
    !item.Flush? ==> PlacedAt(moves, doc, PlaceOfItem(item))
  }

  ghost predicate AllPlaced(moves: Moves, doc: bytes, items: seq<Item>) {
    forall i :: 0 <= i < |items| ==> ItemPlaced(moves, doc, items[i])
  }

  ghost predicate Restarts(item: Item) { item.DocEnd? && item.restart }

  /** A run that counts in documents, and one that counts in the file: they differ in nothing that is delivered. */
  ghost predicate Alike(s: State, t: State) { t == s.(prev := FIRST, elements := t.elements) }

  lemma InsertAlike(conv: Converter, s: State, t: State, raw: Token, at: Place, there: Place)
    requires Alike(s, t) && SpotOf(s.prev, at) == SpotOf(FIRST, there)
    ensures Alike(Insert(conv, s, raw, at), Insert(conv, t, raw, there)) && Insert(conv, s, raw, at).prev == s.prev
  {
    hide ConvertToken, Convert, SpotOf;
  }

  lemma AddAlike(conv: Converter, s: State, t: State, kind: Kind, text: bytes, at: Place, there: Place)
    requires Alike(s, t) && SpotOf(s.prev, at) == SpotOf(FIRST, there) && at.bytes == there.bytes
    ensures Alike(AddPending(conv, s, kind, text, at), AddPending(conv, t, kind, text, there))
    ensures AddPending(conv, s, kind, text, at).prev == s.prev
  {
    hide Convert, SpotOf;
  }

  lemma RawAlike(ev: Event, prev: Origin, at: Place, there: Place)
    requires SpotOf(prev, at) == SpotOf(FIRST, there) && !ev.TextEvent?
    ensures RawToken(ev, prev, at) == RawToken(ev, FIRST, there)
  {
    hide SpotOf;
  }

  lemma HandleAlike(conv: Converter, s: State, t: State, cb: Callback, there: Place)
    requires Alike(s, t) && SpotOf(s.prev, cb.at) == SpotOf(FIRST, there) && cb.at.bytes == there.bytes
    ensures Alike(Handle(conv, s, cb), Handle(conv, t, cb.(at := there))) && Handle(conv, s, cb).prev == s.prev
  {
    if cb.event.TextEvent? {
      AddAlike(conv, s, t, cb.event.kind, cb.event.text, cb.at, there);
    } else {
      var d := if cb.event.StartEvent? then 1 else if cb.event.EndEvent? then -1 else 0;
      var e := if cb.event.StartEvent? then 1 else 0;
      RawAlike(cb.event, s.prev, cb.at, there);
      hide Insert, SpotOf, RawToken;
      InsertAlike(conv, s.(depth := s.depth + d, elements := s.elements + e),
        t.(depth := t.depth + d, elements := t.elements + e), RawToken(cb.event, s.prev, cb.at), cb.at, there);
    }
  }

  /** An item and the same item elsewhere, where the two runs place it alike. */
  lemma ItemAlike(conv: Converter, s: State, t: State, item: Item, there: Place)
    requires Alike(s, t) && !item.Flush?
    requires var at := PlaceOfItem(item); SpotOf(s.prev, at) == SpotOf(FIRST, there) && at.bytes == there.bytes
    ensures var u := Apply(conv, s, item);
      && Alike(u, Apply(conv, t, ItemAt(item, there)))
      && u.prev == if Restarts(item) then SetRowCol(s.prev, item.at) else s.prev
  {
    match item
    case Call(cb) =>
      hide Handle, SpotOf;
      HandleAlike(conv, s, t, cb, there);
    case DocEnd(at, _) =>
      assert Located(EndDocument, s.prev, at) == Located(EndDocument, FIRST, there);
      hide Insert, SpotOf;
      InsertAlike(conv, s, t, Located(EndDocument, s.prev, at), at, there);
    case Fail(_, _) =>
      hide SpotOf;
  }

  // ------------------------------------------------------------ places that are seen

  /** Row and column of some byte of the file, or of its end. */
  ghost predicate IsSpot(moves: Moves, stream: bytes, spot: Spot) {
    exists i :: 0 <= i <= |stream| && Where(moves, FIRST, stream[..i]) == Origin(spot.row, spot.col)
  }

  ghost predicate AllSpots(moves: Moves, stream: bytes, toks: seq<Token>) {
    forall i :: 0 <= i < |toks| ==> IsSpot(moves, stream, toks[i].spot)
  }

  /** Every token, the pending data, and the error are at such places. */
  ghost predicate Spotted(moves: Moves, stream: bytes, s: State) {
    && AllSpots(moves, stream, s.tokens)
    && (s.pending != [] || s.fault.Some? ==> IsSpot(moves, stream, s.spot))
  }

  lemma FlushSpotted(conv: Converter, moves: Moves, stream: bytes, s: State)
    requires Spotted(moves, stream, s)
    ensures Spotted(moves, stream, FlushIfAny(conv, s)) && FlushIfAny(conv, s).prev == s.prev
  {
    hide IsSpot, Convert;
  }

  lemma InsertSpotted(conv: Converter, moves: Moves, stream: bytes, s: State, raw: Token, at: Place)
    requires Spotted(moves, stream, s) && IsSpot(moves, stream, SpotOf(s.prev, at)) && raw.spot == SpotOf(s.prev, at)
    ensures Spotted(moves, stream, Insert(conv, s, raw, at))
  {
    FlushSpotted(conv, moves, stream, s);
    assert ConvertToken(conv, raw).Some? ==> ConvertToken(conv, raw).value.spot == raw.spot;
    hide IsSpot, ConvertToken, FlushIfAny, SpotOf;
  }

  lemma AddSpotted(conv: Converter, moves: Moves, stream: bytes, s: State, kind: Kind, text: bytes, at: Place)
    requires Spotted(moves, stream, s) && IsSpot(moves, stream, SpotOf(s.prev, at))
    ensures Spotted(moves, stream, AddPending(conv, s, kind, text, at))
  {
    FlushSpotted(conv, moves, stream, s);
    Longer(moves, stream, s.spot, at.bytes);
    hide IsSpot, Convert, SpotOf;
  }

  lemma Longer(moves: Moves, stream: bytes, spot: Spot, more: int)
    ensures IsSpot(moves, stream, spot) <==> IsSpot(moves, stream, spot.(len := spot.len + more))
  {}

  lemma ItemSpotted(conv: Converter, moves: Moves, stream: bytes, s: State, item: Item)
    requires Spotted(moves, stream, s) && (!item.Flush? ==> IsSpot(moves, stream, SpotOf(s.prev, PlaceOfItem(item))))
    ensures Spotted(moves, stream, Apply(conv, s, item))
  {
    match item
    case Flush =>
      hide FlushIfAny;
      FlushSpotted(conv, moves, stream, s);
    case DocEnd(at, _) =>
      hide Insert, SpotOf, IsSpot;
      InsertSpotted(conv, moves, stream, s, Located(EndDocument, s.prev, at), at);
    case Fail(_, _) =>
      hide SpotOf, IsSpot;
    case Call(cb) =>
      if cb.event.TextEvent? {
        hide AddPending, SpotOf, IsSpot;
        AddSpotted(conv, moves, stream, s, cb.event.kind, cb.event.text, cb.at);
      } else {
        var d := if cb.event.StartEvent? then 1 else if cb.event.EndEvent? then -1 else 0;
        var e := if cb.event.StartEvent? then 1 else 0;
        assert RawToken(cb.event, s.prev, cb.at).spot == SpotOf(s.prev, cb.at);
        hide Insert, SpotOf, RawToken, IsSpot;
        InsertSpotted(conv, moves, stream, s.(depth := s.depth + d, elements := s.elements + e),
          RawToken(cb.event, s.prev, cb.at), cb.at);
      }
  }

  // ------------------------------------------------------------ items, placed in the file

  lemma SpotInFile(moves: Moves, stream: bytes, start: int, doc: bytes, at: Place)
    requires 0 <= start && start + |doc| <= |stream| && stream[start..start + |doc|] == doc && PlacedAt(moves, doc, at)
    ensures IsSpot(moves, stream, SpotOf(Where(moves, FIRST, stream[..start]), at))
  {
    PlaceInFile(moves, stream, start, doc, at);
    hide Where, PlacedAt;
  }

  lemma ItemMoves(conv: Converter, moves: Moves, stream: bytes, start: int, doc: bytes, s: State, t: State, item: Item)
    requires 0 <= start && start + |doc| <= |stream| && stream[start..start + |doc|] == doc && ItemPlaced(moves, doc, item)
    requires Alike(s, t) && s.prev == Where(moves, FIRST, stream[..start]) && Spotted(moves, stream, s)
    ensures var u := Apply(conv, s, item);
      && Alike(u, Apply(conv, t, ItemInFile(moves, stream, start, item))) && Spotted(moves, stream, u)
      && (!Restarts(item) ==> u.prev == s.prev)
      && (Restarts(item) ==> u.prev == Where(moves, FIRST, stream[..start + item.at.index]))
  {
    if item.Flush? {
      hide Where, ItemPlaced, Spotted;
      FlushSpotted(conv, moves, stream, s);
    } else {
      var at := PlaceOfItem(item);
      SpotInFile(moves, stream, start, doc, at);
      hide Apply, Where, Alike, SpotOf, SetRowCol, Spotted, IsSpot;
      PlaceInFile(moves, stream, start, doc, at);
      ItemAlike(conv, s, t, item, InFile(moves, stream, start, at));
      ItemSpotted(conv, moves, stream, s, item);
    }
  }

  lemma {:induction false} ItemsMove(conv: Converter, moves: Moves, stream: bytes, start: int, doc: bytes, s: State, t: State,
                                     items: seq<Item>)
    requires 0 <= start && start + |doc| <= |stream| && stream[start..start + |doc|] == doc && AllPlaced(moves, doc, items)
    requires forall i :: 0 <= i < |items| ==> !Restarts(items[i])
    requires Alike(s, t) && s.prev == Where(moves, FIRST, stream[..start]) && Spotted(moves, stream, s)
    ensures var u := Run(conv, s, items);
      Alike(u, Run(conv, t, ItemsInFile(moves, stream, start, items))) && u.prev == s.prev && Spotted(moves, stream, u)
    decreases |items|
  {
    hide Apply, Alike, Where, ItemPlaced, ItemInFile, Spotted;
    if items != [] {
      var moved := ItemsInFile(moves, stream, start, items);
      ItemMoves(conv, moves, stream, start, doc, s, t, items[0]);
      assert moved[1..] == ItemsInFile(moves, stream, start, items[1..]);
      ItemsMove(conv, moves, stream, start, doc, Apply(conv, s, items[0]), Apply(conv, t, moved[0]), items[1..]);
    }
  }

  lemma {:induction false} CallsPlaced(moves: Moves, doc: bytes, calls: seq<Callback>)
    requires forall i :: 0 <= i < |calls| ==> PlacedAt(moves, doc, calls[i].at)
    ensures AllPlaced(moves, doc, CallItems(calls))
    decreases |calls|
  {
    if calls != [] {
      hide PlacedAt;
      CallsPlaced(moves, doc, calls[1..]);
    }
  }

  lemma {:induction false} FedPlaced(x: Expat, moves: Moves, d: nat, fed: seq<bytes>)
    requires Placed(x, moves)
    ensures AllPlaced(moves, Flat(fed), FedItems(x, d, fed))
    decreases |fed|
  {
    if fed != [] {
      var n := |fed| - 1;
      var before, o := FedItems(x, d, fed[..n]), Parse(x, d, fed, false);
      FedPlaced(x, moves, d, fed[..n]);
      FlatSnoc(fed[..n], fed[n]);
      assert fed == fed[..n] + [fed[n]];
      CallsPlaced(moves, Flat(fed), o.calls);
      hide Flat, CallItems, Placed, PlacedAt;
      forall i | 0 <= i < |before| ensures ItemPlaced(moves, Flat(fed), before[i]) {
        ItemPlacedLonger(moves, Flat(fed[..n]), fed[n], before[i]);
      }
    }
  }

  lemma ItemPlacedLonger(moves: Moves, doc: bytes, more: bytes, item: Item)
    requires ItemPlaced(moves, doc, item)
    ensures ItemPlaced(moves, doc + more, item)
  {
    if !item.Flush? {
      PlacedLonger(moves, doc, more, PlaceOfItem(item));
    }
  }

  lemma PlaceOfPlaced(x: Expat, moves: Moves, d: nat, fed: seq<bytes>)
    requires Placed(x, moves)
    ensures PlacedAt(moves, Flat(fed), PlaceOf(x, d, fed))
  {}

  /** Items of one document, in which none takes over from it. */
  ghost predicate InOneDoc(moves: Moves, doc: bytes, items: seq<Item>) {
    AllPlaced(moves, doc, items) && forall i :: 0 <= i < |items| ==> !Restarts(items[i])
  }

  lemma EndPlaced(x: Expat, moves: Moves, d: nat, fed: seq<bytes>, ending: Ending, multi: bool)
    requires Placed(x, moves)
    ensures InOneDoc(moves, Flat(fed), EndItems(x, d, fed, ending, multi))
  {
    if ending.AtEof? {
      EofPlaced(x, moves, d, fed, multi);
    } else {
      PlaceOfPlaced(x, moves, d, fed);
      hide Placed, PlacedAt, Flat, PlaceOf, Parse;
    }
  }

  lemma EofPlaced(x: Expat, moves: Moves, d: nat, fed: seq<bytes>, multi: bool)
    requires Placed(x, moves)
    ensures InOneDoc(moves, Flat(fed), EndItems(x, d, fed, AtEof, multi))
  {
    var o := Parse(x, d, fed + [[]], true);
    var end := [Flush] + (if !o.ok then [Fail(ParserError(o.code), o.place)] else if multi then [DocEnd(o.place, false)] else []);
    FlatSnoc(fed, []);
    assert Flat(fed) + [] == Flat(fed);
    assert PlacedAt(moves, Flat(fed), o.place) && forall i :: 0 <= i < |o.calls| ==> PlacedAt(moves, Flat(fed), o.calls[i].at);
    hide Placed, PlacedAt, Flat, Parse;
    assert EndItems(x, d, fed, AtEof, multi) == CallItems(o.calls) + end;
    hide EndItems;
    CallsPlaced(moves, Flat(fed), o.calls);
    CallsOnly(o.calls);
    hide CallItems;
    assert InOneDoc(moves, Flat(fed), CallItems(o.calls)) && InOneDoc(moves, Flat(fed), end);
    BothPlaced(moves, Flat(fed), CallItems(o.calls), end);
  }

  lemma BothPlaced(moves: Moves, doc: bytes, xs: seq<Item>, ys: seq<Item>)
    requires InOneDoc(moves, doc, xs) && InOneDoc(moves, doc, ys)
    ensures InOneDoc(moves, doc, xs + ys)
  {
    hide ItemPlaced;
  }

  // ------------------------------------------------------------ a whole run

  /** The callbacks of the finished documents, placed in the file. */
  ghost function DocsInFile(x: Expat, moves: Moves, stream: bytes, docs: seq<Doc>): seq<Item>
    decreases |docs|
  {
    if docs == [] then []
    else
      var d := |docs| - 1;
      DocsInFile(x, moves, stream, docs[..d]) + ItemsInFile(moves, stream, docs[d].start, FedItems(x, d, docs[d].fed))
      + [DocEnd(InFile(moves, stream, docs[d].start, PlaceOf(x, d, docs[d].fed)), false)]
  }

  /** A whole run, every place in it counted from the start of the file. */
  ghost function RunInFile(x: Expat, moves: Moves, stream: bytes, docs: seq<Doc>, start: int, fed: seq<bytes>,
                           ending: Ending, multi: bool): seq<Item>
  {
    DocsInFile(x, moves, stream, docs) + ItemsInFile(moves, stream, start, FedItems(x, |docs|, fed))
    + ItemsInFile(moves, stream, start, EndItems(x, |docs|, fed, ending, multi))
  }

  /** After these items, and after those placed in the file, the two runs are alike, the current document
      starts here, and what can be seen is at its place in the file. */
  ghost predicate InPlace(conv: Converter, moves: Moves, stream: bytes, start: int, items: seq<Item>, inFile: seq<Item>) {
    var s := Run(conv, INIT, items);
    && 0 <= start <= |stream| && s.prev == Where(moves, FIRST, stream[..start]) && Spotted(moves, stream, s)
    && Alike(s, Run(conv, INIT, inFile))
  }

  /** Some items more of one document. */
  lemma MoreMoves(conv: Converter, moves: Moves, stream: bytes, start: int, doc: bytes, before: seq<Item>,
                  beforeInFile: seq<Item>, items: seq<Item>)
    requires start + |doc| <= |stream| && 0 <= start && stream[start..start + |doc|] == doc && AllPlaced(moves, doc, items)
    requires forall i :: 0 <= i < |items| ==> !Restarts(items[i])
    requires InPlace(conv, moves, stream, start, before, beforeInFile)
    ensures InPlace(conv, moves, stream, start, before + items, beforeInFile + ItemsInFile(moves, stream, start, items))
  {
    hide Run, Where, Alike, AllPlaced, ItemsInFile, Restarts, Spotted;
    RunAppend(conv, INIT, before, items);
    RunAppend(conv, INIT, beforeInFile, ItemsInFile(moves, stream, start, items));
    ItemsMove(conv, moves, stream, start, doc, Run(conv, INIT, before), Run(conv, INIT, beforeInFile), items);
  }

  /** The end of a document, up to where the next one starts. */
  lemma DocEndMoves(conv: Converter, moves: Moves, stream: bytes, start: int, doc: bytes, before: seq<Item>,
                    beforeInFile: seq<Item>, end: Item)
    requires start + |doc| <= |stream| && 0 <= start && stream[start..start + |doc|] == doc
    requires ItemPlaced(moves, doc, end) && Restarts(end)
    requires InPlace(conv, moves, stream, start, before, beforeInFile)
    ensures InPlace(conv, moves, stream, start + end.at.index, before + [end],
              beforeInFile + [ItemInFile(moves, stream, start, end)])
  {
    hide Run, Apply, Where, Alike, ItemInFile, Spotted;
    var endInFile := ItemInFile(moves, stream, start, end);
    var s, t := Run(conv, INIT, before), Run(conv, INIT, beforeInFile);
    RunAppend(conv, INIT, before, [end]);
    RunAppend(conv, INIT, beforeInFile, [endInFile]);
    RunTwo(conv, s, end, end);
    RunTwo(conv, t, endInFile, endInFile);
    ItemMoves(conv, moves, stream, start, doc, s, t, end);
  }

  /** Whole documents. */
  lemma {:induction false} DocsMove(conv: Converter, x: Expat, moves: Moves, stream: bytes, docs: seq<Doc>, start: int)
    requires Placed(x, moves) && Tiled(x, stream, docs, start)
    ensures InPlace(conv, moves, stream, start, DocItems(x, docs), DocsInFile(x, moves, stream, docs))
    decreases |docs|
  {
    hide *;
    if docs == [] {
      NoDocsMove(conv, x, moves, stream, start);
    } else {
      var doc, before := docs[|docs| - 1], docs[..|docs| - 1];
      DocItemsStep(x, moves, stream, docs, start);
      DocsMove(conv, x, moves, stream, before, doc.start);
      LastDocMoves(conv, x, moves, stream, before, doc);
    }
  }

  lemma NoDocsMove(conv: Converter, x: Expat, moves: Moves, stream: bytes, start: int)
    requires Tiled(x, stream, [], start)
    ensures InPlace(conv, moves, stream, start, DocItems(x, []), DocsInFile(x, moves, stream, []))
  {
    assert start == 0 && DocItems(x, []) == [] && DocsInFile(x, moves, stream, []) == [];
    hide DocItems, DocsInFile, Tiled, IsSpot;
  }

  lemma LastDocMoves(conv: Converter, x: Expat, moves: Moves, stream: bytes, docs: seq<Doc>, doc: Doc)
    requires Placed(x, moves) && Segment(stream, doc.start, doc.fed)
    requires InPlace(conv, moves, stream, doc.start, DocItems(x, docs), DocsInFile(x, moves, stream, docs))
    ensures var own, end := FedItems(x, |docs|, doc.fed), DocEnd(PlaceOf(x, |docs|, doc.fed), true);
      InPlace(conv, moves, stream, doc.start + end.at.index, DocItems(x, docs) + own + [end],
        DocsInFile(x, moves, stream, docs) + ItemsInFile(moves, stream, doc.start, own) + [ItemInFile(moves, stream, doc.start, end)])
  {
    hide *;
    var d, end, text := |docs|, DocEnd(PlaceOf(x, |docs|, doc.fed), true), Flat(doc.fed);
    var own, before, beforeInFile := FedItems(x, d, doc.fed), DocItems(x, docs), DocsInFile(x, moves, stream, docs);
    SegmentIs(stream, doc.start, doc.fed);
    EndOfDoc(x, moves, d, doc.fed);
    FedPlaced(x, moves, d, doc.fed);
    OwnCalls(x, d, doc.fed);
    MoreMoves(conv, moves, stream, doc.start, text, before, beforeInFile, own);
    DocEndMoves(conv, moves, stream, doc.start, text, before + own, beforeInFile + ItemsInFile(moves, stream, doc.start, own), end);
  }

  lemma EndOfDoc(x: Expat, moves: Moves, d: nat, fed: seq<bytes>)
    requires Placed(x, moves)
    ensures var end := DocEnd(PlaceOf(x, d, fed), true); ItemPlaced(moves, Flat(fed), end) && Restarts(end)
  {
    PlaceOfPlaced(x, moves, d, fed);
    hide Placed, PlacedAt, Flat, PlaceOf;
  }

  lemma OwnCalls(x: Expat, d: nat, fed: seq<bytes>)
    ensures var own := FedItems(x, d, fed); forall i :: 0 <= i < |own| ==> !Restarts(own[i])
  {
    FedCallsOnly(x, d, fed);
    hide FedItems;
  }

  lemma DocItemsStep(x: Expat, moves: Moves, stream: bytes, docs: seq<Doc>, start: int)
    requires Tiled(x, stream, docs, start) && docs != []
    ensures var d := |docs| - 1;
      var doc, own, end := docs[d], FedItems(x, d, docs[d].fed), DocEnd(PlaceOf(x, d, docs[d].fed), true);
      && Tiled(x, stream, docs[..d], doc.start) && Segment(stream, doc.start, doc.fed) && start == doc.start + end.at.index
      && DocItems(x, docs) == DocItems(x, docs[..d]) + own + [end]
      && DocsInFile(x, moves, stream, docs) == DocsInFile(x, moves, stream, docs[..d])
           + ItemsInFile(moves, stream, doc.start, own) + [ItemInFile(moves, stream, doc.start, end)]
  {
    assert Flat<byte>([]) == [];
    hide FedItems, ItemsInFile, InFile, Segment;
  }

  /** Counting in documents, with the restarts, comes to the same as counting in the file. */
  lemma RunMoves(conv: Converter, x: Expat, moves: Moves, stream: bytes, docs: seq<Doc>, start: int, fed: seq<bytes>,
                 ending: Ending, multi: bool)
    requires Placed(x, moves) && Tiled(x, stream, docs, start) && Segment(stream, start, fed)
    ensures InPlace(conv, moves, stream, start, RunItems(x, docs, fed, ending, multi),
              RunInFile(x, moves, stream, docs, start, fed, ending, multi))
  {
    hide *;
    var d := |docs|;
    var done, doneInFile := DocItems(x, docs), DocsInFile(x, moves, stream, docs);
    var own, end := FedItems(x, d, fed), EndItems(x, d, fed, ending, multi);
    SegmentIs(stream, start, fed);
    DocsMove(conv, x, moves, stream, docs, start);
    FedPlaced(x, moves, d, fed);
    OwnCalls(x, d, fed);
    EndPlaced(x, moves, d, fed, ending, multi);
    OneDocument(moves, Flat(fed), end);
    MoreMoves(conv, moves, stream, start, Flat(fed), done, doneInFile, own);
    MoreMoves(conv, moves, stream, start, Flat(fed), done + own, doneInFile + ItemsInFile(moves, stream, start, own), end);
    RunParts(x, moves, stream, docs, start, fed, ending, multi);
  }

  lemma SegmentIs(stream: bytes, start: int, fed: seq<bytes>)
    requires Segment(stream, start, fed)
    ensures 0 <= start && start + |Flat(fed)| <= |stream| && stream[start..start + |Flat(fed)|] == Flat(fed)
  {}

  lemma OneDocument(moves: Moves, doc: bytes, items: seq<Item>)
    requires InOneDoc(moves, doc, items)
    ensures AllPlaced(moves, doc, items) && forall i :: 0 <= i < |items| ==> !Restarts(items[i])
  {}

  lemma RunParts(x: Expat, moves: Moves, stream: bytes, docs: seq<Doc>, start: int, fed: seq<bytes>, ending: Ending, multi: bool)
    ensures var own, end := FedItems(x, |docs|, fed), EndItems(x, |docs|, fed, ending, multi);
      && RunItems(x, docs, fed, ending, multi) == DocItems(x, docs) + own + end
      && RunInFile(x, moves, stream, docs, start, fed, ending, multi) ==
         DocsInFile(x, moves, stream, docs) + ItemsInFile(moves, stream, start, own) + ItemsInFile(moves, stream, start, end)
  {}

  // ------------------------------------------------------------ the puller

  /** Across all documents of the file: what the client has been given or will be, and the error, is what one
      parser counting over the whole file would have led to, every place included; and each place is that of a
      byte of the file. */
  lemma TokensInFile(p: P.Puller, moves: Moves)
    requires p.Told() && Placed(p.expat, moves)
    ensures var t := Run(p.conv, INIT, RunInFile(p.expat, moves, p.input.stream, p.docs, p.input.docStart, p.parser.fed, p.ending, p.multi));
      && p.delivered + p.pool.queue.vals == t.tokens && p.fault == t.fault && p.spot == t.spot
    ensures AllSpots(moves, p.input.stream, p.delivered + p.pool.queue.vals)
    ensures p.fault.Some? ==> IsSpot(moves, p.input.stream, p.spot)
    ensures 0 <= p.input.docStart <= |p.input.stream|
      && p.prev == Where(moves, FIRST, p.input.stream[..p.input.docStart])
  {
    RunMoves(p.conv, p.expat, moves, p.input.stream, p.docs, p.input.docStart, p.parser.fed, p.ending, p.multi);
    hide Run, RunItems, RunInFile, Where, AllSpots, IsSpot, Tiled, Segment, Placed;
  }
}
