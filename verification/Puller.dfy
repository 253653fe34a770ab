/** The pull parser itself (xml/xml_puller.c). Expat is an oracle: what a parser answers depends
    only on which parser it is and on the chunks it has been fed. */
module Puller {
  import opened Common
  import opened XmlEvents
  import opened XmlRun
  import I = XmlInput
  import T = TokenPool

  function Joined<T>(xs: seq<T>, ys: Option<seq<T>>): Option<seq<T>> {
    match ys case None => None case Some(zs) => Some(xs + zs)
  }

  class Puller {
    const conv: Converter
    const expat: Expat
    const multi: bool           // XML_PULLER_END_DOCUMENT is enabled
    const input: I.Input
    const pool: T.Pool

    var fileOpen: bool          // filedesc >= 0
    var cdata: bytes            // cdata[..cdata_len], the pending data
    var cdataBufsize: nat
    var cdataKind: Kind
    var prev: Origin
    var fault: Option<Fault>    // None while status is XML_STATUS_OK
    var spot: Spot
    var depth: int
    var elements: int

    var parser: XmlParser

    ghost var docs: seq<Doc>        // the documents that are finished
    ghost var ending: Ending
    ghost var delivered: seq<Token> // what XML_PullerNext has returned so far

    ghost predicate Base()
      reads this`cdata, this`cdataBufsize, pool, pool.queue, pool.freeList, pool.all
    {
      && pool.Valid() && pool.building == null && |cdata| <= cdataBufsize
    }

    ghost function View(): State
      reads this`delivered, this`cdata, this`cdataKind, this`spot, this`fault, this`depth, this`elements, this`prev, pool.queue
    {
      State(delivered + pool.queue.vals, cdata, cdataKind, spot, fault, depth, elements, prev)
    }

    /** What has happened to the tokens is what the finished documents, the current one and the
        ending called for; and the parsers have been fed the file contiguously. */
    ghost predicate Told()
      reads this`delivered, this`cdata, this`cdataKind, this`spot, this`fault, this`depth, this`elements, this`prev
      reads this`cdataBufsize, this`parser, this`docs, this`ending, input`docStart
      reads pool, pool.queue, pool.freeList, pool.all
    {
      && Base()
      && WellBehaved(expat) && parser.doc == |docs|
      && Tiled(expat, input.stream, docs, input.docStart)
      && Segment(input.stream, input.docStart, parser.fed)
      && View() == Run(conv, INIT, RunItems(expat, docs, parser.fed, ending, multi))
    }

    /** While parsing: the parser has been fed this many bytes of the current document. */
    ghost predicate Sync(parsed: int)
      reads this`delivered, this`cdata, this`cdataKind, this`spot, this`fault, this`depth, this`elements, this`prev
      reads this`cdataBufsize, this`parser, this`docs, this`ending, this`fileOpen, input`docStart
      reads pool, pool.queue, pool.freeList, pool.all
    {
      && Told() && ending == Running && fileOpen && |Flat(parser.fed)| == parsed
      && parser.place == PlaceOf(expat, parser.doc, parser.fed)
    }

    /** Between calls: either the window is ready for the next read, or the run has ended, after the
        whole file at the end of file. */
    ghost predicate Valid()
      reads this, pool, pool.queue, pool.freeList, pool.all, input, input.buf
    {
      && Told()
      && (fault.None? && fileOpen ==> Sync(input.docOffset + input.savedBytes) && input.Ready())
      && (!fileOpen ==> ending.AtEof? || ending.ReadError?)
      && (ending != Running && ending != AtEof ==> fault.Some?)
      && (ending.AtEof? ==> input.docStart + |Flat(parser.fed)| == |input.stream|)
      && Ruled()
    }

    /** Documents follow one another, and the run has ended, only as they must; and the window starts at what
        the parser is not done with. */
    ghost predicate Ruled()
      reads this`parser, this`docs, this`ending, this`fault, this`fileOpen, input`docOffset, input`calls
    {
      && Conducted(expat, docs, parser.fed, ending, multi)
      && (ending.ReadError? ==> input.Refused(ending.errno))
      && (fault.None? && fileOpen && multi ==> input.docOffset == PlaceOf(expat, |docs|, parser.fed).index)
    }

    /** A parser is ready for the next chunk. */
    ghost predicate Set()
      reads this`parser, this`docs, input`docOffset
    {
      && Restarted(expat, docs, multi) && Accepted(expat, |docs|, parser.fed) && Fine(expat, |docs|, parser.fed)
      && (multi ==> input.docOffset == PlaceOf(expat, |docs|, parser.fed).index)
    }

    lemma SetIs()
      ensures Set() <==>
        && Restarted(expat, docs, multi) && Accepted(expat, |docs|, parser.fed) && Fine(expat, |docs|, parser.fed)
        && (multi ==> input.docOffset == PlaceOf(expat, |docs|, parser.fed).index)
    {}

    lemma SetMore(was: seq<bytes>)
      requires Restarted(expat, docs, multi) && Accepted(expat, |docs|, was) && Fine(expat, |docs|, was)
      requires multi ==> input.docOffset == PlaceOf(expat, |docs|, was).index
      requires |parser.fed| == |was| + 1 && parser.fed[..|was|] == was
      ensures Parsing()
    {
      var chunk := parser.fed[|was|];
      assert parser.fed == was + [chunk];
      hide *;
      AcceptMore(expat, |docs|, was, chunk);
    }

    lemma OneParser()
      requires Told()
      ensures parser.doc == |docs|
    {
      hide Base, View, Run, RunItems, Tiled, Segment, WellBehaved;
    }

    /** The two counters tell whether the root is closed. */
    lemma RootClosed()
      requires Told() && ending == Running
      ensures elements > 0 && depth == 0 <==> Closed(FedItems(expat, |docs|, parser.fed))
    {
      hide Run, RunItems, Tiled, Segment, FedItems;
      CurrentCounts(conv, expat, input.stream, docs, input.docStart, parser.fed, multi);
    }

    /** A block has been parsed, up to the last chunk. */
    ghost predicate Parsing()
      reads this`parser, this`docs, input`docOffset
    {
      && Restarted(expat, docs, multi) && Accepted(expat, |docs|, parser.fed) && parser.fed != []
      && (multi ==> input.docOffset == PlaceOf(expat, |docs|, parser.fed[..|parser.fed| - 1]).index)
    }

    constructor (conv: Converter, expat: Expat, multi: bool, stream: bytes, sched: nat -> int, readSize: nat)
      requires readSize > 0 && WellBehaved(expat)
      ensures Valid() && View() == INIT && fileOpen
    {
      this.conv, this.expat, this.multi, fileOpen := conv, expat, multi, true;
      pool := new T.Pool();
      input := new I.Input(stream, sched, readSize);
      cdata, cdataBufsize, cdataKind, prev, fault := [], 0, StartElement, Origin(1, 1), None;
      spot, depth, elements := Spot(0, 0, 0), 0, 0;
      parser := XmlParser(0, [], START);
      docs, ending, delivered := [], Running, [];
      new;
      hide *;
      Begun();
    }

    /** Nothing has happened yet. */
    lemma Begun()
      requires WellBehaved(expat) && input.Ready() && input.docStart == input.docOffset == input.savedBytes == 0
      requires pool.Valid() && pool.building == null && pool.queue.vals == []
      requires fileOpen && cdata == [] && prev == Origin(1, 1) && fault == None && cdataKind == StartElement
      requires spot == Spot(0, 0, 0) && depth == elements == 0 && parser == XmlParser(0, [], START)
      requires docs == [] && ending == Running && delivered == []
      ensures Valid() && View() == INIT
    {
      assert RunItems(expat, docs, parser.fed, ending, multi) == [] && Flat(parser.fed) == [];
      hide pool.Valid, input.Loaded, WellBehaved;
    }

    /** XML_PullerSetError and internal_error: only the first error is kept. */
    method InternalError(f: Fault)
      requires Base()
      modifies this`fault, this`spot
      ensures fault.Some? && View() == SetError(old(View()), f, parser.place)
    {
      if fault == None {
        fault := Some(f);
        spot := SpotOf(prev, parser.place);
      }
    }

    /** XML_PullerIconv. */
    method Iconv(source: bytes) returns (r: Option<bytes>)
      requires Base()
      modifies this`fault, this`spot
      ensures r == Convert(conv, source)
      ensures View() == if r.Some? then old(View()) else SetError(old(View()), IconvFailed, parser.place)
    {
      r := Convert(conv, source);
      if r.None? {
        InternalError(IconvFailed);
      }
    }

    /** A filled token is appended to the pending ones. */
    method Emit(tok: Token)
      requires Base()
      modifies pool`building, pool`all, pool`mallocs, pool.queue, pool.freeList, pool.all - pool.held
      ensures Base() && View() == old(View()).(tokens := old(View()).tokens + [tok])
      ensures fresh(pool.all - old(pool.all))
    {
      pool.Add(tok);
    }

    /** A token that could not be filled goes back to the free list. */
    method Drop(tok: Token)
      requires Base()
      modifies pool`building, pool`all, pool`mallocs, pool.freeList, pool.all - pool.held
      ensures Base() && View() == old(View())
      ensures fresh(pool.all - old(pool.all))
    {
      pool.Abandon(tok);
    }

    /** flush_pending: a failed conversion is reported where the data began. */
    method Flush()
      requires Base()
      modifies this`fault, this`spot, this`cdata
      modifies pool`building, pool`all, pool`mallocs, pool.queue, pool.freeList, pool.all - pool.held
      ensures Base() && cdata == [] && View() == FlushPending(conv, old(View()))
      ensures fresh(pool.all - old(pool.all))
    {
      hide pool.Valid, Convert;
      if fault.Some? {
        cdata := [];
        return;
      }
      var tok := T.Blank(cdataKind).(spot := spot);
      var data := Iconv(cdata);
      cdata := [];
      if data.None? {
        spot := tok.spot;
        Drop(tok);
      } else {
        Emit(tok.(data := data));
      }
    }

    /** token_get: what is pending goes first; None when the puller has failed. */
    method TokenGet(kind: Kind) returns (tok: Option<Token>)
      requires Base()
      modifies this`fault, this`spot, this`cdata
      modifies pool`building, pool`all, pool`mallocs, pool.queue, pool.freeList, pool.all - pool.held
      ensures Base() && View() == FlushIfAny(conv, old(View()))
      ensures fresh(pool.all - old(pool.all))
      ensures tok == if fault.Some? then None else Some(Located(kind, prev, parser.place))
    {
      hide pool.Valid, Convert, FlushPending;
      if cdata != [] {
        Flush();
      }
      if fault.Some? {
        return None;
      }
      tok := Some(T.Blank(kind).(spot := SpotOf(prev, parser.place)));
    }

    /** XML_PullerIconv on a string that may be absent. */
    method IconvOpt(source: Option<bytes>) returns (failed: bool, r: Option<bytes>)
      requires Base()
      modifies this`fault, this`spot
      ensures ConvertOpt(conv, source) == if failed then None else Some(r)
      ensures Base() && View() == if failed then SetError(old(View()), IconvFailed, parser.place) else old(View())
    {
      hide pool.Valid, Convert;
      failed, r := false, None;
      if source.Some? {
        r := Iconv(source.value);
        failed := r.None?;
      }
    }

    /** The attribute loop of start_element_handler: it goes on after a failure, so that every
        pointer is set. */
    method IconvAll(attrs: seq<(bytes, bytes)>) returns (failed: bool, converted: seq<(bytes, bytes)>)
      requires Base()
      modifies this`fault, this`spot
      ensures ConvertAttrs(conv, attrs) == if failed then None else Some(converted)
      ensures Base() && View() == if failed then SetError(old(View()), IconvFailed, parser.place) else old(View())
    {
      hide pool.Valid, Convert;
      failed, converted := false, [];
      assert attrs[0..] == attrs;
      ghost var all := ConvertAttrs(conv, attrs);
      assert all.Some? ==> [] + all.value == all.value;
      for i := 0 to |attrs|
        invariant Base() && View() == if failed then SetError(old(View()), IconvFailed, parser.place) else old(View())
        invariant all == if failed then None else Joined(converted, ConvertAttrs(conv, attrs[i..]))
      {
        assert attrs[i..][1..] == attrs[i + 1..];
        var n := Iconv(attrs[i].0);
        var v := Iconv(attrs[i].1);
        if n.None? || v.None? {
          failed := true;
        } else {
          ghost var rest := ConvertAttrs(conv, attrs[i + 1..]);
          assert rest.Some? ==> converted + ([(n.value, v.value)] + rest.value) == converted + [(n.value, v.value)] + rest.value;
          converted := converted + [(n.value, v.value)];
        }
      }
      assert attrs[|attrs|..] == [] && converted + [] == converted;
    }

    /** What every handler does with its token: convert the strings it has, and enqueue it. */
    method Complete(raw: Token)
      requires Base() && fault.None?
      modifies this`fault, this`spot
      modifies pool`building, pool`all, pool`mallocs, pool.queue, pool.freeList, pool.all - pool.held
      ensures Base() && View() == match ConvertToken(conv, raw)
        case None => SetError(old(View()), IconvFailed, parser.place)
        case Some(t) => old(View()).(tokens := old(View()).tokens + [t])
      ensures fresh(pool.all - old(pool.all))
    {
      hide pool.Valid, Convert, ConvertOpt, ConvertAttrs;
      var f1, name := IconvOpt(raw.name);
      if f1 {
        Drop(raw.(name := None, data := None, pubid := None, attrs := []));
        return;
      }
      var f2, data := IconvOpt(raw.data);
      if f2 {
        Drop(raw.(name := name, data := None, pubid := None, attrs := []));
        return;
      }
      var f3, pubid := IconvOpt(raw.pubid);
      if f3 {
        Drop(raw.(name := name, data := data, pubid := None, attrs := []));
        return;
      }
      var f4, attrs := IconvAll(raw.attrs);
      if f4 {
        Drop(raw.(name := name, data := data, pubid := pubid, attrs := attrs));
        return;
      }
      Emit(raw.(name := name, data := data, pubid := pubid, attrs := attrs));
    }

    /** The handlers of every event but data. */
    method HandleToken(ev: Event)
      requires Base() && !ev.TextEvent?
      modifies this`fault, this`spot, this`cdata, this`depth, this`elements
      modifies pool`building, pool`all, pool`mallocs, pool.queue, pool.freeList, pool.all - pool.held
      ensures Base() && View() == Handle(conv, old(View()), Callback(ev, parser.place))
      ensures fresh(pool.all - old(pool.all))
    {
      hide pool.Valid, Insert, SetRowCol;
      if ev.StartEvent? {
        depth := depth + 1;
        elements := elements + 1;
      } else if ev.EndEvent? {
        depth := depth - 1;
      }
      Produce(RawToken(ev, prev, parser.place));
    }

    /** The rest of such a handler: its token, after any pending data. */
    method Produce(raw: Token)
      requires Base()
      modifies this`fault, this`spot, this`cdata
      modifies pool`building, pool`all, pool`mallocs, pool.queue, pool.freeList, pool.all - pool.held
      ensures Base() && View() == Insert(conv, old(View()), raw, parser.place)
      ensures fresh(pool.all - old(pool.all))
    {
      hide pool.Valid, FlushIfAny, ConvertToken;
      var tok := TokenGet(raw.kind);
      if tok.Some? {
        Complete(raw);
      }
    }

    /** token_insert_no_data, for END_DOCUMENT. */
    method EndDocument()
      requires Base()
      modifies this`fault, this`spot, this`cdata
      modifies pool`building, pool`all, pool`mallocs, pool.queue, pool.freeList, pool.all - pool.held
      ensures Base() && View() == Apply(conv, old(View()), DocEnd(parser.place, false))
      ensures fresh(pool.all - old(pool.all))
    {
      hide pool.Valid, FlushIfAny;
      var tok := TokenGet(Kind.EndDocument);
      if tok.Some? {
        Emit(tok.value);
      }
    }

    /** The end of add_pending: the buffer at least doubles when it is too small. */
    method AppendData(kind: Kind, text: bytes)
      requires Base()
      modifies this`spot, this`cdata, this`cdataKind, this`cdataBufsize
      ensures Base() && View() == AppendText(old(View()), kind, text, parser.place)
    {
      hide pool.Valid;
      if cdata == [] {
        cdataKind := kind;
        spot := SpotOf(prev, parser.place);
      } else {
        spot := spot.(len := spot.len + parser.place.bytes);
      }
      if |cdata| + |text| > cdataBufsize {
        cdataBufsize := cdataBufsize + |cdata| + |text|;
      }
      cdata := cdata + text;
    }

    /** add_pending. */
    method AddText(kind: Kind, text: bytes)
      requires Base()
      modifies this`fault, this`spot, this`cdata, this`cdataKind, this`cdataBufsize
      modifies pool`building, pool`all, pool`mallocs, pool.queue, pool.freeList, pool.all - pool.held
      ensures Base() && View() == AddPending(conv, old(View()), kind, text, parser.place)
      ensures fresh(pool.all - old(pool.all))
    {
      hide pool.Valid, FlushPending, AppendText;
      if fault.Some? {
        return;
      }
      if cdata != [] && cdataKind != kind {
        Flush();
        if fault.Some? {
          return;
        }
      }
      AppendData(kind, text);
    }

    /** Expat calls a handler. */
    method Dispatch(cb: Callback)
      requires Base()
      modifies this`parser, this`fault, this`spot, this`cdata, this`cdataKind, this`cdataBufsize, this`depth, this`elements
      modifies pool`building, pool`all, pool`mallocs, pool.queue, pool.freeList, pool.all - pool.held
      ensures Base() && View() == Handle(conv, old(View()), cb)
      ensures parser == old(parser).(place := cb.at)
      ensures fresh(pool.all - old(pool.all))
    {
      hide pool.Valid;
      parser := parser.(place := cb.at);
      match cb.event {
        case TextEvent(kind, text) => AddText(kind, text);
        case _ => HandleToken(cb.event);
      }
    }

    /** The callbacks of one XML_Parse call. */
    method RunCalls(calls: seq<Callback>)
      requires Base()
      modifies this`parser, this`fault, this`spot, this`cdata, this`cdataKind, this`cdataBufsize, this`depth, this`elements
      modifies pool`building, pool`all, pool`mallocs, pool.queue, pool.freeList, pool.all - pool.held
      ensures Base() && View() == Run(conv, old(View()), CallItems(calls))
      ensures parser == old(parser).(place := parser.place)
      ensures fresh(pool.all - old(pool.all))
    {
      hide pool.Valid, Handle;
      ghost var s := View();
      assert calls[0..] == calls;
      for i := 0 to |calls|
        invariant Base() && fresh(pool.all - old(pool.all)) && parser == old(parser).(place := parser.place)
        invariant Run(conv, s, CallItems(calls)) == Run(conv, View(), CallItems(calls[i..]))
      {
        assert calls[i..][1..] == calls[i + 1..];
        Dispatch(calls[i]);
      }
      assert calls[|calls|..] == [];
    }

    /** XML_Parse on the new bytes. */
    method ParseChunk() returns (ok: bool)
      requires Sync(input.docOffset + input.savedBytes) && input.Loaded()
      modifies this`parser, this`fault, this`spot, this`cdata, this`cdataKind, this`cdataBufsize, this`depth, this`elements
      modifies pool`building, pool`all, pool`mallocs, pool.queue, pool.freeList, pool.all - pool.held
      ensures |parser.fed| == |old(parser.fed)| + 1 && parser.fed[..|old(parser.fed)|] == old(parser.fed)
      ensures Sync(input.docOffset + input.savedBytes + input.newBytes)
      ensures Told() && ending == Running
      ensures ok == Parse(expat, parser.doc, parser.fed, false).ok && parser.index == Parse(expat, parser.doc, parser.fed, false).index
      ensures fresh(pool.all - old(pool.all))
    {
      hide pool.Valid, Run, RunItems, Tiled, Segment, CallItems, Flat, WellBehaved;
      var chunk := input.Chunk();
      var o := Parse(expat, parser.doc, parser.fed + [chunk], false);
      ghost var was, s := parser.fed, View();
      RunCalls(o.calls);
      parser := XmlParser(parser.doc, parser.fed + [chunk], o.place);
      ok := o.ok;
      ChunkFed(conv, expat, input.stream, docs, input.docStart, was, chunk, multi);
    }

    /** END_DOCUMENT is inserted, the position is saved, and a new parser takes over. */
    method CloseDocument(ghost start: int)
      requires Base()
      modifies this`parser, this`docs, this`prev, this`elements, this`fault, this`spot, this`cdata
      modifies pool`building, pool`all, pool`mallocs, pool.queue, pool.freeList, pool.all - pool.held
      ensures Base() && View() == Apply(conv, old(View()), DocEnd(old(parser.place), true))
      ensures parser == XmlParser(old(parser.doc) + 1, [], START)
      ensures docs == old(docs) + [Doc(start, old(parser.fed))]
      ensures fresh(pool.all - old(pool.all))
    {
      hide pool.Valid, Apply, SetRowCol;
      RestartAfter(conv, View(), parser.place);
      EndDocument();
      prev := SetRowCol(prev, parser.place);
      docs := docs + [Doc(start, parser.fed)];
      parser := XmlParser(parser.doc + 1, [], START);
      elements := 0;
    }

    /** The current document has ended where its parser reported the error; a fresh parser goes on. */
    method NextDocument()
      requires parser.fed != [] && input.Loaded() && Sync(input.docOffset + input.savedBytes + input.newBytes)
      requires input.docOffset <= parser.index <= input.docOffset + input.savedBytes + input.newBytes
      requires var o := Parse(expat, parser.doc, parser.fed, false); !o.ok && parser.index == o.index
      requires elements > 0 && depth == 0
      modifies this`parser, this`docs, this`prev, this`elements
      modifies this`fault, this`spot, this`cdata
      modifies input`newStart, input`newBytes, input`savedStart, input`savedBytes, input`docOffset, input`docStart
      modifies pool`building, pool`all, pool`mallocs, pool.queue, pool.freeList, pool.all - pool.held
      ensures input.Loaded() && input.docOffset == 0 && input.savedBytes == 0 && Sync(0)
      ensures input.newBytes == old(input.docOffset + input.savedBytes + input.newBytes) - old(parser.index)
      ensures old(parser.index) >= 1 && docs == old(docs) + [Doc(old(input.docStart), old(parser.fed))] && parser.fed == []
      ensures fresh(pool.all - old(pool.all))
    {
      hide pool.Valid, input.Loaded, Run, RunItems, Tiled, Segment, CallItems, WellBehaved, Apply, SetRowCol, Parse;
      DocumentDone(conv, expat, input.stream, docs, input.docStart, parser.fed, multi);
      hide View, Base, Flat;
      var errloc := parser.index;
      CloseDocument(input.docStart);
      input.Restart(errloc);
    }

    /** XML_Parse failed for good: what is pending is flushed, then the error is reported. */
    method ParseFailed(ghost parsed: int)
      requires Sync(parsed)
      modifies this`ending, this`fault, this`spot, this`cdata
      modifies pool`building, pool`all, pool`mallocs, pool.queue, pool.freeList, pool.all - pool.held
      ensures Told() && ending == BadParse && fault.Some?
      ensures fresh(pool.all - old(pool.all))
    {
      hide pool.Valid, FlushPending, Run, RunItems, Tiled, Segment, Flat, WellBehaved;
      RunEnds(conv, expat, docs, parser.fed, BadParse, multi);
      if cdata != [] {
        Flush();
      }
      InternalError(ParserError(Parse(expat, parser.doc, parser.fed, false).code));
      ending := BadParse;
    }

    /** The inner loop of XML_PullerNext: parse the new bytes, starting a new document as often as
        the current one turns out to have ended. */
    method ParseBlock()
      requires Sync(input.docOffset + input.savedBytes) && input.Loaded() && Set()
      modifies this`parser, this`docs, this`prev, this`ending
      modifies this`fault, this`spot, this`cdata, this`cdataKind, this`cdataBufsize, this`depth, this`elements
      modifies input`newStart, input`newBytes, input`savedStart, input`savedBytes, input`docOffset, input`docStart
      modifies pool`building, pool`all, pool`mallocs, pool.queue, pool.freeList, pool.all - pool.held
      ensures Told() && (ending == Running || (ending == BadParse && fault.Some?))
      ensures fault.None? ==> Sync(input.docOffset + input.savedBytes + input.newBytes) && input.Loaded()
      ensures Parsing() && Conducted(expat, docs, parser.fed, ending, multi)
      ensures fresh(pool.all - old(pool.all))
    {
      hide *;
      var ok := ParseFirst();
      while !ok
        invariant Parsing() && input.Loaded() && Sync(input.docOffset + input.savedBytes + input.newBytes)
        invariant Told() && ending == Running
        invariant var o := Parse(expat, |docs|, parser.fed, false); ok == o.ok && parser.index == o.index
        invariant parser.doc == |docs| && fresh(pool.all - old(pool.all))
        decreases !ok, input.savedBytes + input.newBytes, input.docOffset
      {
        var errloc := parser.index;
        Guard();
        if !multi || !(elements > 0 && depth == 0) || errloc < input.docOffset
           || errloc > input.docOffset + input.savedBytes + input.newBytes {
          ParseFailed(input.docOffset + input.savedBytes + input.newBytes);
          Concluded();
          return;
        }
        ghost var done, start, was := docs, input.docStart, parser.fed;
        ParsedSoFar();
        NextDocument();
        Anew(done, start, was);
        ok := ParseFirst();
      }
      Concluded();
    }

    /** The guard of the restart asks what it must. */
    lemma Guard()
      requires Parsing() && Sync(input.docOffset + input.savedBytes + input.newBytes)
      requires !Parse(expat, |docs|, parser.fed, false).ok && parser.index == Parse(expat, |docs|, parser.fed, false).index
      ensures Restartable(expat, |docs|, parser.fed, multi) <==>
        multi && elements > 0 && depth == 0
        && input.docOffset <= parser.index <= input.docOffset + input.savedBytes + input.newBytes
    {
      hide Run, RunItems, Tiled, Segment, FedItems, Restarted, Accepted, View, Base, Closed, PlaceOf, Parse;
      RootClosed();
    }

    lemma Concluded()
      requires Parsing() && (ending == Running || ending == BadParse)
      requires ending == Running ==> Parse(expat, |docs|, parser.fed, false).ok
      requires ending == BadParse ==>
        !Parse(expat, |docs|, parser.fed, false).ok && !Restartable(expat, |docs|, parser.fed, multi)
      ensures Conducted(expat, docs, parser.fed, ending, multi)
    {
      hide Restarted, Accepted, Restartable, Parse, PlaceOf;
    }

    lemma ParsedSoFar()
      requires Parsing()
      ensures Restarted(expat, docs, multi) && Accepted(expat, |docs|, parser.fed) && parser.fed != []
    {}

    lemma Anew(done: seq<Doc>, start: int, was: seq<bytes>)
      requires Restarted(expat, done, multi) && Accepted(expat, |done|, was) && Restartable(expat, |done|, was, multi)
      requires docs == done + [Doc(start, was)] && parser.fed == [] && input.docOffset == 0
      ensures Set()
    {
      hide Restarted, Accepted, Restartable;
      RestartMore(expat, done, start, was, multi);
    }

    /** XML_Parse on the new bytes, where the parser has no error to report. */
    method ParseFirst() returns (ok: bool)
      requires Sync(input.docOffset + input.savedBytes) && input.Loaded() && Set()
      modifies this`parser, this`fault, this`spot, this`cdata, this`cdataKind, this`cdataBufsize, this`depth, this`elements
      modifies pool`building, pool`all, pool`mallocs, pool.queue, pool.freeList, pool.all - pool.held
      ensures Parsing() && Sync(input.docOffset + input.savedBytes + input.newBytes) && Told() && ending == Running
      ensures ok == Parse(expat, |docs|, parser.fed, false).ok && parser.index == Parse(expat, |docs|, parser.fed, false).index
      ensures parser.doc == |docs| && fresh(pool.all - old(pool.all))
    {
      hide *;
      SetIs();
      ghost var was := parser.fed;
      ok := ParseChunk();
      SetMore(was);
      OneParser();
    }

    /** internal_error, where no more of the file can be parsed. */
    method Stop(f: Fault, e: Ending)
      requires Told() && ending == Running && parser.place == PlaceOf(expat, parser.doc, parser.fed)
      requires (e.ReadError? && f == ReadFailed(e.errno)) || (e.BadOffset? && f == CorruptOffset)
      modifies this`ending, this`fault, this`spot, this`fileOpen
      ensures Told() && ending == e && fault.Some? && fileOpen == (old(fileOpen) && !e.ReadError?)
      ensures View() == SetError(old(View()), f, parser.place)
      ensures View().tokens == FlushIfAny(conv, old(View())).tokens <==> NothingPending(conv, old(View()))
    {
      ErrorKeepsIff(conv, View(), f, parser.place);
      hide pool.Valid, View, Base, FlushIfAny, NothingPending, SetError, PlaceOf, Run, RunItems, Tiled, Segment, Flat, WellBehaved;
      RunEnds(conv, expat, docs, parser.fed, e, multi);
      InternalError(f);
      ending := e;
      if e.ReadError? {
        fileOpen := false;
      }
    }

    /** The rest of the loop body of XML_PullerNext: keep only the data not done with yet. */
    method AfterBlock()
      requires fault.None? && Sync(input.docOffset + input.savedBytes + input.newBytes)
      requires Parsing() && Conducted(expat, docs, parser.fed, ending, multi)
      requires input.Loaded() && 0 < input.readSize <= input.buf.Length
      modifies this`fault, this`spot, this`ending, this`fileOpen, input.buf
      modifies input`newStart, input`newBytes, input`savedStart, input`savedBytes, input`docOffset, input`buf
      ensures Told() && fileOpen && (input.buf == old(input.buf) || fresh(input.buf))
      ensures fault.None? ==> Sync(input.docOffset + input.savedBytes) && input.Ready()
      ensures ending == Running || (ending == BadOffset && fault.Some?)
      ensures Ruled()
    {
      hide pool.Valid, Run, RunItems, Tiled, Segment, Flat, WellBehaved, View, Parsing, Conducted, Ruled, PlaceOf;
      Stopping(BadOffset);
      if !multi {
        input.Forget();
      } else {
        var lastOk := parser.index;
        if lastOk < input.docOffset || lastOk > input.docOffset + input.savedBytes + input.newBytes {
          Stop(CorruptOffset, BadOffset);
        } else {
          input.Keep(lastOk);
        }
      }
      RuledIs();
    }

    /** When the course of a run allows the two endings that no parser asks for. */
    lemma Stopping(e: Ending)
      requires Told() && Conducted(expat, docs, parser.fed, Running, multi) && (e.ReadError? || e.BadOffset?)
      requires e.BadOffset? ==> Parsing()
      ensures e.ReadError? ==> Conducted(expat, docs, parser.fed, e, multi)
      ensures e.BadOffset? && multi ==>
        (Conducted(expat, docs, parser.fed, e, multi) <==>
         !(input.docOffset <= PlaceOf(expat, |docs|, parser.fed).index <= |Flat(parser.fed)|))
      ensures parser.doc == |docs|
    {
      OneParser();
      hide Told, Restarted, Accepted, Flat;
    }

    lemma RuledIs()
      ensures Ruled() <==>
        && Conducted(expat, docs, parser.fed, ending, multi)
        && (ending.ReadError? ==> input.Refused(ending.errno))
        && (fault.None? && fileOpen && multi ==> input.docOffset == PlaceOf(expat, |docs|, parser.fed).index)
    {}

    /** The final XML_Parse, and the flush after it. */
    method FinalParse() returns (o: Outcome)
      requires Base()
      modifies this`parser
      modifies this`fault, this`spot, this`cdata, this`cdataKind, this`cdataBufsize, this`depth, this`elements
      modifies pool`building, pool`all, pool`mallocs, pool.queue, pool.freeList, pool.all - pool.held
      ensures o == Parse(expat, old(parser.doc), old(parser.fed) + [[]], true)
      ensures Base() && View() == FlushIfAny(conv, Run(conv, old(View()), CallItems(o.calls)))
      ensures parser == old(parser).(place := o.place)
      ensures fresh(pool.all - old(pool.all))
    {
      hide pool.Valid, Run, FlushPending, CallItems;
      o := Parse(expat, parser.doc, parser.fed + [[]], true);
      RunCalls(o.calls);
      parser := parser.(place := o.place);
      if cdata != [] {
        Flush();
      }
    }

    /** End of file: the parser is told, what is pending is flushed, and the document is ended. */
    method FinishAtEof()
      requires fault.None? && fileOpen && Told() && ending == Running
      modifies this`parser, this`ending, this`fileOpen
      modifies this`fault, this`spot, this`cdata, this`cdataKind, this`cdataBufsize, this`depth, this`elements
      modifies pool`building, pool`all, pool`mallocs, pool.queue, pool.freeList, pool.all - pool.held
      ensures Told() && ending == AtEof && !fileOpen && parser.fed == old(parser.fed)
      ensures fresh(pool.all - old(pool.all))
    {
      hide pool.Valid, Run, RunItems, Tiled, Segment, WellBehaved, Apply, FlushIfAny, CallItems, SetError, View, Base;
      RunEnds(conv, expat, docs, parser.fed, AtEof, multi);
      fileOpen := false;
      var o := FinalParse();
      Conclude(o);
      ending := AtEof;
    }

    /** The parser's last word: its error, or the end of the document. */
    method Conclude(o: Outcome)
      requires Base() && parser.place == o.place
      modifies this`fault, this`spot, this`cdata
      modifies pool`building, pool`all, pool`mallocs, pool.queue, pool.freeList, pool.all - pool.held
      ensures Base() && fresh(pool.all - old(pool.all))
      ensures View() ==
        if !o.ok then SetError(old(View()), ParserError(o.code), o.place)
        else if multi then Apply(conv, old(View()), DocEnd(o.place, false)) else old(View())
    {
      hide pool.Valid, Insert, SetError;
      if !o.ok {
        InternalError(ParserError(o.code));
      } else if multi {
        EndDocument();
      }
    }

    /** One round of the outer loop of XML_PullerNext: read a block and parse it. */
    method Round()
      requires Valid() && fault.None? && fileOpen
      modifies this`parser, this`docs, this`prev, this`ending, this`fileOpen
      modifies this`fault, this`spot, this`cdata, this`cdataKind, this`cdataBufsize, this`depth, this`elements
      modifies pool`building, pool`all, pool`mallocs, pool.queue, pool.freeList, pool.all - pool.held
      modifies input, input.buf
      ensures Valid() && pool.Valid() && fresh(pool.all - old(pool.all))
      ensures input.buf == old(input.buf) || fresh(input.buf)
      ensures input.pos >= old(input.pos) && (fault.None? && fileOpen ==> old(input.pos) < input.pos <= |input.stream|)
      ensures fileOpen ==> old(fileOpen)
    {
      hide *;
      Awaiting();
      input.ReadBlock();
      if input.newBytes < 0 {
        var e := input.newBytes;
        Stopping(ReadError(e));
        Stop(ReadFailed(e), ReadError(e));
      } else if input.newBytes == 0 {
        FinishAtEof();
      } else {
        TakeBlock();
      }
      ValidIs();
      RuledIs();
      WhenValid();
    }

    lemma WhenValid()
      ensures Valid() ==> pool.Valid() && (fault.None? && fileOpen ==> input.pos <= |input.stream|)
    {
      hide Run, RunItems, Tiled, Segment, Flat, WellBehaved, View, PlaceOf, Conducted, pool.Valid;
    }

    /** A block that was read is parsed, and the window made ready for the next one. */
    method TakeBlock()
      requires Sync(input.docOffset + input.savedBytes) && input.Loaded() && Set()
      requires 0 < input.readSize <= input.buf.Length && input.newBytes > 0 && fileOpen
      modifies this`parser, this`docs, this`prev, this`ending, this`fileOpen
      modifies this`fault, this`spot, this`cdata, this`cdataKind, this`cdataBufsize, this`depth, this`elements
      modifies pool`building, pool`all, pool`mallocs, pool.queue, pool.freeList, pool.all - pool.held
      modifies input`newStart, input`newBytes, input`savedStart, input`savedBytes, input`docOffset, input`docStart
      modifies input`buf, input.buf
      ensures Valid() && fresh(pool.all - old(pool.all)) && fileOpen
      ensures input.buf == old(input.buf) || fresh(input.buf)
      ensures input.pos == old(input.pos) && pool.Valid() && (fault.None? ==> input.pos <= |input.stream|)
    {
      hide *;
      ParseBlock();
      if fault.None? {
        AfterBlock();
      }
      ValidIs();
      RuledIs();
      WhenValid();
    }

    /** The parts of Valid. */
    lemma ValidIs()
      ensures Valid() <==>
        && Told()
        && (fault.None? && fileOpen ==> Sync(input.docOffset + input.savedBytes) && input.Ready())
        && (!fileOpen ==> ending.AtEof? || ending.ReadError?)
        && (ending != Running && ending != AtEof ==> fault.Some?)
        && (ending.AtEof? ==> input.docStart + |Flat(parser.fed)| == |input.stream|)
        && Ruled()
    {
      hide Told, Sync, Ruled, Flat, input.Ready;
    }

    /** Before a read, when the run may go on, or end if nothing is read. */
    lemma Awaiting()
      requires Valid() && fault.None? && fileOpen
      ensures Told() && Sync(input.docOffset + input.savedBytes) && input.Ready() && Ruled() && ending == Running
      ensures 0 < input.readSize <= input.buf.Length && input.Loaded() && pool.Valid()
      ensures Conducted(expat, docs, parser.fed, Running, multi) && Conducted(expat, docs, parser.fed, AtEof, multi) && Set()
      ensures input.docStart + input.docOffset + input.savedBytes == input.pos && |Flat(parser.fed)| == input.docOffset + input.savedBytes
      ensures parser.place == PlaceOf(expat, parser.doc, parser.fed)
    {
      hide Run, RunItems, Tiled, Segment, Flat, WellBehaved, View, PlaceOf, Restarted, Accepted, pool.Valid;
      assert Conducted(expat, docs, parser.fed, Running, multi);
    }

    /** The token lent by the last call is freed. */
    method Recycle()
      requires Valid()
      modifies pool`building, pool`toBeFreed, pool.freeList, pool.all - pool.held
      ensures Valid() && pool.Valid() && pool.toBeFreed == null
      ensures fault.None? && fileOpen ==> input.pos <= |input.stream|
    {
      hide pool.Valid, View, Run, RunItems, Tiled, Segment, Flat, WellBehaved, PlaceOf;
      pool.Recycle();
    }

    /** The first pending token is delivered. */
    method Deliver() returns (tok: T.Node?)
      requires Valid() && !pool.Empty() && pool.toBeFreed == null
      modifies this`delivered, pool`toBeFreed, pool.queue, pool.all - pool.held
      ensures Valid() && tok != null && tok == pool.toBeFreed && tok in pool.all && tok !in pool.held
      ensures delivered == old(delivered) + [tok.val] && old(pool.queue.vals) == [tok.val] + pool.queue.vals
    {
      hide pool.Valid, pool.Empty, Run, RunItems, Tiled, Segment, Flat, WellBehaved, input.Loaded, PlaceOf;
      tok := pool.Lend();
      delivered := delivered + [tok.val];
      assert old(delivered) + ([tok.val] + pool.queue.vals) == delivered + pool.queue.vals;
    }

    /** XML_PullerNext: the next token, or null when there will be none. */
    method Next() returns (tok: T.Node?)
      requires Valid()
      modifies this, input, input.buf
      modifies pool`building, pool`all, pool`mallocs, pool`toBeFreed, pool.queue, pool.freeList, pool.all - pool.held
      ensures Valid() && fresh(pool.all - old(pool.all)) && (input.buf == old(input.buf) || fresh(input.buf))
      ensures tok == pool.toBeFreed && (tok != null ==> tok in pool.all && tok !in pool.held)
      ensures tok != null ==> delivered == old(delivered) + [tok.val]
      ensures tok == null ==> delivered == old(delivered) && pool.queue.vals == [] && (fault.Some? || !fileOpen)
      ensures old(pool.queue.vals) != [] ==> tok != null
      ensures old(pool.queue.vals) != [] || old(fault.Some? || !fileOpen) ==>
        fault == old(fault) && spot == old(spot) && ending == old(ending) && input.pos == old(input.pos)
        && fileOpen == old(fileOpen)
        && (tok != null ==> |pool.queue.vals| < |old(pool.queue.vals)|)
      ensures input.pos >= old(input.pos) && (fileOpen ==> old(fileOpen))
      ensures old(pool.queue.vals) == [] && fault.None? && fileOpen ==> input.pos > old(input.pos)
    {
      hide *;
      Recycle();
      while pool.Empty()
        invariant Valid() && pool.Valid() && pool.toBeFreed == null && delivered == old(delivered)
        invariant fresh(pool.all - old(pool.all)) && (input.buf == old(input.buf) || fresh(input.buf))
        invariant input.pos >= old(input.pos) && (fileOpen ==> old(fileOpen))
        invariant fault.None? && fileOpen ==> input.pos <= |input.stream|
        invariant old(pool.queue.vals) != [] || old(fault.Some? || !fileOpen) ==>
          fault == old(fault) && spot == old(spot) && ending == old(ending) && input.pos == old(input.pos)
          && fileOpen == old(fileOpen) && pool.queue.vals == old(pool.queue.vals)
        invariant fault.None? && fileOpen && pool.queue.vals != old(pool.queue.vals) ==> input.pos > old(input.pos)
        decreases fault.None? && fileOpen, |input.stream| - input.pos
      {
        if fault.Some? || !fileOpen {
          return null;
        }
        Round();
      }
      tok := Deliver();
    }

    /** XML_PullerNext_m: the same, but the client takes the token over. */
    method NextKept() returns (tok: T.Node?)
      requires Valid()
      modifies this, input, input.buf
      modifies pool`building, pool`all, pool`mallocs, pool`toBeFreed, pool`held
      modifies pool.queue, pool.freeList, pool.all - pool.held
      ensures Valid() && pool.toBeFreed == null
      ensures tok != null ==> pool.held == old(pool.held) + {tok} && delivered == old(delivered) + [tok.val]
      ensures tok == null ==> pool.held == old(pool.held) && delivered == old(delivered)
    {
      hide pool.Valid, this.Valid;
      tok := Next();
      Handover();
    }

    /** The client keeps the token it was lent. */
    method Handover()
      requires Valid()
      modifies pool`toBeFreed, pool`held, (if pool.toBeFreed == null then {} else {pool.toBeFreed})`place
      ensures Valid() && pool.toBeFreed == null
      ensures pool.held == old(pool.held) + (if old(pool.toBeFreed) == null then {} else {old(pool.toBeFreed)})
    {
      hide View, Run, RunItems, Tiled, Segment, Flat, WellBehaved, pool.Valid, PlaceOf, input.Loaded;
      pool.Give();
    }

    /** XML_PullerFreeTokenData, called by the client on a token it took over. */
    method FreeTokenData(tok: T.Node)
      requires Valid() && tok in pool.held
      modifies pool`building, pool`held, pool.freeList, tok
      ensures Valid() && pool.held == old(pool.held) - {tok}
    {
      hide View, Run, RunItems, Tiled, Segment, Flat, WellBehaved, pool.Valid, PlaceOf;
      pool.FreeHeld(tok);
    }

    /** Whatever has been delivered or is waiting is the run's events, coalesced and converted, up to
        the first that cannot be converted; the fault is that failure or the one that ended the run. */
    lemma DeliveredTokens()
      requires Told()
      ensures var raws := Coalesce(RunItems(expat, docs, parser.fed, ending, multi), Origin(1, 1));
        var good := Converted(conv, raws);
        && delivered + pool.queue.vals == good
        && fault == if |good| < |raws| then Some(IconvFailed)
                    else Reported(RunItems(expat, docs, parser.fed, ending, multi))
    {
      hide Run, RunItems, Coalesce, Converted, Reported;
      RunDelivers(conv, INIT, RunItems(expat, docs, parser.fed, ending, multi));
    }

    /** When the run was cut short, every token complete by then was kept exactly when it was a parse error
        that did it, or no data was pending: a read error or a corrupt offset drops pending data. */
    lemma DroppedIff()
      requires Told() && (ending.BadParse? || ending.ReadError? || ending.BadOffset?)
      ensures var s := Cut(conv, expat, docs, parser.fed, multi);
        delivered + pool.queue.vals == FlushIfAny(conv, s).tokens <==> ending.BadParse? || NothingPending(conv, s)
    {
      hide Run, RunItems, FlushIfAny, NothingPending;
      KeptIff(conv, expat, docs, parser.fed, ending, multi);
    }

    /** A client that asks until it gets null has then seen every token of the run; and when no error
        is set, the whole file has been parsed, document after document. */
    method Drain() returns (toks: seq<Token>)
      requires Valid() && delivered == []
      modifies this, input, input.buf
      modifies pool`building, pool`all, pool`mallocs, pool`toBeFreed, pool.queue, pool.freeList, pool.all - pool.held
      ensures Valid()
      ensures var items := RunItems(expat, docs, parser.fed, ending, multi);
        var raws := Coalesce(items, Origin(1, 1));
        && toks == Converted(conv, raws)
        && fault == if |toks| < |raws| then Some(IconvFailed) else Verdict(expat, |docs|, parser.fed, ending)
      ensures Conducted(expat, docs, parser.fed, ending, multi) && (ending.ReadError? ==> input.Refused(ending.errno))
      ensures ending.BadParse? || ending.ReadError? || ending.BadOffset? ==>
        var s := Cut(conv, expat, docs, parser.fed, multi);
        (toks == FlushIfAny(conv, s).tokens <==> ending.BadParse? || NothingPending(conv, s))
      ensures fault.None? ==> ending == AtEof && Flat(parser.fed) == input.stream[input.docStart..]
      ensures Tiled(expat, input.stream, docs, input.docStart)
    {
      hide *;
      toks := [];
      assert [] + [] == toks;
      var tok := Next();
      while tok != null
        invariant Valid() && delivered == toks + (if tok == null then [] else [tok.val])
        invariant tok == null ==> pool.queue.vals == [] && (fault.Some? || !fileOpen)
        invariant fresh(pool.all - old(pool.all)) && (input.buf == old(input.buf) || fresh(input.buf))
        decreases fault.None? && fileOpen, |input.stream| - input.pos, |pool.queue.vals|, tok != null
      {
        toks := toks + [tok.val];
        tok := Next();
        WhenValid();
      }
      assert toks + [] == toks;
      Drained(toks);
    }

    lemma Drained(toks: seq<Token>)
      requires Valid() && delivered == toks && pool.queue.vals == [] && (fault.Some? || !fileOpen)
      ensures var items := RunItems(expat, docs, parser.fed, ending, multi);
        var raws := Coalesce(items, Origin(1, 1));
        && toks == Converted(conv, raws)
        && fault == if |toks| < |raws| then Some(IconvFailed) else Verdict(expat, |docs|, parser.fed, ending)
      ensures Conducted(expat, docs, parser.fed, ending, multi) && (ending.ReadError? ==> input.Refused(ending.errno))
      ensures ending.BadParse? || ending.ReadError? || ending.BadOffset? ==>
        var s := Cut(conv, expat, docs, parser.fed, multi);
        (toks == FlushIfAny(conv, s).tokens <==> ending.BadParse? || NothingPending(conv, s))
      ensures fault.None? ==> ending == AtEof && Flat(parser.fed) == input.stream[input.docStart..]
      ensures Tiled(expat, input.stream, docs, input.docStart)
    {
      hide View, Run, RunItems, Tiled, Flat, WellBehaved, Coalesce, Converted, Reported, Base, PlaceOf, Cut, FlushIfAny,
        NothingPending, Conducted, Verdict, pool.Valid;
      assert delivered + pool.queue.vals == toks;
      DeliveredTokens();
      ReportedIs(expat, docs, parser.fed, ending, multi);
      if ending.BadParse? || ending.ReadError? || ending.BadOffset? {
        DroppedIff();
      }
      assert input.stream[input.docStart..|input.stream|] == input.stream[input.docStart..];
    }
  }
}
