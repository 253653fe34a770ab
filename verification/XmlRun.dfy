/** A whole run of the puller as values: Expat as an oracle, the documents found in the file,
    and the list of everything that happened to the tokens. */
module XmlRun {
  import opened Common
  import opened XmlEvents

  /** One XML_Parse call: its status, its callbacks, and where the parser then stands. */
  datatype Outcome = Outcome(ok: bool, calls: seq<Callback>, place: Place, code: int) {
    const index: int := place.index
  }

  /** What the d-th parser answers when it has been fed these chunks, the last one just now. */
  type Expat = (nat, seq<bytes>, bool) -> Outcome

  function Parse(x: Expat, d: nat, fed: seq<bytes>, final: bool): Outcome { x(d, fed, final) }

  /** An XML_Parser: which one it is, what it was fed, and where it stands. */
  datatype XmlParser = XmlParser(doc: nat, fed: seq<bytes>, place: Place) {
    const index: int := place.index
  }

  const START: Place := Place(1, 0, 0, 0)

  /** A document: where it begins in the file, and the chunks its parser was fed. */
  datatype Doc = Doc(start: int, fed: seq<bytes>)

  /** How a run ended, if it has. */
  datatype Ending = Running | BadParse | AtEof | ReadError(errno: int) | BadOffset

  function PlaceOf(x: Expat, d: nat, fed: seq<bytes>): Place {
    if fed == [] then START else Parse(x, d, fed, false).place
  }

  ghost function CallItems(calls: seq<Callback>): seq<Item> {
    if calls == [] then [] else [Call(calls[0])] + CallItems(calls[1..])
  }

  /** The callbacks of one parser over the chunks it was fed. */
  ghost function FedItems(x: Expat, d: nat, fed: seq<bytes>): seq<Item>
    decreases |fed|
  {
    if fed == [] then []
    else FedItems(x, d, fed[..|fed| - 1]) + CallItems(Parse(x, d, fed, false).calls)
  }

  /** The callbacks of the finished documents, with END_DOCUMENT and a restart after each. */
  ghost function DocItems(x: Expat, docs: seq<Doc>): seq<Item>
    decreases |docs|
  {
    if docs == [] then []
    else
      var d := |docs| - 1;
      DocItems(x, docs[..d]) + FedItems(x, d, docs[d].fed) + [DocEnd(PlaceOf(x, d, docs[d].fed), true)]
  }

  ghost function EndItems(x: Expat, d: nat, fed: seq<bytes>, ending: Ending, multi: bool): seq<Item> {
    match ending
    case Running => []
    case BadParse => [Flush, Fail(ParserError(Parse(x, d, fed, false).code), PlaceOf(x, d, fed))]
    case AtEof =>
      var o := Parse(x, d, fed + [[]], true);
      CallItems(o.calls) + [Flush] +
      (if !o.ok then [Fail(ParserError(o.code), o.place)] else if multi then [DocEnd(o.place, false)] else [])
    case ReadError(e) => [Fail(ReadFailed(e), PlaceOf(x, d, fed))]
    case BadOffset => [Fail(CorruptOffset, PlaceOf(x, d, fed))]
  }

  ghost function RunItems(x: Expat, docs: seq<Doc>, fed: seq<bytes>, ending: Ending, multi: bool): seq<Item> {
    DocItems(x, docs) + FedItems(x, |docs|, fed) + EndItems(x, |docs|, fed, ending, multi)
  }

  // ------------------------------------------------------------ the end of a document

  ghost function Opens(items: seq<Item>): nat {
    if items == [] then 0
    else (if items[0].Call? && items[0].cb.event.StartEvent? then 1 else 0) + Opens(items[1..])
  }

  ghost function Closes(items: seq<Item>): nat {
    if items == [] then 0
    else (if items[0].Call? && items[0].cb.event.EndEvent? then 1 else 0) + Closes(items[1..])
  }

  /** The root element has been opened and closed. */
  ghost predicate Closed(items: seq<Item>) { Opens(items) > 0 && Opens(items) == Closes(items) }

  /** Assumed of Expat: an error after a closed root is not reported at the document's first byte. */
  ghost predicate WellBehaved(x: Expat) {
    forall d, fed :: !Parse(x, d, fed, false).ok && Closed(FedItems(x, d, fed)) ==> Parse(x, d, fed, false).index >= 1
  }

  /** The chunks are the file, from start on, contiguously. */
  ghost predicate Segment(stream: bytes, start: int, fed: seq<bytes>) {
    0 <= start && start + |Flat(fed)| <= |stream| && stream[start..start + |Flat(fed)|] == Flat(fed)
  }

  /** The finished documents tile the file up to start: the first begins at byte 0; each parser was
      fed one contiguous stretch from its document's first byte; it stopped with an error after the
      root was closed, and the next document begins at exactly the byte the error was reported at. */
  ghost predicate Tiled(x: Expat, stream: bytes, docs: seq<Doc>, start: int)
    decreases |docs|
  {
    if docs == [] then start == 0
    else
      var d := |docs| - 1;
      var o := Parse(x, d, docs[d].fed, false);
      && Tiled(x, stream, docs[..d], docs[d].start)
      && Segment(stream, docs[d].start, docs[d].fed)
      && !o.ok && Closed(FedItems(x, d, docs[d].fed))
      && 1 <= o.index <= |Flat(docs[d].fed)|
      && start == docs[d].start + o.index
  }

  lemma {:induction false} OpensAppend(xs: seq<Item>, ys: seq<Item>)
    ensures Opens(xs + ys) == Opens(xs) + Opens(ys) && Closes(xs + ys) == Closes(xs) + Closes(ys)
  {
    if xs == [] {
      assert xs + ys == ys;
    } else {
      assert (xs + ys)[1..] == xs[1..] + ys;
      OpensAppend(xs[1..], ys);
    }
  }

  /** depth and elements count the callbacks, whatever happens to the tokens. */
  lemma {:induction false} RunCounts(conv: Converter, s: State, items: seq<Item>)
    requires forall i :: 0 <= i < |items| ==> items[i].Call?
    ensures Run(conv, s, items).depth == s.depth + Opens(items) - Closes(items)
    ensures Run(conv, s, items).elements == s.elements + Opens(items)
    decreases |items|
  {
    if items != [] {
      assert items[0].Call?;
      StepCounts(conv, s, items[0].cb);
      hide Handle;
      RunCounts(conv, Apply(conv, s, items[0]), items[1..]);
    }
  }

  lemma StepCounts(conv: Converter, s: State, cb: Callback)
    ensures var t := Handle(conv, s, cb);
      && t.depth == s.depth + (if cb.event.StartEvent? then 1 else if cb.event.EndEvent? then -1 else 0)
      && t.elements == s.elements + (if cb.event.StartEvent? then 1 else 0)
  {}

  lemma {:induction false} CallsOnly(calls: seq<Callback>)
    ensures forall i :: 0 <= i < |CallItems(calls)| ==> CallItems(calls)[i].Call?
  {
    if calls != [] {
      CallsOnly(calls[1..]);
    }
  }

  lemma {:induction false} FedCallsOnly(x: Expat, d: nat, fed: seq<bytes>)
    ensures forall i :: 0 <= i < |FedItems(x, d, fed)| ==> FedItems(x, d, fed)[i].Call?
    decreases |fed|
  {
    if fed != [] {
      FedCallsOnly(x, d, fed[..|fed| - 1]);
      CallsOnly(Parse(x, d, fed, false).calls);
    }
  }

  /** After finished documents the counters are back to zero. */
  lemma {:induction false} DocCounts(conv: Converter, x: Expat, stream: bytes, docs: seq<Doc>, start: int)
    requires Tiled(x, stream, docs, start)
    ensures Run(conv, INIT, DocItems(x, docs)).depth == 0
    ensures Run(conv, INIT, DocItems(x, docs)).elements == 0
    decreases |docs|
  {
    if docs != [] {
      var d := |docs| - 1;
      DocCounts(conv, x, stream, docs[..d], docs[d].start);
      var before, own := DocItems(x, docs[..d]), FedItems(x, d, docs[d].fed);
      var last := [DocEnd(PlaceOf(x, d, docs[d].fed), true)];
      FedCallsOnly(x, d, docs[d].fed);
      RunAppend(conv, INIT, before, own);
      RunAppend(conv, INIT, before + own, last);
      var s := Run(conv, INIT, before + own);
      RunCounts(conv, Run(conv, INIT, before), own);
      assert Run(conv, s, last) == Apply(conv, s, last[0]);
    }
  }

  /** In the current document, depth and elements are those of its own callbacks. */
  lemma CurrentCounts(conv: Converter, x: Expat, stream: bytes, docs: seq<Doc>, start: int, fed: seq<bytes>,
                      multi: bool)
    requires Tiled(x, stream, docs, start)
    ensures var own := FedItems(x, |docs|, fed);
      var s := Run(conv, INIT, RunItems(x, docs, fed, Running, multi));
      s.depth == Opens(own) - Closes(own) && s.elements == Opens(own)
  {
    var own := FedItems(x, |docs|, fed);
    DocCounts(conv, x, stream, docs, start);
    FedCallsOnly(x, |docs|, fed);
    RunAppend(conv, INIT, DocItems(x, docs), own);
    RunCounts(conv, Run(conv, INIT, DocItems(x, docs)), own);
    assert RunItems(x, docs, fed, Running, multi) == DocItems(x, docs) + own;
  }

  /** When a parser stops after a closed root, its document joins the finished ones. */
  lemma DocumentDone(conv: Converter, x: Expat, stream: bytes, docs: seq<Doc>, start: int, fed: seq<bytes>, multi: bool)
    requires Tiled(x, stream, docs, start) && Segment(stream, start, fed) && WellBehaved(x)
    requires fed != []
    requires var o := Parse(x, |docs|, fed, false); !o.ok && o.index <= |Flat(fed)|
    requires var s := Run(conv, INIT, RunItems(x, docs, fed, Running, multi)); s.elements > 0 && s.depth == 0
    ensures var o := Parse(x, |docs|, fed, false);
      && o.index >= 1
      && Tiled(x, stream, docs + [Doc(start, fed)], start + o.index)
      && Segment(stream, start + o.index, []) && |Flat<byte>([])| == 0
      && Run(conv, INIT, RunItems(x, docs + [Doc(start, fed)], [], Running, multi)) ==
         Apply(conv, Run(conv, INIT, RunItems(x, docs, fed, Running, multi)), DocEnd(o.place, true))
  {
    CurrentCounts(conv, x, stream, docs, start, fed, multi);
    RestartItem(conv, x, docs, Doc(start, fed), multi);
    hide Apply, Parse, RunItems, Run;
    assert (docs + [Doc(start, fed)])[..|docs|] == docs;
  }

  lemma RestartItem(conv: Converter, x: Expat, docs: seq<Doc>, doc: Doc, multi: bool)
    requires doc.fed != []
    ensures Run(conv, INIT, RunItems(x, docs + [doc], [], Running, multi)) ==
            Apply(conv, Run(conv, INIT, RunItems(x, docs, doc.fed, Running, multi)),
                  DocEnd(Parse(x, |docs|, doc.fed, false).place, true))
  {
    var items := RunItems(x, docs, doc.fed, Running, multi);
    var last := [DocEnd(Parse(x, |docs|, doc.fed, false).place, true)];
    assert (docs + [doc])[..|docs|] == docs;
    assert RunItems(x, docs + [doc], [], Running, multi) == items + last;
    hide RunItems, Apply;
    RunAppend(conv, INIT, items, last);
    assert Run(conv, Run(conv, INIT, items), last) == Apply(conv, Run(conv, INIT, items), last[0]);
  }

  /** One more chunk fed to the current parser. */
  lemma ChunkFed(conv: Converter, x: Expat, stream: bytes, docs: seq<Doc>, start: int, fed: seq<bytes>, chunk: bytes,
                 multi: bool)
    requires Segment(stream, start, fed)
    requires var end := start + |Flat(fed)|; end + |chunk| <= |stream| && chunk == stream[end..end + |chunk|]
    ensures Segment(stream, start, fed + [chunk]) && |Flat(fed + [chunk])| == |Flat(fed)| + |chunk|
    ensures Run(conv, INIT, RunItems(x, docs, fed + [chunk], Running, multi)) ==
            Run(conv, Run(conv, INIT, RunItems(x, docs, fed, Running, multi)),
                CallItems(Parse(x, |docs|, fed + [chunk], false).calls))
  {
    FlatSnoc(fed, chunk);
    SegmentGrows(stream, start, Flat(fed), chunk);
    hide Flat;
    var items, calls := RunItems(x, docs, fed, Running, multi), CallItems(Parse(x, |docs|, fed + [chunk], false).calls);
    ItemsGrow(x, docs, fed, chunk, multi);
    hide *;
    RunAppend(conv, INIT, items, calls);
  }

  lemma SegmentGrows(stream: bytes, start: int, done: bytes, chunk: bytes)
    requires 0 <= start && start + |done| + |chunk| <= |stream| && stream[start..start + |done|] == done
    requires chunk == stream[start + |done|..start + |done| + |chunk|]
    ensures stream[start..start + |done + chunk|] == done + chunk
  {}

  lemma ItemsGrow(x: Expat, docs: seq<Doc>, fed: seq<bytes>, chunk: bytes, multi: bool)
    ensures RunItems(x, docs, fed + [chunk], Running, multi) ==
      RunItems(x, docs, fed, Running, multi) + CallItems(Parse(x, |docs|, fed + [chunk], false).calls)
  {
    assert (fed + [chunk])[..|fed|] == fed;
    hide CallItems, DocItems, Parse;
  }

  /** What each way of ending does to the state. */
  lemma RunEnds(conv: Converter, x: Expat, docs: seq<Doc>, fed: seq<bytes>, ending: Ending, multi: bool)
    ensures var s := Run(conv, INIT, RunItems(x, docs, fed, Running, multi));
      Run(conv, INIT, RunItems(x, docs, fed, ending, multi)) == Ended(conv, x, |docs|, fed, ending, multi, s)
  {
    var items, last := RunItems(x, docs, fed, Running, multi), EndItems(x, |docs|, fed, ending, multi);
    assert RunItems(x, docs, fed, ending, multi) == items + last;
    hide *;
    RunAppend(conv, INIT, items, last);
    EndsRun(conv, x, |docs|, fed, ending, multi, Run(conv, INIT, items));
  }

  lemma EndsRun(conv: Converter, x: Expat, d: nat, fed: seq<bytes>, ending: Ending, multi: bool, s: State)
    ensures Run(conv, s, EndItems(x, d, fed, ending, multi)) == Ended(conv, x, d, fed, ending, multi, s)
  {
    hide SetError, FlushIfAny, Parse, PlaceOf, Insert, Handle;
    var last := EndItems(x, d, fed, ending, multi);
    match ending
    case Running => assert Run(conv, s, []) == s;
    case BadParse => RunTwo(conv, s, last[0], last[1]);
    case AtEof => EofRun(conv, Parse(x, d, fed + [[]], true), multi, s);
    case ReadError(_) => RunTwo(conv, s, last[0], last[0]);
    case BadOffset => RunTwo(conv, s, last[0], last[0]);
  }

  lemma EofRun(conv: Converter, o: Outcome, multi: bool, s: State)
    ensures var end := if !o.ok then [Fail(ParserError(o.code), o.place)] else if multi then [DocEnd(o.place, false)] else [];
      var t := FlushIfAny(conv, Run(conv, s, CallItems(o.calls)));
      Run(conv, s, CallItems(o.calls) + [Flush] + end) == if end == [] then t else Apply(conv, t, end[0])
  {
    var end := if !o.ok then [Fail(ParserError(o.code), o.place)] else if multi then [DocEnd(o.place, false)] else [];
    var calls := CallItems(o.calls);
    var u := Run(conv, s, calls);
    hide SetError, FlushIfAny, Insert, Handle, CallItems;
    RunAppend(conv, s, calls, [Flush]);
    RunAppend(conv, s, calls + [Flush], end);
    RunTwo(conv, u, Flush, Flush);
    if end == [] {
      assert calls + [Flush] + end == calls + [Flush];
    } else {
      RunTwo(conv, FlushIfAny(conv, u), end[0], end[0]);
    }
  }

  ghost function Ended(conv: Converter, x: Expat, d: nat, fed: seq<bytes>, ending: Ending, multi: bool, s: State): State {
    match ending
    case Running => s
    case BadParse =>
      SetError(FlushIfAny(conv, s), ParserError(Parse(x, d, fed, false).code), PlaceOf(x, d, fed))
    case AtEof =>
      var o := Parse(x, d, fed + [[]], true);
      var t := FlushIfAny(conv, Run(conv, s, CallItems(o.calls)));
      if !o.ok then SetError(t, ParserError(o.code), o.place)
      else if multi then Apply(conv, t, DocEnd(o.place, false)) else t
    case ReadError(e) => SetError(s, ReadFailed(e), PlaceOf(x, d, fed))
    case BadOffset => SetError(s, CorruptOffset, PlaceOf(x, d, fed))
  }

  // ------------------------------------------------------------ when a run goes on, and when it ends

  /** Every chunk but the last was taken without an error. */
  ghost predicate Accepted(x: Expat, d: nat, fed: seq<bytes>) {
    forall k :: 0 < k < |fed| ==> Parse(x, d, fed[..k], false).ok
  }

  /** The parser has reported an error, and a new document may start there: several are wanted, the root is
      closed, and the place of the error lies behind what is done with and within what was read. */
  ghost predicate Restartable(x: Expat, d: nat, fed: seq<bytes>, multi: bool) {
    && fed != [] && !Parse(x, d, fed, false).ok
    && multi && Closed(FedItems(x, d, fed))
    && PlaceOf(x, d, fed[..|fed| - 1]).index <= Parse(x, d, fed, false).index <= |Flat(fed)|
  }

  /** Each finished document ended where a new one could start. */
  ghost predicate Restarted(x: Expat, docs: seq<Doc>, multi: bool) {
    forall d :: 0 <= d < |docs| ==> Accepted(x, d, docs[d].fed) && Restartable(x, d, docs[d].fed, multi)
  }

  /** The current parser has no error to report. */
  ghost predicate Fine(x: Expat, d: nat, fed: seq<bytes>) { fed == [] || Parse(x, d, fed, false).ok }

  /** What each ending says of the current document. */
  ghost predicate EndsFor(x: Expat, d: nat, fed: seq<bytes>, ending: Ending, multi: bool) {
    match ending
    case BadParse => fed != [] && !Parse(x, d, fed, false).ok && !Restartable(x, d, fed, multi)
    case BadOffset =>
      && fed != [] && Parse(x, d, fed, false).ok && multi
      && !(PlaceOf(x, d, fed[..|fed| - 1]).index <= Parse(x, d, fed, false).index <= |Flat(fed)|)
    case _ => Fine(x, d, fed)
  }

  /** The course of a run: each document but the last ended where a new one could start, and the last one as
      its ending says. */
  ghost predicate Conducted(x: Expat, docs: seq<Doc>, fed: seq<bytes>, ending: Ending, multi: bool) {
    Restarted(x, docs, multi) && Accepted(x, |docs|, fed) && EndsFor(x, |docs|, fed, ending, multi)
  }

  lemma AcceptMore(x: Expat, d: nat, fed: seq<bytes>, chunk: bytes)
    requires Accepted(x, d, fed) && Fine(x, d, fed)
    ensures Accepted(x, d, fed + [chunk]) && (fed + [chunk])[..|fed|] == fed
  {
    forall k | 0 < k < |fed + [chunk]| ensures Parse(x, d, (fed + [chunk])[..k], false).ok {
      assert (fed + [chunk])[..k] == fed[..k];
      assert k == |fed| ==> fed[..k] == fed;
    }
    hide Parse;
  }

  lemma RestartMore(x: Expat, docs: seq<Doc>, start: int, fed: seq<bytes>, multi: bool)
    requires Restarted(x, docs, multi) && Accepted(x, |docs|, fed) && Restartable(x, |docs|, fed, multi)
    ensures Restarted(x, docs + [Doc(start, fed)], multi) && Accepted(x, |docs| + 1, []) && Fine(x, |docs| + 1, [])
  {
    hide Accepted, Restartable;
    forall d | 0 <= d <= |docs| ensures var all := docs + [Doc(start, fed)];
      Accepted(x, d, all[d].fed) && Restartable(x, d, all[d].fed, multi)
    {
      assert d < |docs| ==> (docs + [Doc(start, fed)])[d] == docs[d];
    }
    NoneAccepted(x, |docs| + 1);
  }

  lemma NoneAccepted(x: Expat, d: nat)
    ensures Accepted(x, d, [])
  {}

  /** The error an ending leaves. */
  ghost function Verdict(x: Expat, d: nat, fed: seq<bytes>, ending: Ending): Option<Fault> {
    match ending
    case Running => None
    case BadParse => Some(ParserError(Parse(x, d, fed, false).code))
    case AtEof =>
      var o := Parse(x, d, fed + [[]], true);
      if o.ok then None else Some(ParserError(o.code))
    case ReadError(e) => Some(ReadFailed(e))
    case BadOffset => Some(CorruptOffset)
  }

  lemma {:induction false} NoneReported(xs: seq<Item>, ys: seq<Item>)
    requires forall i :: 0 <= i < |xs| ==> !xs[i].Fail?
    ensures Reported(xs + ys) == Reported(ys)
    decreases |xs|
  {
    if xs == [] {
      assert xs + ys == ys;
    } else {
      assert (xs + ys)[1..] == xs[1..] + ys;
      NoneReported(xs[1..], ys);
    }
  }

  lemma {:induction false} DocsNoFail(x: Expat, docs: seq<Doc>)
    ensures forall i :: 0 <= i < |DocItems(x, docs)| ==> !DocItems(x, docs)[i].Fail?
    decreases |docs|
  {
    if docs != [] {
      var d := |docs| - 1;
      DocsNoFail(x, docs[..d]);
      FedCallsOnly(x, d, docs[d].fed);
    }
  }

  /** A run reports the error of its ending, and no other. */
  lemma ReportedIs(x: Expat, docs: seq<Doc>, fed: seq<bytes>, ending: Ending, multi: bool)
    ensures Reported(RunItems(x, docs, fed, ending, multi)) == Verdict(x, |docs|, fed, ending)
  {
    var d := |docs|;
    var done, own, end := DocItems(x, docs), FedItems(x, d, fed), EndItems(x, d, fed, ending, multi);
    DocsNoFail(x, docs);
    FedCallsOnly(x, d, fed);
    NoneReported(done + own, end);
    EndReported(x, d, fed, ending, multi);
    assert RunItems(x, docs, fed, ending, multi) == done + own + end;
  }

  lemma EndReported(x: Expat, d: nat, fed: seq<bytes>, ending: Ending, multi: bool)
    ensures Reported(EndItems(x, d, fed, ending, multi)) == Verdict(x, d, fed, ending)
  {
    if ending.AtEof? {
      var o := Parse(x, d, fed + [[]], true);
      var last := if !o.ok then [Fail(ParserError(o.code), o.place)] else if multi then [DocEnd(o.place, false)] else [];
      CallsOnly(o.calls);
      NoneReported(CallItems(o.calls) + [Flush], last);
      assert EndItems(x, d, fed, AtEof, multi) == CallItems(o.calls) + [Flush] + last;
    }
  }

  // ------------------------------------------------------------ what an ending drops

  /** Where the run stood when it was cut off. */
  ghost function Cut(conv: Converter, x: Expat, docs: seq<Doc>, fed: seq<bytes>, multi: bool): State {
    Run(conv, INIT, RunItems(x, docs, fed, Running, multi))
  }

  /** A flush would enqueue nothing: there is no data (cdata_len is 0), or it cannot be converted, or an
      error came before. */
  ghost predicate NothingPending(conv: Converter, s: State) {
    s.fault.Some? || s.pending == [] || Convert(conv, s.pending).None?
  }

  lemma ErrorKeepsIff(conv: Converter, s: State, f: Fault, at: Place)
    ensures SetError(s, f, at).tokens == FlushIfAny(conv, s).tokens <==> NothingPending(conv, s)
  {}

  /** Every token that was complete when the run was cut off is enqueued after a parse error, always; after
      a read error or a corrupt offset, exactly when no data was pending. */
  lemma KeptIff(conv: Converter, x: Expat, docs: seq<Doc>, fed: seq<bytes>, e: Ending, multi: bool)
    requires e.BadParse? || e.ReadError? || e.BadOffset?
    ensures var s := Cut(conv, x, docs, fed, multi);
      Run(conv, INIT, RunItems(x, docs, fed, e, multi)).tokens == FlushIfAny(conv, s).tokens <==>
      e.BadParse? || NothingPending(conv, s)
  {
    RunEnds(conv, x, docs, fed, e, multi);
    hide Run, RunItems, Parse, PlaceOf, SpotOf;
  }

  /** At the end of the file what is pending is flushed before an error is reported or the document is ended:
      nothing is left behind, and nothing that was enqueued is lost. */
  lemma EofKeeps(conv: Converter, x: Expat, docs: seq<Doc>, fed: seq<bytes>, multi: bool)
    ensures var o := Parse(x, |docs|, fed + [[]], true);
      var t := FlushIfAny(conv, Run(conv, Cut(conv, x, docs, fed, multi), CallItems(o.calls)));
      var end := Run(conv, INIT, RunItems(x, docs, fed, AtEof, multi));
      && end.pending == [] && t.tokens <= end.tokens
      && end.tokens ==
         (if o.ok && multi && t.fault.None? then t.tokens + [Located(EndDocument, t.prev, o.place)] else t.tokens)
  {
    RunEnds(conv, x, docs, fed, AtEof, multi);
    var o := Parse(x, |docs|, fed + [[]], true);
    var u := Run(conv, Cut(conv, x, docs, fed, multi), CallItems(o.calls));
    hide Run, RunItems, CallItems, Parse;
    EndKeeps(conv, u, o, multi);
  }

  lemma EndKeeps(conv: Converter, u: State, o: Outcome, multi: bool)
    ensures var t := FlushIfAny(conv, u);
      var end := if !o.ok then SetError(t, ParserError(o.code), o.place)
                 else if multi then Apply(conv, t, DocEnd(o.place, false)) else t;
      && end.pending == []
      && end.tokens ==
         (if o.ok && multi && t.fault.None? then t.tokens + [Located(EndDocument, t.prev, o.place)] else t.tokens)
  {
    hide Convert, SpotOf;
  }

  /** A parser that answers one chunk with a start element and its text, and finds nothing wrong. */
  function OneText(chunk: bytes): Expat {
    (d: nat, fed: seq<bytes>, final: bool) =>
      Outcome(true, if fed == [chunk] && !final then StartAndText() else [], START, 0)
  }

  function StartAndText(): seq<Callback> {
    [Callback(StartEvent([97], []), Place(1, 0, 3, 0)), Callback(TextEvent(CharData, [98]), Place(1, 3, 1, 3))]
  }

  /** "<a>b" and then a failing read, whatever the error: the text is lost, although nothing was wrong with
      it. */
  lemma TextLost(chunk: bytes, e: int, multi: bool)
    ensures var conv := (s: bytes) => Some(s);
      var x := OneText(chunk);
      && WellBehaved(x) && Cut(conv, x, [], [chunk], multi).fault.None?
      && (var kept := Run(conv, INIT, RunItems(x, [], [chunk], ReadError(e), multi)).tokens;
          && |kept| == 1 && kept[0].kind == StartElement && kept[0].name == Some([97])
          && FlushIfAny(conv, Cut(conv, x, [], [chunk], multi)).tokens ==
             kept + [Token(CharData, None, Some([98]), None, 0, [], Spot(1, 4, 1))])
  {
    var conv := (s: bytes) => Some(s);
    var x := OneText(chunk);
    var calls := StartAndText();
    var items := [Call(calls[0]), Call(calls[1])];
    OneTextItems(chunk, multi);
    RunEnds(conv, x, [], [chunk], ReadError(e), multi);
    hide RunItems, FedItems, DocItems, CallItems;
    RunTwo(conv, INIT, items[0], items[1]);
    hide Run;
    var first := Apply(conv, INIT, items[0]);
    assert first.tokens == [Token(StartElement, Some([97]), None, None, 0, [], Spot(1, 1, 3))];
    assert Apply(conv, first, items[1]) == first.(pending := [98], kind := CharData, spot := Spot(1, 4, 1));
  }

  lemma OneTextItems(chunk: bytes, multi: bool)
    ensures var calls := StartAndText();
      RunItems(OneText(chunk), [], [chunk], Running, multi) == [Call(calls[0]), Call(calls[1])]
  {
    var calls := StartAndText();
    assert calls[1..] == [calls[1]] && [calls[1]][1..] == [];
    assert CallItems([calls[1]]) == [Call(calls[1])];
    assert CallItems(calls) == [Call(calls[0])] + CallItems(calls[1..]);
    assert [chunk][..0] == [] && FedItems(OneText(chunk), 0, []) == [];
    assert FedItems(OneText(chunk), 0, [chunk]) == CallItems(calls);
  }
}
