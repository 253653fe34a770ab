/** An XML file read to its end: the puller of xml/xml_puller.c under xml_get_record (xml/xml_interface.c). */
module XmlReader {
  import opened Common
  import opened XmlEvents
  import opened XmlRun
  import opened XmlVariables
  import opened XmlNesting
  import I = XmlInterface
  import P = Puller

  /** The tokens delivered and those waiting can be given to xml_get_record one after the other. */
  lemma DeliveredFit(p: P.Puller)
    requires p.Told() && Nests(p.expat)
    ensures FitsAll(p.delivered + p.pool.queue.vals, [])
  {
    p.DeliveredTokens();
    RunNests(p.expat, p.input.stream, p.docs, p.input.docStart, p.parser.fed, p.ending, p.multi);
    hide *;
    NoNames(p.conv);
    NestedFit(p.conv, RunItems(p.expat, p.docs, p.parser.fed, p.ending, p.multi), Origin(1, 1), [], []);
  }

  lemma NoNames(conv: Converter)
    ensures Names(conv, [], [])
  {}

  /** The open elements after these tokens. */
  ghost function OpenAfterAll(toks: seq<Token>, open: seq<bytes>): seq<bytes>
    requires FitsAll(toks, open)
    decreases |toks|
  {
    if toks == [] then open else OpenAfterAll(toks[1..], OpenAfter(Got(toks[0]), open))
  }

  /** One token more, when others may follow it. */
  lemma {:induction false} OneMoreFits(toks: seq<Token>, tok: Token, rest: seq<Token>, open: seq<bytes>)
    requires FitsAll(toks + [tok] + rest, open)
    ensures FitsAll(toks, open) && FitsAll(toks + [tok], open)
    ensures Fits(Got(tok), OpenAfterAll(toks, open))
    ensures OpenAfterAll(toks + [tok], open) == OpenAfter(Got(tok), OpenAfterAll(toks, open))
    decreases |toks|
  {
    hide Fits, OpenAfter;
    if toks == [] {
      assert toks + [tok] == [tok] && [tok][1..] == [];
      assert (toks + [tok] + rest)[0] == tok;
    } else {
      assert (toks + [tok] + rest)[1..] == toks[1..] + [tok] + rest && (toks + [tok])[1..] == toks[1..] + [tok];
      OneMoreFits(toks[1..], tok, rest, OpenAfter(Got(toks[0]), open));
    }
  }

  /** Between records: the path of the file is that of the elements left open by the tokens so far. */
  ghost predicate InStep(p: P.Puller, t: I.Interface, xml: XmlState)
    reads p, p.pool, p.pool.queue, p.pool.freeList, p.pool.all, p.input, p.input.buf, t, t.files, xml
  {
    && p.Valid() && Nests(p.expat) && t.Valid() && xml in t.files
    && FitsAll(p.delivered, []) && xml.open == OpenAfterAll(p.delivered, [])
  }

  /** The file is not at its end, and nothing has gone wrong. */
  predicate Running(p: P.Puller)
    reads p`fault, p`fileOpen
  {
    p.fault.None? && p.fileOpen
  }

  /** What xml_get_record works on: the token, or, where there is none, the end or the error with its place. */
  function PulledOf(got: Option<Token>, fault: Option<Fault>, spot: Spot, message: Fault -> bytes): Pulled {
    if got.Some? then Got(got.value)
    else if fault.None? then Eof else Failed(Some(message(fault.value)), spot)
  }

  /** XML_PullerNext, for its token's sake. */
  method Pull(p: P.Puller) returns (got: Option<Token>)
    requires p.Valid()
    modifies p, p.input, p.input.buf
    modifies p.pool`building, p.pool`all, p.pool`mallocs, p.pool`toBeFreed, p.pool.queue, p.pool.freeList
    modifies p.pool.all - p.pool.held
    ensures p.Valid() && p.delivered == old(p.delivered) + (if got.Some? then [got.value] else [])
    ensures fresh(p.pool.all - old(p.pool.all)) && (p.input.buf == old(p.input.buf) || fresh(p.input.buf))
    ensures got.None? ==> p.pool.queue.vals == [] && !Running(p)
    ensures Running(p) ==> old(Running(p))
    ensures Running(p) == old(Running(p)) ==>
      (Running(p) && p.input.pos > old(p.input.pos))
      || (p.input.pos == old(p.input.pos) && (got.Some? ==> |p.pool.queue.vals| < |old(p.pool.queue.vals)|))
  {
    hide p.Valid;
    assert p.delivered + [] == p.delivered;
    var tok := p.Next();
    got := if tok == null then None else Some(tok.val);
  }

  /** The token can be taken. */
  lemma PulledFits(p: P.Puller, before: seq<Token>, got: Option<Token>, open: seq<bytes>)
    requires p.Valid() && Nests(p.expat) && p.delivered == before + (if got.Some? then [got.value] else [])
    requires FitsAll(before, []) && open == OpenAfterAll(before, [])
    ensures FitsAll(p.delivered, []) && (got.Some? ==> Fits(Got(got.value), open))
    ensures OpenAfterAll(p.delivered, []) == if got.Some? then OpenAfter(Got(got.value), open) else open
  {
    ValidTold(p);
    hide *;
    assert before + [] == before;
    if got.Some? {
      DeliveredFit(p);
      OneMoreFits(before, got.value, p.pool.queue.vals, []);
    }
  }

  lemma ValidTold(p: P.Puller)
    requires p.Valid()
    ensures p.Told() && (Running(p) ==> p.input.pos <= |p.input.stream|)
  {
    hide p.Told, p.Sync;
  }

  /** Every variable is what this sets, or empty, and XMLATTR holds what this puts there. */
  ghost predicate AllSet(t: I.Interface, lit: Literal, pulled: Pulled, depth: int)
    reads t
  {
    && |t.nodes| == NUM_RESET && (forall v: Var :: t.nodes[v].value == Afresh(Sets(lit, pulled, depth), v))
    && t.attr == AttrSets(lit, pulled)
  }

  /** xml_get_record, with its call of XML_PullerNext: the variables are what the token sets, or, when there is
      none, what the end of the file sets. */
  method GetRecord(p: P.Puller, t: I.Interface, xml: XmlState, message: Fault -> bytes)
    returns (got: Option<Token>, out: Option<bytes>)
    requires InStep(p, t, xml)
    modifies p, p.input, p.input.buf, t, xml
    modifies p.pool`building, p.pool`all, p.pool`mallocs, p.pool`toBeFreed, p.pool.queue, p.pool.freeList
    modifies p.pool.all - p.pool.held
    ensures InStep(p, t, xml) && t.files == old(t.files)
    ensures p.delivered == old(p.delivered) + (if got.Some? then [got.value] else [])
    ensures var pulled := PulledOf(got, p.fault, p.spot, message);
      AllSet(t, xml.lit, pulled, old(xml.depth)) && out == RecordText(xml.space, pulled)
    ensures got.None? ==> xml.depth == old(xml.depth) && p.pool.queue.vals == [] && !Running(p)
    ensures fresh(p.pool.all - old(p.pool.all)) && (p.input.buf == old(p.input.buf) || fresh(p.input.buf))
    ensures Running(p) ==> old(Running(p)) && p.input.pos <= |p.input.stream|
    ensures Running(p) == old(Running(p)) ==>
      (Running(p) && p.input.pos > old(p.input.pos))
      || (p.input.pos == old(p.input.pos) && (got.Some? ==> |p.pool.queue.vals| < |old(p.pool.queue.vals)|))
  {
    hide *;
    Parts(p, t, xml);
    DepthOf(t, xml);
    ghost var before := p.delivered;
    got := Pull(p);
    PulledFits(p, before, got, xml.open);
    var pulled := PulledOf(got, p.fault, p.spot, message);
    PulledTaken(got, p.fault, p.spot, message, xml.open);
    out := t.GetRecord(xml, pulled);
    ValidTold(p);
    DepthOf(t, xml);
    AllSetIs(t, xml.lit, pulled, old(xml.depth));
    Parts(p, t, xml);
  }

  lemma AllSetIs(t: I.Interface, lit: Literal, pulled: Pulled, depth: int)
    requires t.Valid() && (forall v: Var :: t.nodes[v].value == Afresh(Sets(lit, pulled, depth), v))
    requires t.attr == AttrSets(lit, pulled)
    ensures AllSet(t, lit, pulled, depth)
  {
    hide Afresh, Sets, AttrSets;
  }

  lemma Parts(p: P.Puller, t: I.Interface, xml: XmlState)
    ensures InStep(p, t, xml) <==>
      && p.Valid() && Nests(p.expat) && t.Valid() && xml in t.files
      && FitsAll(p.delivered, []) && xml.open == OpenAfterAll(p.delivered, [])
  {
    hide p.Valid, t.Valid, Nests, FitsAll, OpenAfterAll;
  }

  /** The end of the file, and an error, can always be taken, and open nothing. */
  lemma PulledTaken(got: Option<Token>, fault: Option<Fault>, spot: Spot, message: Fault -> bytes, open: seq<bytes>)
    requires got.Some? ==> Fits(Got(got.value), open)
    ensures var p := PulledOf(got, fault, spot, message);
      Fits(p, open) && OpenAfter(p, open) == (if got.Some? then OpenAfter(Got(got.value), open) else open)
  {}

  lemma DepthOf(t: I.Interface, xml: XmlState)
    requires t.Valid() && xml in t.files
    ensures xml.depth == |xml.open|
  {}

  /** A file is read to its end, record after record: each token the puller has is one that xml_get_record can
      take, $0 is that of the token, and the last call finds the end, or the error, and sets no other variable. */
  method ReadFile(p: P.Puller, t: I.Interface, xml: XmlState, message: Fault -> bytes) returns (records: seq<Option<bytes>>)
    requires InStep(p, t, xml) && p.delivered == []
    modifies p, p.input, p.input.buf, t, xml
    modifies p.pool`building, p.pool`all, p.pool`mallocs, p.pool`toBeFreed, p.pool.queue, p.pool.freeList
    modifies p.pool.all - p.pool.held
    ensures InStep(p, t, xml) && t.files == old(t.files)
    ensures p.delivered == Converted(p.conv, Coalesce(RunItems(p.expat, p.docs, p.parser.fed, p.ending, p.multi), Origin(1, 1)))
    ensures records == Records(xml.space, p.delivered)
    ensures AllSet(t, xml.lit, PulledOf(None, p.fault, p.spot, message), xml.depth)
  {
    hide InStep, Coalesce, Converted, RunItems, AllSet, RecordText;
    records := [];
    ghost var before: seq<Token> := [];
    var got, out := GetRecord(p, t, xml, message);
    while got.Some?
      invariant InStep(p, t, xml) && t.files == old(t.files)
      invariant fresh(p.pool.all - old(p.pool.all)) && (p.input.buf == old(p.input.buf) || fresh(p.input.buf))
      invariant Running(p) ==> p.input.pos <= |p.input.stream|
      invariant p.delivered == before + (if got.Some? then [got.value] else [])
      invariant records == Records(xml.space, before)
      invariant got.Some? ==> out == RecordText(xml.space, Got(got.value))
      invariant got.None? ==> p.pool.queue.vals == [] && AllSet(t, xml.lit, PulledOf(None, p.fault, p.spot, message), xml.depth)
      decreases Running(p), |p.input.stream| - p.input.pos, |p.pool.queue.vals|, got.Some?
    {
      RecordsSnoc(xml.space, before, got.value);
      records, before := records + [out], before + [got.value];
      got, out := GetRecord(p, t, xml, message);
    }
    assert before + [] == before;
    AllDelivered(p, t, xml);
  }

  /** The record texts of some tokens. */
  function Records(space: bytes, toks: seq<Token>): seq<Option<bytes>> {
    if toks == [] then [] else Records(space, toks[..|toks| - 1]) + [RecordText(space, Got(toks[|toks| - 1]))]
  }

  lemma RecordsSnoc(space: bytes, toks: seq<Token>, tok: Token)
    ensures Records(space, toks + [tok]) == Records(space, toks) + [RecordText(space, Got(tok))]
  {
    assert (toks + [tok])[..|toks|] == toks;
  }

  lemma AllDelivered(p: P.Puller, t: I.Interface, xml: XmlState)
    requires InStep(p, t, xml) && p.pool.queue.vals == []
    ensures p.delivered == Converted(p.conv, Coalesce(RunItems(p.expat, p.docs, p.parser.fed, p.ending, p.multi), Origin(1, 1)))
  {
    ValidTold(p);
    hide *;
    p.DeliveredTokens();
  }
}
