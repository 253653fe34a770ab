/** What the pull parser makes of Expat's callbacks (xml/xml_puller.c): one function
    per handler on the state they share, and the token stream a run must deliver. */
module XmlEvents {
  import opened Common

  datatype Kind =
    | StartElement | EndElement | CharData | StartCData | EndCData | ProcInst
    | Comment | Decl | StartDoct | EndDoct | Unparsed | EndDocument

  /** Expat's answers during a callback: line from 1, column from 0, length of the event, and where in the
      document it starts. */
  datatype Place = Place(line: int, column: int, bytes: int, index: int)

  datatype Event =
    | StartEvent(name: bytes, attrs: seq<(bytes, bytes)>)
    | EndEvent(name: bytes)
    | TextEvent(kind: Kind, text: bytes)   // CharData or Unparsed
    | MarkEvent(kind: Kind)                // StartCData, EndCData or EndDoct
    | PiEvent(target: bytes, data: bytes)
    | CommentEvent(data: bytes)
    | DeclEvent(version: Option<bytes>, encoding: Option<bytes>, standalone: int)
    | DoctEvent(name: bytes, sysid: Option<bytes>, pubid: Option<bytes>, internal: int)

  datatype Callback = Callback(event: Event, at: Place)

  /** Where a token or an error is in the input file: the row, col and len fields. */
  datatype Spot = Spot(row: int, col: int, len: int)

  /** prev_last_row and prev_last_col: where the previous document ended. */
  datatype Origin = Origin(row: int, col: int)

  /** A token as the client sees it; number counts only for Decl and StartDoct. */
  datatype Token = Token(kind: Kind, name: Option<bytes>, data: Option<bytes>, pubid: Option<bytes>,
                         number: int, attrs: seq<(bytes, bytes)>, spot: Spot)

  datatype Fault = IconvFailed | ParserError(code: int) | ReadFailed(errno: int) | CorruptOffset

  /** The puller's converter: None is a failed conversion. */
  type Converter = bytes -> Option<bytes>

  function Convert(conv: Converter, source: bytes): Option<bytes> { conv(source) }

  /** Everything that can happen to the tokens of a run, in order. */
  datatype Item =
    | Call(cb: Callback)                // Expat calls a handler
    | Flush                             // pending data is flushed before the end is reported
    | DocEnd(at: Place, restart: bool)  // END_DOCUMENT is inserted; a fresh parser may take over
    | Fail(fault: Fault, at: Place)     // the run stops with an error

  /** The fields the handlers update. tokens holds every token enqueued so far. */
  datatype State = State(
    tokens: seq<Token>, pending: bytes, kind: Kind, spot: Spot,
    fault: Option<Fault>, depth: int, elements: int, prev: Origin)

  const INIT := State([], [], StartElement, Spot(0, 0, 0), None, 0, 0, Origin(1, 1))

  /** set_row_col: rows go on from the previous document, columns on its last line only. */
  function SetRowCol(prev: Origin, at: Place): Origin {
    Origin(prev.row + at.line - 1, if at.line == 1 then prev.col + at.column else at.column + 1)
  }

  function SpotOf(prev: Origin, at: Place): Spot {
    var p := SetRowCol(prev, at);
    Spot(p.row, p.col, at.bytes)
  }

  function Located(kind: Kind, prev: Origin, at: Place): Token {
    Token(kind, None, None, None, 0, [], SpotOf(prev, at))
  }

  /** The first error wins: a later one changes nothing. */
  function SetError(s: State, fault: Fault, at: Place): State {
    if s.fault.Some? then s
    else s.(fault := Some(fault), spot := SpotOf(s.prev, at))
  }

  function FlushPending(conv: Converter, s: State): State {
    if s.fault.Some? then s.(pending := [])
    else match Convert(conv, s.pending)
      case None => s.(pending := [], fault := Some(IconvFailed))
      case Some(d) =>
        s.(pending := [],
           tokens := s.tokens + [Token(s.kind, None, Some(d), None, 0, [], s.spot)])
  }

  function FlushIfAny(conv: Converter, s: State): State {
    if s.pending != [] then FlushPending(conv, s) else s
  }

  /** Data that starts a run is placed where it is; later data only makes the run longer. */
  function AppendText(s: State, kind: Kind, text: bytes, at: Place): State {
    if s.pending == [] then s.(kind := kind, spot := SpotOf(s.prev, at), pending := text)
    else s.(spot := s.spot.(len := s.spot.len + at.bytes), pending := s.pending + text)
  }

  function AddPending(conv: Converter, s: State, kind: Kind, text: bytes, at: Place): State {
    if s.fault.Some? then s
    else
      var f := if s.pending != [] && s.kind != kind then FlushPending(conv, s) else s;
      if f.fault.Some? then f else AppendText(f, kind, text, at)
  }

  /** Converting an optional string: absent stays absent. */
  function ConvertOpt(conv: Converter, s: Option<bytes>): Option<Option<bytes>> {
    match s
    case None => Some(None)
    case Some(b) => match Convert(conv, b) case None => None case Some(c) => Some(Some(c))
  }

  function ConvertAttrs(conv: Converter, attrs: seq<(bytes, bytes)>): Option<seq<(bytes, bytes)>> {
    if attrs == [] then Some([])
    else match (Convert(conv, attrs[0].0), Convert(conv, attrs[0].1), ConvertAttrs(conv, attrs[1..]))
      case (Some(n), Some(v), Some(rest)) => Some([(n, v)] + rest)
      case _ => None
  }

  /** A token with unconverted strings becomes one the client can have. */
  function ConvertToken(conv: Converter, raw: Token): Option<Token> {
    match (ConvertOpt(conv, raw.name), ConvertOpt(conv, raw.data),
           ConvertOpt(conv, raw.pubid), ConvertAttrs(conv, raw.attrs))
    case (Some(n), Some(d), Some(p), Some(a)) =>
      Some(raw.(name := n, data := d, pubid := p, attrs := a))
    case _ => None
  }

  /** The token an event asks for, still unconverted. */
  function RawToken(ev: Event, prev: Origin, at: Place): Token
    requires !ev.TextEvent?
  {
    var t := Located(StartElement, prev, at);
    match ev
    case StartEvent(n, attrs) => t.(kind := StartElement, name := Some(n), attrs := attrs)
    case EndEvent(n) => t.(kind := EndElement, name := Some(n))
    case MarkEvent(k) => t.(kind := k)
    case PiEvent(n, d) => t.(kind := ProcInst, name := Some(n), data := Some(d))
    case CommentEvent(d) => t.(kind := Comment, data := Some(d))
    case DeclEvent(v, e, n) => t.(kind := Decl, name := v, data := e, number := n)
    case DoctEvent(n, s, p, i) =>
      t.(kind := StartDoct, name := Some(n), data := s, pubid := p, number := i)
  }

  /** Enqueue the conversion of a raw token, after any pending data. */
  function Insert(conv: Converter, s: State, raw: Token, at: Place): State {
    var f := FlushIfAny(conv, s);
    if f.fault.Some? then f
    else match ConvertToken(conv, raw)
      case None => SetError(f, IconvFailed, at)
      case Some(t) => f.(tokens := f.tokens + [t])
  }

  function Handle(conv: Converter, s: State, cb: Callback): State {
    match cb.event
    case TextEvent(kind, text) => AddPending(conv, s, kind, text, cb.at)
    case StartEvent(_, _) =>
      Insert(conv, s.(depth := s.depth + 1, elements := s.elements + 1),
             RawToken(cb.event, s.prev, cb.at), cb.at)
    case EndEvent(_) =>
      Insert(conv, s.(depth := s.depth - 1), RawToken(cb.event, s.prev, cb.at), cb.at)
    case _ => Insert(conv, s, RawToken(cb.event, s.prev, cb.at), cb.at)
  }

  function Apply(conv: Converter, s: State, item: Item): State {
    match item
    case Call(cb) => Handle(conv, s, cb)
    case Flush => FlushIfAny(conv, s)
    case DocEnd(at, restart) =>
      var f := Insert(conv, s, Located(EndDocument, s.prev, at), at);
      if restart then f.(prev := SetRowCol(s.prev, at), elements := 0) else f
    case Fail(fault, at) => SetError(s, fault, at)
  }

  lemma RestartAfter(conv: Converter, s: State, at: Place)
    ensures Apply(conv, s, DocEnd(at, true)) ==
            Apply(conv, s, DocEnd(at, false)).(prev := SetRowCol(s.prev, at), elements := 0)
  {
    hide Insert, SetRowCol, Located;
  }

  ghost function Run(conv: Converter, s: State, items: seq<Item>): State
    decreases |items|
  {
    if items == [] then s else Run(conv, Apply(conv, s, items[0]), items[1..])
  }

  lemma {:induction false} RunAppend(conv: Converter, s: State, xs: seq<Item>, ys: seq<Item>)
    ensures Run(conv, s, xs + ys) == Run(conv, Run(conv, s, xs), ys)
    decreases |xs|
  {
    if xs == [] {
      assert xs + ys == ys;
    } else {
      assert (xs + ys)[1..] == xs[1..] + ys;
      RunAppend(conv, Apply(conv, s, xs[0]), xs[1..], ys);
    }
  }

  // ------------------------------------------------------------ what a run must deliver

  predicate IsText(item: Item, kind: Kind) {
    item.Call? && item.cb.event.TextEvent? && item.cb.event.kind == kind
  }

  /** How many leading items carry data of one kind. */
  ghost function RunLength(items: seq<Item>, kind: Kind): (n: nat)
    ensures n <= |items|
    ensures forall i :: 0 <= i < n ==> IsText(items[i], kind)
    ensures n < |items| ==> !IsText(items[n], kind)
  {
    if items == [] || !IsText(items[0], kind) then 0 else 1 + RunLength(items[1..], kind)
  }

  /** The data of a run of text items, in order. */
  ghost function Texts(items: seq<Item>): bytes {
    if items == [] then []
    else (if items[0].Call? && items[0].cb.event.TextEvent? then items[0].cb.event.text else []) + Texts(items[1..])
  }

  ghost function Lengths(items: seq<Item>): int {
    if items == [] then 0
    else (if items[0].Call? then items[0].cb.at.bytes else 0) + Lengths(items[1..])
  }

  /** The one token of a run of data: placed where its first non-empty piece starts. */
  ghost function TextToken(items: seq<Item>, kind: Kind, prev: Origin): Token
    requires forall i :: 0 <= i < |items| ==> IsText(items[i], kind)
    requires Texts(items) != []
  {
    assert IsText(items[0], kind);
    if items[0].cb.event.text == [] then TextToken(items[1..], kind, prev)
    else Token(kind, None, Some(Texts(items)), None, 0, [],
               SpotOf(prev, items[0].cb.at).(len := Lengths(items)))
  }

  /** Items that ask for one token of their own. */
  predicate IsToken(item: Item) { item.DocEnd? || (item.Call? && !item.cb.event.TextEvent?) }

  function TokenOf(item: Item, prev: Origin): Token
    requires IsToken(item)
  {
    if item.DocEnd? then Located(EndDocument, prev, item.at)
    else RawToken(item.cb.event, prev, item.cb.at)
  }

  /** The unconverted tokens of a run: a maximal run of data of one kind is one token, dropped
      when it is empty; data that no later item closes is not a token yet, and an error drops it. */
  ghost function Coalesce(items: seq<Item>, prev: Origin): seq<Token>
    decreases |items|
  {
    if items == [] then []
    else match items[0]
      case Fail(_, _) => []
      case Flush => Coalesce(items[1..], prev)
      case DocEnd(at, restart) =>
        [TokenOf(items[0], prev)] +
        (if restart then Coalesce(items[1..], SetRowCol(prev, at)) else Coalesce(items[1..], prev))
      case Call(cb) =>
        if cb.event.TextEvent? then
          var n := RunLength(items, cb.event.kind);
          if n == |items| || items[n].Fail? then []
          else
            (if Texts(items[..n]) == [] then [] else [TextToken(items[..n], cb.event.kind, prev)])
            + Coalesce(items[n..], prev)
        else
          [TokenOf(items[0], prev)] + Coalesce(items[1..], prev)
  }

  /** The conversions of the tokens before the first that cannot be converted. */
  ghost function Converted(conv: Converter, raws: seq<Token>): seq<Token> {
    if raws == [] then []
    else match ConvertToken(conv, raws[0])
      case None => []
      case Some(t) => [t] + Converted(conv, raws[1..])
  }

  /** The error an ending reports, if the run has one. */
  ghost function Reported(items: seq<Item>): Option<Fault> {
    if items == [] then None
    else if items[0].Fail? then Some(items[0].fault)
    else Reported(items[1..])
  }

  // ------------------------------------------------------------ the handlers deliver it

  /** Once an error is set, nothing is enqueued and the error, with its place, stays. */
  lemma {:induction false} RunAfterError(conv: Converter, s: State, items: seq<Item>)
    requires s.fault.Some?
    ensures var t := Run(conv, s, items);
      t.tokens == s.tokens && t.fault == s.fault && t.spot == s.spot
    decreases |items|
  {
    if items != [] {
      RunAfterError(conv, Apply(conv, s, items[0]), items[1..]);
    }
  }

  /** The unconverted token the pending data would become. */
  function PendingToken(s: State): Token {
    Token(s.kind, None, Some(s.pending), None, 0, [], s.spot)
  }

  /** Inside a run of data, the pieces only accumulate. */
  lemma {:induction false} RunOfText(conv: Converter, s: State, items: seq<Item>, kind: Kind)
    requires s.fault.None? && (s.pending != [] ==> s.kind == kind)
    requires forall i :: 0 <= i < |items| ==> IsText(items[i], kind)
    ensures var t := Run(conv, s, items);
      && t == s.(pending := s.pending + Texts(items), kind := t.kind, spot := t.spot)
      && (s.pending != [] ==> t.kind == kind && t.spot == s.spot.(len := s.spot.len + Lengths(items)))
      && (s.pending == [] && Texts(items) != [] ==>
            t.kind == kind && PendingToken(t) == TextToken(items, kind, s.prev))
    decreases |items|
  {
    if items != [] {
      assert IsText(items[0], kind);
      var u, text := Apply(conv, s, items[0]), items[0].cb.event.text;
      ApplyText(conv, s, items[0], kind);
      hide Apply;
      RunOfText(conv, u, items[1..], kind);
      assert Run(conv, s, items) == Run(conv, u, items[1..]);
      assert Texts(items) == text + Texts(items[1..]) && Lengths(items) == items[0].cb.at.bytes + Lengths(items[1..]);
      ConcatAssoc(s.pending, text, Texts(items[1..]));
      hide Run, Lengths;
      assert text == [] ==> text + Texts(items[1..]) == Texts(items[1..]);
    }
  }

  /** Data of the pending kind, or with nothing pending, is only appended. */
  lemma ApplyText(conv: Converter, s: State, item: Item, kind: Kind)
    requires s.fault.None? && (s.pending != [] ==> s.kind == kind) && IsText(item, kind)
    ensures Apply(conv, s, item) == AppendText(s, kind, item.cb.event.text, item.cb.at)
  {}

  /** Any item but data of the pending kind, or an error, closes the pending data first. */
  lemma CloseFirst(conv: Converter, s: State, item: Item)
    requires s.fault.None? && !IsText(item, s.kind) && !item.Fail?
    ensures Apply(conv, s, item) == Apply(conv, FlushIfAny(conv, s), item)
  {
    FlushTwice(conv, s);
    if item.Call? && item.cb.event.TextEvent? {
      hide Insert, AppendText, Convert;
    } else {
      hide FlushPending, ConvertToken, RawToken, Located, SetRowCol;
    }
  }

  /** A flush leaves nothing to flush, and the other fields as they are. */
  lemma FlushTwice(conv: Converter, s: State)
    ensures var f := FlushIfAny(conv, s);
      && f.pending == [] && FlushIfAny(conv, f) == f
      && f.prev == s.prev && f.depth == s.depth && f.elements == s.elements
    ensures forall d: int, e: int {:trigger s.(depth := d, elements := e)} ::
      FlushIfAny(conv, s.(depth := d, elements := e)) == FlushIfAny(conv, s).(depth := d, elements := e)
  {
    hide Convert;
  }

  lemma ConvertedCons(conv: Converter, raw: Token, raws: seq<Token>)
    ensures Converted(conv, [raw] + raws) ==
            match ConvertToken(conv, raw) { case None => [] case Some(t) => [t] + Converted(conv, raws) }
  {
    assert ([raw] + raws)[1..] == raws;
  }

  /** From a clean state, the tokens a run enqueues are its coalesced events, converted, up to the
      first that cannot be converted; and the error reported is that failure or the run's own. */
  ghost predicate Delivers(conv: Converter, s: State, items: seq<Item>) {
    var raws := Coalesce(items, s.prev);
    var good := Converted(conv, raws);
    var t := Run(conv, s, items);
    t.tokens == s.tokens + good && t.fault == if |good| < |raws| then Some(IconvFailed) else Reported(items)
  }

  lemma {:induction false} RunDelivers(conv: Converter, s: State, items: seq<Item>)
    requires s.fault.None? && s.pending == []
    ensures Delivers(conv, s, items)
    decreases |items|
  {
    if items == [] {
    } else if items[0].Fail? {
      RunFail(conv, s, items);
    } else if items[0].Flush? {
      RunDelivers(conv, s, items[1..]);
    } else if items[0].Call? && items[0].cb.event.TextEvent? {
      var n := RunLength(items, items[0].cb.event.kind);
      if n < |items| && !items[n].Fail? {
        var f := FlushIfAny(conv, Run(conv, s, items[..n]));
        RunOfText(conv, s, items[..n], items[0].cb.event.kind);
        if f.fault.None? {
          RunDelivers(conv, f, items[n..]);
        }
      }
      TextDelivers(conv, s, items, n);
    } else {
      var t := Apply(conv, s, items[0]);
      if t.fault.None? {
        RunDelivers(conv, t, items[1..]);
      }
      TokenDelivers(conv, s, items);
    }
  }

  /** An item that asks for one token enqueues its conversion or sets the error. */
  lemma ApplyToken(conv: Converter, s: State, item: Item)
    requires s.fault.None? && s.pending == [] && IsToken(item)
    ensures var t := Apply(conv, s, item);
      && t.pending == []
      && t.prev == (if item.DocEnd? && item.restart then SetRowCol(s.prev, item.at) else s.prev)
      && match ConvertToken(conv, TokenOf(item, s.prev))
         case None => t.fault == Some(IconvFailed) && t.tokens == s.tokens
         case Some(tok) => t.fault.None? && t.tokens == s.tokens + [tok]
  {}

  lemma CoalesceToken(items: seq<Item>, prev: Origin)
    requires items != [] && IsToken(items[0])
    ensures var next := if items[0].DocEnd? && items[0].restart then SetRowCol(prev, items[0].at) else prev;
      Coalesce(items, prev) == [TokenOf(items[0], prev)] + Coalesce(items[1..], next)
  {}

  /** The step of RunDelivers over an item that asks for one token. */
  lemma TokenDelivers(conv: Converter, s: State, items: seq<Item>)
    requires s.fault.None? && s.pending == []
    requires items != [] && IsToken(items[0])
    requires var t := Apply(conv, s, items[0]); t.fault.None? ==> Delivers(conv, t, items[1..])
    ensures Delivers(conv, s, items)
  {
    hide Apply, ConvertToken, TokenOf, Coalesce, SetRowCol;
    var t := Apply(conv, s, items[0]);
    var raw := TokenOf(items[0], s.prev);
    var raws := Coalesce(items[1..], t.prev);
    ApplyToken(conv, s, items[0]);
    CoalesceToken(items, s.prev);
    assert Run(conv, s, items) == Run(conv, t, items[1..]) && Reported(items) == Reported(items[1..]);
    hide Run, Reported;
    ConvertedCons(conv, raw, raws);
    if t.fault.Some? {
      RunAfterError(conv, t, items[1..]);
    } else {
      hide Converted;
      var good := Converted(conv, raws);
      var tok := ConvertToken(conv, raw).value;
      ConcatAssoc(s.tokens, [tok], good);
    }
  }

  lemma {:induction false} ReportedSkips(items: seq<Item>, n: nat)
    requires n <= |items| && forall i :: 0 <= i < n ==> !items[i].Fail?
    ensures Reported(items) == Reported(items[n..])
    decreases n
  {
    if n > 0 {
      ReportedSkips(items[1..], n - 1);
      assert items[1..][n - 1..] == items[n..];
    } else {
      assert items[0..] == items;
    }
  }

  lemma RunFail(conv: Converter, s: State, items: seq<Item>)
    requires s.fault.None? && items != [] && items[0].Fail?
    ensures var t := Run(conv, s, items); t.tokens == s.tokens && t.fault == Some(items[0].fault)
  {
    RunAfterError(conv, Apply(conv, s, items[0]), items[1..]);
  }

  /** A clean state, run over data, has pending exactly the text token of that data. */
  lemma TextPends(conv: Converter, s: State, items: seq<Item>, kind: Kind)
    requires s.fault.None? && s.pending == []
    requires forall i :: 0 <= i < |items| ==> IsText(items[i], kind)
    ensures var t := Run(conv, s, items);
      && t.fault.None? && t.tokens == s.tokens && t.prev == s.prev
      && (t.pending == [] <==> Texts(items) == [])
      && (t.pending != [] ==> t.kind == kind && PendingToken(t) == TextToken(items, kind, s.prev))
  {
    RunOfText(conv, s, items, kind);
  }

  lemma CoalesceText(items: seq<Item>, prev: Origin, n: nat)
    requires items != [] && items[0].Call? && items[0].cb.event.TextEvent?
    requires n == RunLength(items, items[0].cb.event.kind)
    ensures n == |items| || items[n].Fail? ==> Coalesce(items, prev) == []
    ensures n < |items| && !items[n].Fail? ==>
      Coalesce(items, prev) ==
        (if Texts(items[..n]) == [] then [] else [TextToken(items[..n], items[0].cb.event.kind, prev)])
        + Coalesce(items[n..], prev)
  {}

  /** What a whole run of data comes to, before what follows it. */
  lemma TextStep(conv: Converter, s: State, items: seq<Item>, n: nat)
    requires s.fault.None? && s.pending == []
    requires items != [] && items[0].Call? && items[0].cb.event.TextEvent?
    requires n == RunLength(items, items[0].cb.event.kind)
    ensures var t, rest := Run(conv, s, items[..n]), items[n..];
      && t.fault.None? && t.tokens == s.tokens && t.prev == s.prev
      && Run(conv, s, items) == Run(conv, t, rest) && Reported(items) == Reported(rest)
      && (rest != [] && t.pending != [] ==> !IsText(rest[0], t.kind))
      && Coalesce(items, s.prev) == if rest == [] || rest[0].Fail? then []
         else (if t.pending == [] then [] else [PendingToken(t)]) + Coalesce(rest, s.prev)
  {
    var kind := items[0].cb.event.kind;
    CoalesceText(items, s.prev, n);
    ReportedSkips(items, n);
    hide Run, Coalesce, Reported, Texts, TextToken, RunLength;
    var front, rest := items[..n], items[n..];
    assert items == front + rest;
    RunAppend(conv, s, front, rest);
    TextPends(conv, s, front, kind);
  }

  /** The step of RunDelivers over a whole run of data. */
  lemma TextDelivers(conv: Converter, s: State, items: seq<Item>, n: nat)
    requires s.fault.None? && s.pending == []
    requires items != [] && items[0].Call? && items[0].cb.event.TextEvent?
    requires n == RunLength(items, items[0].cb.event.kind)
    requires n < |items| && !items[n].Fail? ==>
      var f := FlushIfAny(conv, Run(conv, s, items[..n]));
      f.fault.None? ==> Delivers(conv, f, items[n..])
    ensures Delivers(conv, s, items)
  {
    TextStep(conv, s, items, n);
    var t, rest := Run(conv, s, items[..n]), items[n..];
    hide ConvertToken, RunLength, Coalesce, IsText;
    if rest == [] {
    } else if rest[0].Fail? {
      hide FlushIfAny;
      RunFail(conv, t, rest);
      hide Run;
    } else if t.pending != [] {
      hide Run, FlushIfAny, Converted;
      CloseDelivers(conv, t, rest);
    } else {
      hide Run, Converted;
      assert [] + Coalesce(rest, s.prev) == Coalesce(rest, s.prev);
    }
  }

  /** A flush enqueues the conversion of the pending data or sets the error. */
  lemma FlushToken(conv: Converter, t: State)
    requires t.fault.None? && t.pending != []
    ensures var f := FlushIfAny(conv, t);
      && f.pending == [] && f.prev == t.prev
      && match ConvertToken(conv, PendingToken(t))
         case None => f.fault == Some(IconvFailed) && f.tokens == t.tokens
         case Some(tok) => f.fault.None? && f.tokens == t.tokens + [tok]
  {}

  /** Pending data closed by what follows becomes the next token, or the error. */
  lemma CloseDelivers(conv: Converter, t: State, rest: seq<Item>)
    requires t.fault.None? && t.pending != []
    requires rest != [] && !IsText(rest[0], t.kind) && !rest[0].Fail?
    requires FlushIfAny(conv, t).fault.None? ==> Delivers(conv, FlushIfAny(conv, t), rest)
    ensures var raws := [PendingToken(t)] + Coalesce(rest, t.prev);
      var good := Converted(conv, raws);
      && Run(conv, t, rest).tokens == t.tokens + good
      && Run(conv, t, rest).fault == if |good| < |raws| then Some(IconvFailed) else Reported(rest)
  {
    hide Apply, Coalesce, FlushIfAny, ConvertToken, Converted;
    var f := FlushIfAny(conv, t);
    CloseFirst(conv, t, rest[0]);
    assert Run(conv, t, rest) == Run(conv, f, rest);
    hide Run;
    FlushToken(conv, t);
    ConvertedCons(conv, PendingToken(t), Coalesce(rest, t.prev));
    if f.fault.Some? {
      RunAfterError(conv, f, rest);
    }
  }

  /** Cutting one piece of data in two, wherever it stands, changes nothing that is delivered. */
  lemma SplitText(conv: Converter, s: State, xs: seq<Item>, ys: seq<Item>, kind: Kind,
                  a: bytes, b: bytes, at: Place, cut: Place)
    requires a != []
    ensures Run(conv, s, xs + [Call(Callback(TextEvent(kind, a + b), at))] + ys) ==
            Run(conv, s, xs + [Call(Callback(TextEvent(kind, a), at.(bytes := at.bytes - cut.bytes))),
                               Call(Callback(TextEvent(kind, b), cut))] + ys)
  {
    var whole := [Call(Callback(TextEvent(kind, a + b), at))];
    var part := Call(Callback(TextEvent(kind, a), at.(bytes := at.bytes - cut.bytes)));
    var parts := [part, Call(Callback(TextEvent(kind, b), cut))];
    var t := Run(conv, s, xs);
    RunAppend(conv, s, xs, whole);
    RunAppend(conv, s, xs, parts);
    RunAppend(conv, s, xs + whole, ys);
    RunAppend(conv, s, xs + parts, ys);
    RunTwo(conv, t, part, parts[1]);
    SplitPiece(conv, t, kind, a, b, at, cut);
  }

  lemma RunTwo(conv: Converter, s: State, x: Item, y: Item)
    ensures Run(conv, s, [x, y]) == Apply(conv, Apply(conv, s, x), y)
    ensures forall z :: Run(conv, s, [z]) == Apply(conv, s, z)
  {
    assert [x, y][1..] == [y];
    assert Run(conv, Apply(conv, s, x), [y]) == Apply(conv, Apply(conv, s, x), y);
  }

  lemma SplitPiece(conv: Converter, s: State, kind: Kind, a: bytes, b: bytes, at: Place, cut: Place)
    requires a != []
    ensures AddPending(conv, s, kind, a + b, at) ==
            AddPending(conv, AddPending(conv, s, kind, a, at.(bytes := at.bytes - cut.bytes)), kind, b, cut)
  {
    assert s.pending + (a + b) == s.pending + a + b;
  }

  // ------------------------------------------------------------ however the data is cut

  /** The second of two data callbacks only goes on with the first. */
  predicate GoesOn(x: Item, y: Item) {
    && x.Call? && x.cb.event.TextEvent? && x.cb.event.text != []
    && y.Call? && y.cb.event.TextEvent? && y.cb.event.kind == x.cb.event.kind
  }

  function Merged(x: Item, y: Item): Item
    requires GoesOn(x, y)
  {
    var e, at := x.cb.event, x.cb.at;
    Call(Callback(e.(text := e.text + y.cb.event.text), at.(bytes := at.bytes + y.cb.at.bytes)))
  }

  /** The items with every piece of data joined to the one it goes on with. */
  ghost function Uncut(items: seq<Item>): seq<Item>
    decreases |items|
  {
    if items == [] then []
    else if |items| > 1 && GoesOn(items[0], items[1]) then Uncut([Merged(items[0], items[1])] + items[2..])
    else [items[0]] + Uncut(items[1..])
  }

  /** The two lists differ only in where data is cut. */
  ghost predicate Recut(xs: seq<Item>, ys: seq<Item>) { Uncut(xs) == Uncut(ys) }

  lemma JoinKeeps(conv: Converter, s: State, x: Item, y: Item)
    requires GoesOn(x, y)
    ensures Apply(conv, Apply(conv, s, x), y) == Apply(conv, s, Merged(x, y))
  {
    SplitPiece(conv, s, x.cb.event.kind, x.cb.event.text, y.cb.event.text, Merged(x, y).cb.at, y.cb.at);
    assert Merged(x, y).cb.at.(bytes := Merged(x, y).cb.at.bytes - y.cb.at.bytes) == x.cb.at;
  }

  lemma {:induction false} UncutKeeps(conv: Converter, s: State, items: seq<Item>)
    ensures Run(conv, s, Uncut(items)) == Run(conv, s, items)
    decreases |items|
  {
    hide Apply;
    if items == [] {
    } else if |items| > 1 && GoesOn(items[0], items[1]) {
      var one := [Merged(items[0], items[1])];
      JoinKeeps(conv, s, items[0], items[1]);
      UncutKeeps(conv, s, one + items[2..]);
      assert (one + items[2..])[1..] == items[2..] && items[1..][1..] == items[2..];
    } else {
      UncutKeeps(conv, Apply(conv, s, items[0]), items[1..]);
      assert ([items[0]] + Uncut(items[1..]))[1..] == Uncut(items[1..]);
    }
  }

  /** Cutting data differently, in any number of places, changes nothing: not the tokens, the error, or any
      position. */
  lemma RecutSame(conv: Converter, s: State, xs: seq<Item>, ys: seq<Item>)
    requires Recut(xs, ys)
    ensures Run(conv, s, xs) == Run(conv, s, ys)
  {
    UncutKeeps(conv, s, xs);
    UncutKeeps(conv, s, ys);
  }

  /** A cut, wherever it is made, is a difference of this kind. */
  lemma {:induction false} CutIsRecut(xs: seq<Item>, x: Item, y: Item, ys: seq<Item>)
    requires GoesOn(x, y)
    ensures Recut(xs + ([x, y] + ys), xs + ([Merged(x, y)] + ys))
    decreases |xs|
  {
    var two, one := [x, y] + ys, [Merged(x, y)] + ys;
    if xs == [] {
      assert xs + two == two && xs + one == one && two[2..] == ys;
    } else if |xs| > 1 {
      assert (xs + two)[2..] == xs[2..] + two && (xs + one)[2..] == xs[2..] + one;
      assert (xs + two)[1..] == xs[1..] + two && (xs + one)[1..] == xs[1..] + one;
      if GoesOn(xs[0], xs[1]) {
        var j := [Merged(xs[0], xs[1])];
        CutIsRecut(j + xs[2..], x, y, ys);
        ConcatAssoc(j, xs[2..], two);
        ConcatAssoc(j, xs[2..], one);
      } else {
        CutIsRecut(xs[1..], x, y, ys);
      }
    } else {
      LastBeforeCut(xs[0], x, y, ys);
      assert xs + two == [xs[0]] + two && xs + one == [xs[0]] + one;
    }
  }

  lemma LastBeforeCut(w: Item, x: Item, y: Item, ys: seq<Item>)
    requires GoesOn(x, y)
    ensures Recut([w] + ([x, y] + ys), [w] + ([Merged(x, y)] + ys))
  {
    if GoesOn(w, x) {
      JoinThree(w, x, y, ys);
    } else {
      KeepFirst(w, x, y, ys);
    }
  }

  lemma KeepFirst(w: Item, x: Item, y: Item, ys: seq<Item>)
    requires GoesOn(x, y) && !GoesOn(w, x)
    ensures Recut([w] + ([x, y] + ys), [w] + ([Merged(x, y)] + ys))
  {
    var two, one := [x, y] + ys, [Merged(x, y)] + ys;
    assert two[2..] == ys && Uncut(two) == Uncut(one) && !GoesOn(w, Merged(x, y));
    assert ([w] + two)[1..] == two && ([w] + one)[1..] == one;
    hide Merged;
  }

  lemma JoinThree(w: Item, x: Item, y: Item, ys: seq<Item>)
    requires GoesOn(x, y) && GoesOn(w, x)
    ensures Recut([w] + ([x, y] + ys), [w] + ([Merged(x, y)] + ys))
  {
    var two, one, wx := [x, y] + ys, [Merged(x, y)] + ys, Merged(w, x);
    assert w.cb.event.text + (x.cb.event.text + y.cb.event.text) == w.cb.event.text + x.cb.event.text + y.cb.event.text;
    assert Merged(wx, y) == Merged(w, Merged(x, y)) && GoesOn(wx, y) && GoesOn(w, Merged(x, y));
    hide *;
    assert two == [x] + ([y] + ys);
    UncutTwo(w, x, [y] + ys);
    UncutTwo(wx, y, ys);
    UncutTwo(w, Merged(x, y), ys);
    SameUncut([w] + two, [w] + one);
  }

  lemma UncutTwo(x: Item, y: Item, ys: seq<Item>)
    requires GoesOn(x, y)
    ensures Uncut([x] + ([y] + ys)) == Uncut([Merged(x, y)] + ys)
  {
    hide Merged, GoesOn;
    assert ([x] + ([y] + ys))[2..] == ys;
  }

  lemma SameUncut(xs: seq<Item>, ys: seq<Item>)
    requires Uncut(xs) == Uncut(ys)
    ensures Recut(xs, ys)
  {}
}
