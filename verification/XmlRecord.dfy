/** From each callback of Expat to the variables of its record, by their names: what awk code finds in XMLEVENT,
    in the variable of the event, in XMLNAME, in XMLATTR and in $0. */
module XmlRecord {
  import opened Common
  import opened XmlEvents
  import opened XmlVariables

  /** The names of varinit, by place. */
  const NAMES: seq<string> := [
    "XMLEVENT", "XMLNAME", "XMLDECLARATION", "XMLSTARTELEM", "XMLENDELEM", "XMLCHARDATA", "XMLPROCINST",
    "XMLCOMMENT", "XMLSTARTCDATA", "XMLENDCDATA", "XMLSTARTDOCT", "XMLENDDOCT", "XMLUNPARSED", "XMLERROR",
    "XMLROW", "XMLCOL", "XMLLEN", "XMLDEPTH", "XMLENDDOCUMENT"]

  /** No two variables have the same name. */
  lemma NamesDiffer(v: Var, w: Var)
    requires NAMES[v] == NAMES[w]
    ensures v == w
  {}

  /** The variable of a kind is the one that is named after the event. */
  lemma KindNamed(k: Kind)
    ensures NAMES[KindVar(k)] == "XML" + EventName(k)
  {
    match k
    case StartElement => assert "XML" + "STARTELEM" == "XMLSTARTELEM";
    case EndElement => assert "XML" + "ENDELEM" == "XMLENDELEM";
    case CharData => assert "XML" + "CHARDATA" == "XMLCHARDATA";
    case StartCData => assert "XML" + "STARTCDATA" == "XMLSTARTCDATA";
    case EndCData => assert "XML" + "ENDCDATA" == "XMLENDCDATA";
    case ProcInst => assert "XML" + "PROCINST" == "XMLPROCINST";
    case Comment => assert "XML" + "COMMENT" == "XMLCOMMENT";
    case Decl => assert "XML" + "DECLARATION" == "XMLDECLARATION";
    case StartDoct => assert "XML" + "STARTDOCT" == "XMLSTARTDOCT";
    case EndDoct => assert "XML" + "ENDDOCT" == "XMLENDDOCT";
    case Unparsed => assert "XML" + "UNPARSED" == "XMLUNPARSED";
    case EndDocument => assert "XML" + "ENDDOCUMENT" == "XMLENDDOCUMENT";
  }

  lemma KindVarInjective(j: Kind, k: Kind)
    requires KindVar(j) == KindVar(k)
    ensures j == k
  {}

  // ------------------------------------------------------------ the variables of a record

  /** The value of a variable after a record, by its name: the event, its own variable, the name if it has one,
      where it is, and how deep; every other variable is empty. */
  function Shown(lit: Literal, event: string, own: Value, name: Value, spot: Spot, depth: int, variable: string): Value {
    if variable == "XMLEVENT" then Text(InCharset(lit, event))
    else if variable == "XML" + event then own
    else if variable == "XMLNAME" then name
    else if variable == "XMLROW" then Number(spot.row)
    else if variable == "XMLCOL" then Number(spot.col)
    else if variable == "XMLLEN" then Number(spot.len)
    else if variable == "XMLDEPTH" then Number(depth)
    else Empty
  }

  ghost predicate Shows(lit: Literal, p: Pulled, before: int, event: string, own: Value, name: Value, spot: Spot, depth: int) {
    forall v: Var :: Afresh(Sets(lit, p, before), v) == Shown(lit, event, own, name, spot, depth, NAMES[v])
  }

  /** The places of the names that Shown asks for. */
  lemma Named(k: Kind, v: Var)
    ensures NAMES[v] == "XMLEVENT" <==> v == XMLEVENT
    ensures NAMES[v] == "XMLNAME" <==> v == XMLNAME
    ensures NAMES[v] == "XMLROW" <==> v == XMLROW
    ensures NAMES[v] == "XMLCOL" <==> v == XMLCOL
    ensures NAMES[v] == "XMLLEN" <==> v == XMLLEN
    ensures NAMES[v] == "XMLDEPTH" <==> v == XMLDEPTH
    ensures NAMES[v] == "XML" + EventName(k) <==> v == KindVar(k)
  {
    assert NAMES[XMLEVENT] == "XMLEVENT" && NAMES[XMLNAME] == "XMLNAME" && NAMES[XMLROW] == "XMLROW";
    assert NAMES[XMLCOL] == "XMLCOL" && NAMES[XMLLEN] == "XMLLEN" && NAMES[XMLDEPTH] == "XMLDEPTH";
    KindNamed(k);
    forall w: Var | NAMES[v] == NAMES[w] ensures v == w {
      NamesDiffer(v, w);
    }
    hide KindVar, EventName;
  }

  /** The record of a token shows its kind. */
  lemma TokenShows(lit: Literal, t: Token, before: int)
    ensures var name := if HasName(t.kind) && t.name.Some? then Text(t.name.value) else Empty;
      Shows(lit, Got(t), before, EventName(t.kind), if name == Empty then Number(1) else name, name, t.spot,
        if t.kind == StartElement then before + 1 else before)
  {
    var name := if HasName(t.kind) && t.name.Some? then Text(t.name.value) else Empty;
    forall v: Var ensures Afresh(Sets(lit, Got(t), before), v) ==
      Shown(lit, EventName(t.kind), if name == Empty then Number(1) else name, name, t.spot,
        if t.kind == StartElement then before + 1 else before, NAMES[v])
    {
      Named(t.kind, v);
      assert KindVar(t.kind) !in {XMLEVENT, XMLNAME, XMLROW, XMLCOL, XMLLEN, XMLDEPTH};
      hide KindVar, EventName;
    }
  }

  // ------------------------------------------------------------ from the callback to the record

  /** In a state with nothing pending and no error, the callback comes to exactly this token, when what is pending
      is closed behind it. */
  ghost predicate Yields(conv: Converter, s: State, ev: Event, at: Place, tok: Token) {
    && s.fault.None? && s.pending == []
    && Run(conv, s, [Call(Callback(ev, at)), Flush]).tokens == s.tokens + [tok]
  }

  /** The record of a token: its variables, what it puts into XMLATTR, and $0. */
  ghost predicate Recorded(lit: Literal, space: bytes, before: int, tok: Token, event: string, own: Value, name: Value,
                           spot: Spot, depth: int, attr: map<bytes, Value>, text: Option<bytes>)
  {
    && Shows(lit, Got(tok), before, event, own, name, spot, depth)
    && AttrSets(lit, Got(tok)) == attr && RecordText(space, Got(tok)) == text
  }

  /** A state before a callback. */
  ghost predicate Clean(s: State) { s.fault.None? && s.pending == [] }

  /** Such a callback comes to the conversion of the token it asks for. */
  lemma YieldsToken(conv: Converter, s: State, ev: Event, at: Place) returns (tok: Token)
    requires Clean(s) && !ev.TextEvent? && ConvertToken(conv, RawToken(ev, s.prev, at)).Some?
    ensures Yields(conv, s, ev, at, tok) && Some(tok) == ConvertToken(conv, RawToken(ev, s.prev, at))
  {
    tok := ConvertToken(conv, RawToken(ev, s.prev, at)).value;
    RunTwo(conv, s, Call(Callback(ev, at)), Flush);
    hide Run, ConvertToken, RawToken;
  }

  lemma YieldsText(conv: Converter, s: State, kind: Kind, text: bytes, at: Place) returns (tok: Token)
    requires Clean(s) && text != [] && Convert(conv, text).Some?
    ensures Yields(conv, s, TextEvent(kind, text), at, tok)
    ensures tok == Token(kind, None, Convert(conv, text), None, 0, [], SpotOf(s.prev, at))
  {
    tok := Token(kind, None, Convert(conv, text), None, 0, [], SpotOf(s.prev, at));
    RunTwo(conv, s, Call(Callback(TextEvent(kind, text), at)), Flush);
    hide Run, SpotOf;
  }

  /** <name a="v" ...>: the converted name, the attributes by name, the names in order in $0, one deeper. */
  lemma StartRecord(conv: Converter, lit: Literal, space: bytes, s: State, name: bytes, attrs: seq<(bytes, bytes)>,
                    at: Place, before: int, n: bytes, avs: seq<(bytes, bytes)>) returns (tok: Token)
    requires Clean(s) && Convert(conv, name) == Some(n) && Pairs(conv, attrs, avs)
    ensures Yields(conv, s, StartEvent(name, attrs), at, tok)
    ensures Recorded(lit, space, before, tok, "STARTELEM", Text(n), Text(n), SpotOf(s.prev, at), before + 1,
              AttrMap(avs), Some(AttrNames(space, avs)))
  {
    PairsConvert(conv, attrs, avs);
    tok := YieldsToken(conv, s, StartEvent(name, attrs), at);
    TokenShows(lit, tok, before);
    hide Shows, Yields, AttrMap, AttrNames, ConvertAttrs, SpotOf;
  }

  /** Each name and value is the conversion of the one at the same place. */
  ghost predicate Pairs(conv: Converter, attrs: seq<(bytes, bytes)>, avs: seq<(bytes, bytes)>) {
    && |avs| == |attrs|
    && forall i :: 0 <= i < |avs| ==> Convert(conv, attrs[i].0) == Some(avs[i].0) && Convert(conv, attrs[i].1) == Some(avs[i].1)
  }

  lemma {:induction false} PairsConvert(conv: Converter, attrs: seq<(bytes, bytes)>, avs: seq<(bytes, bytes)>)
    requires Pairs(conv, attrs, avs)
    ensures ConvertAttrs(conv, attrs) == Some(avs)
    decreases |attrs|
  {
    if attrs != [] {
      PairsConvert(conv, attrs[1..], avs[1..]);
      assert avs == [avs[0]] + avs[1..];
    }
  }

  /** </name>. */
  lemma EndRecord(conv: Converter, lit: Literal, space: bytes, s: State, name: bytes, at: Place, before: int, n: bytes)
    returns (tok: Token)
    requires Clean(s) && Convert(conv, name) == Some(n)
    ensures Yields(conv, s, EndEvent(name), at, tok)
    ensures Recorded(lit, space, before, tok, "ENDELEM", Text(n), Text(n), SpotOf(s.prev, at), before, map[], None)
  {
    tok := YieldsToken(conv, s, EndEvent(name), at);
    TokenShows(lit, tok, before);
    hide Shows, Yields, SpotOf;
  }

  /** Character data, and data that nothing else claims: $0 is the data. */
  lemma TextRecord(conv: Converter, lit: Literal, space: bytes, s: State, kind: Kind, text: bytes, at: Place, before: int,
                   d: bytes) returns (tok: Token)
    requires Clean(s) && text != [] && Convert(conv, text) == Some(d) && (kind == CharData || kind == Unparsed)
    ensures Yields(conv, s, TextEvent(kind, text), at, tok)
    ensures Recorded(lit, space, before, tok, if kind == CharData then "CHARDATA" else "UNPARSED", Number(1), Empty,
              SpotOf(s.prev, at), before, map[], Some(d))
  {
    tok := YieldsText(conv, s, kind, text, at);
    TokenShows(lit, tok, before);
    hide Shows, Yields, SpotOf;
  }

  /** The events without any argument. */
  lemma MarkRecord(conv: Converter, lit: Literal, space: bytes, s: State, kind: Kind, at: Place, before: int)
    returns (tok: Token)
    requires Clean(s) && (kind == StartCData || kind == EndCData || kind == EndDoct)
    ensures Yields(conv, s, MarkEvent(kind), at, tok)
    ensures Recorded(lit, space, before, tok,
              if kind == StartCData then "STARTCDATA" else if kind == EndCData then "ENDCDATA" else "ENDDOCT",
              Number(1), Empty, SpotOf(s.prev, at), before, map[], None)
  {
    tok := YieldsToken(conv, s, MarkEvent(kind), at);
    TokenShows(lit, tok, before);
    hide Shows, Yields, SpotOf;
  }

  /** <?target data?>: the target in XMLPROCINST and XMLNAME, the data in $0. */
  lemma PiRecord(conv: Converter, lit: Literal, space: bytes, s: State, target: bytes, data: bytes, at: Place, before: int,
                 t: bytes, d: bytes) returns (tok: Token)
    requires Clean(s) && Convert(conv, target) == Some(t) && Convert(conv, data) == Some(d)
    ensures Yields(conv, s, PiEvent(target, data), at, tok)
    ensures Recorded(lit, space, before, tok, "PROCINST", Text(t), Text(t), SpotOf(s.prev, at), before, map[], Some(d))
  {
    tok := YieldsToken(conv, s, PiEvent(target, data), at);
    TokenShows(lit, tok, before);
    hide Shows, Yields, SpotOf;
  }

  /** <!--data-->. */
  lemma CommentRecord(conv: Converter, lit: Literal, space: bytes, s: State, data: bytes, at: Place, before: int, d: bytes)
    returns (tok: Token)
    requires Clean(s) && Convert(conv, data) == Some(d)
    ensures Yields(conv, s, CommentEvent(data), at, tok)
    ensures Recorded(lit, space, before, tok, "COMMENT", Number(1), Empty, SpotOf(s.prev, at), before, map[], Some(d))
  {
    tok := YieldsToken(conv, s, CommentEvent(data), at);
    TokenShows(lit, tok, before);
    hide Shows, Yields, SpotOf;
  }

  /** An optional string as an entry of XMLATTR. */
  function Entry(m: map<bytes, Value>, name: bytes): Option<bytes> {
    if name in m && m[name].Text? then Some(m[name].s) else None
  }

  ghost predicate Distinct3(lit: Literal, a: string, b: string, c: string) {
    InCharset(lit, a) != InCharset(lit, b) && InCharset(lit, a) != InCharset(lit, c) && InCharset(lit, b) != InCharset(lit, c)
  }

  /** <?xml version encoding standalone?>: each under its own name, when it is there; -1 means no standalone. */
  lemma DeclRecord(conv: Converter, lit: Literal, space: bytes, s: State, version: Option<bytes>, encoding: Option<bytes>,
                   standalone: int, at: Place, before: int, v: Option<bytes>, e: Option<bytes>) returns (tok: Token)
    requires Clean(s) && ConvertOpt(conv, version) == Some(v) && ConvertOpt(conv, encoding) == Some(e)
    requires Distinct3(lit, "VERSION", "ENCODING", "STANDALONE")
    ensures Yields(conv, s, DeclEvent(version, encoding, standalone), at, tok)
    ensures Recorded(lit, space, before, tok, "DECLARATION", Number(1), Empty, SpotOf(s.prev, at), before,
              AttrSets(lit, Got(tok)), None)
    ensures var attr := AttrSets(lit, Got(tok));
      && Entry(attr, InCharset(lit, "VERSION")) == v && Entry(attr, InCharset(lit, "ENCODING")) == e
      && Entry(attr, InCharset(lit, "STANDALONE")) ==
         (if standalone < 0 then None else Some(InCharset(lit, if standalone == 0 then "no" else "yes")))
      && attr.Keys <= {InCharset(lit, "VERSION"), InCharset(lit, "ENCODING"), InCharset(lit, "STANDALONE")}
  {
    tok := YieldsToken(conv, s, DeclEvent(version, encoding, standalone), at);
    TokenShows(lit, tok, before);
    hide Shows, Yields, SpotOf, InCharset;
  }

  /** <!DOCTYPE name PUBLIC pubid SYSTEM sysid [...]>: the name, and each identifier under its own name. */
  lemma DoctRecord(conv: Converter, lit: Literal, space: bytes, s: State, name: bytes, sysid: Option<bytes>,
                   pubid: Option<bytes>, internal: int, at: Place, before: int, n: bytes, sys: Option<bytes>,
                   pub: Option<bytes>) returns (tok: Token)
    requires Clean(s) && Convert(conv, name) == Some(n)
    requires ConvertOpt(conv, sysid) == Some(sys) && ConvertOpt(conv, pubid) == Some(pub)
    requires Distinct3(lit, "PUBLIC", "SYSTEM", "INTERNAL_SUBSET")
    ensures Yields(conv, s, DoctEvent(name, sysid, pubid, internal), at, tok)
    ensures Recorded(lit, space, before, tok, "STARTDOCT", Text(n), Text(n), SpotOf(s.prev, at), before,
              AttrSets(lit, Got(tok)), None)
    ensures var attr, subset := AttrSets(lit, Got(tok)), InCharset(lit, "INTERNAL_SUBSET");
      && Entry(attr, InCharset(lit, "PUBLIC")) == pub && Entry(attr, InCharset(lit, "SYSTEM")) == sys
      && (subset in attr <==> internal != 0) && (internal != 0 ==> attr[subset] == Number(internal))
      && attr.Keys <= {InCharset(lit, "PUBLIC"), InCharset(lit, "SYSTEM"), subset}
  {
    tok := YieldsToken(conv, s, DoctEvent(name, sysid, pubid, internal), at);
    TokenShows(lit, tok, before);
    hide Shows, Yields, SpotOf, InCharset;
  }

  /** The end of a document of a stream. */
  lemma EndDocumentRecord(conv: Converter, lit: Literal, space: bytes, s: State, at: Place, restart: bool, before: int)
    returns (tok: Token)
    requires Clean(s)
    ensures Run(conv, s, [DocEnd(at, restart), Flush]).tokens == s.tokens + [tok]
    ensures Recorded(lit, space, before, tok, "ENDDOCUMENT", Number(1), Empty, SpotOf(s.prev, at), before, map[], None)
  {
    tok := Located(EndDocument, s.prev, at);
    RunTwo(conv, s, DocEnd(at, restart), Flush);
    TokenShows(lit, tok, before);
    hide Shows, SpotOf, Run;
  }

  /** An error: its text, its place and the depth, and nothing else; and at the end of input nothing at all. */
  lemma EndShows(lit: Literal, space: bytes, text: bytes, spot: Spot, before: int, v: Var)
    ensures Afresh(Sets(lit, Eof, before), v) == Empty
    ensures Afresh(Sets(lit, Failed(Some(text), spot), before), v) ==
      if NAMES[v] == "XMLERROR" then Text(text) else if NAMES[v] == "XMLROW" then Number(spot.row)
      else if NAMES[v] == "XMLCOL" then Number(spot.col) else if NAMES[v] == "XMLLEN" then Number(spot.len)
      else if NAMES[v] == "XMLDEPTH" then Number(before) else Empty
    ensures AttrSets(lit, Eof) == AttrSets(lit, Failed(Some(text), spot)) == map[]
    ensures RecordText(space, Eof) == RecordText(space, Failed(Some(text), spot)) == None
  {
    Named(CharData, v);
    assert NAMES[XMLERROR] == "XMLERROR";
    if NAMES[v] == "XMLERROR" {
      NamesDiffer(v, XMLERROR);
    }
  }

  // ------------------------------------------------------------ lists of names

  /** Each piece after its separator. */
  ghost function Separated(sep: bytes, pieces: seq<bytes>): seq<bytes> { seq(|pieces|, i requires 0 <= i < |pieces| => sep + pieces[i]) }

  ghost function NamesOf(attrs: seq<(bytes, bytes)>): seq<bytes> { seq(|attrs|, i requires 0 <= i < |attrs| => attrs[i].0) }

  /** $0 of a start element: the names in order, with the separator between any two. */
  lemma {:induction false} NamesSeparated(space: bytes, attrs: seq<(bytes, bytes)>)
    requires attrs != [] && forall i :: 0 <= i < |attrs| ==> attrs[i].0 != []
    ensures AttrNames(space, attrs) != [] && space + AttrNames(space, attrs) == Flat(Separated(space, NamesOf(attrs)))
    decreases |attrs|
  {
    var n := |attrs| - 1;
    var front, last := attrs[..n], attrs[n].0;
    assert Separated(space, NamesOf(attrs)) == Separated(space, NamesOf(front)) + [space + last];
    FlatSnoc(Separated(space, NamesOf(front)), space + last);
    if n == 0 {
      assert front == [] && AttrNames(space, front) == [] && Separated(space, NamesOf(front)) == [];
      assert Flat<byte>([]) == [] && [] + (space + last) == space + last;
    } else {
      NamesSeparated(space, front);
      assert space + (AttrNames(space, front) + space + last) == (space + AttrNames(space, front)) + (space + last);
    }
  }

  /** XMLPATH: every open element after its slash. */
  lemma {:induction false} PathSeparated(slash: bytes, open: seq<bytes>)
    ensures PathOf(slash, open) == Flat(Separated(slash, open))
    decreases |open|
  {
    if open == [] {
      assert Separated(slash, open) == [];
    } else {
      var n := |open| - 1;
      PathSeparated(slash, open[..n]);
      assert Separated(slash, open) == Separated(slash, open[..n]) + [slash + open[n]];
      FlatSnoc(Separated(slash, open[..n]), slash + open[n]);
      ConcatAssoc(PathOf(slash, open[..n]), slash, open[n]);
    }
  }

  /** XMLATTR of a start element: each attribute under its name, when no name comes twice. */
  lemma {:induction false} AttrMapHas(attrs: seq<(bytes, bytes)>)
    requires forall i, j :: 0 <= i < j < |attrs| ==> attrs[i].0 != attrs[j].0
    ensures forall i :: 0 <= i < |attrs| ==> attrs[i].0 in AttrMap(attrs) && AttrMap(attrs)[attrs[i].0] == Text(attrs[i].1)
    ensures forall a :: a in AttrMap(attrs) ==> a in NamesOf(attrs)
    decreases |attrs|
  {
    if attrs != [] {
      var n := |attrs| - 1;
      AttrMapHas(attrs[..n]);
      forall i | 0 <= i < |attrs| ensures attrs[i].0 in AttrMap(attrs) && AttrMap(attrs)[attrs[i].0] == Text(attrs[i].1) {
        if i < n {
          assert attrs[..n][i] == attrs[i];
        }
      }
      assert NamesOf(attrs) == NamesOf(attrs[..n]) + [attrs[n].0];
    }
  }
}
