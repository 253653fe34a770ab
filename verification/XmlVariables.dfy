/** The awk variables of the XML extension (xml/xml_interface.c): the reset by generation counter, XMLPATH
    and its version counter, against clearing every variable before each record. */
module XmlVariables {
  import opened Common
  import opened XmlEvents

  /** gencounter_t is an unsigned int. */
  const WORD32 := 0x1_0000_0000

  function Next(n: nat): nat { (n + 1) % WORD32 }

  /** A variable is its place in the table varinit; the two that awk code may assign come first. */
  type Var = i: int | 0 <= i < NUM_RESET

  const NUM_RW := 2
  const NUM_RESET := 19

  const XMLEVENT: Var := 0
  const XMLNAME: Var := 1
  const XMLDECLARATION: Var := 2
  const XMLSTARTELEM: Var := 3
  const XMLENDELEM: Var := 4
  const XMLCHARDATA: Var := 5
  const XMLPROCINST: Var := 6
  const XMLCOMMENT: Var := 7
  const XMLSTARTCDATA: Var := 8
  const XMLENDCDATA: Var := 9
  const XMLSTARTDOCT: Var := 10
  const XMLENDDOCT: Var := 11
  const XMLUNPARSED: Var := 12
  const XMLERROR: Var := 13
  const XMLROW: Var := 14
  const XMLCOL: Var := 15
  const XMLLEN: Var := 16
  const XMLDEPTH: Var := 17
  const XMLENDDOCUMENT: Var := 18

  predicate Assignable(v: Var) { v < NUM_RW }

  datatype Value = Empty | Number(n: int) | Text(s: bytes)

  datatype Node = Node(value: Value, gen: nat)

  /** The value of a variable that was cleared before these were set. */
  function Afresh(sets: map<Var, Value>, v: Var): Value { if v in sets then sets[v] else Empty }

  // ------------------------------------------------------------ what a record sets

  /** What XML_PullerNext gives: a token, or the end, or an error. */
  datatype Pulled = Got(token: Token) | Eof | Failed(error: Option<bytes>, spot: Spot)

  /** The variable of a token's kind, and the name XMLEVENT gets for it. */
  function KindVar(k: Kind): Var {
    match k
    case StartElement => XMLSTARTELEM case EndElement => XMLENDELEM case CharData => XMLCHARDATA
    case StartCData => XMLSTARTCDATA case EndCData => XMLENDCDATA case ProcInst => XMLPROCINST
    case Comment => XMLCOMMENT case Decl => XMLDECLARATION case StartDoct => XMLSTARTDOCT
    case EndDoct => XMLENDDOCT case Unparsed => XMLUNPARSED case EndDocument => XMLENDDOCUMENT
  }

  function EventName(k: Kind): string {
    match k
    case StartElement => "STARTELEM" case EndElement => "ENDELEM" case CharData => "CHARDATA"
    case StartCData => "STARTCDATA" case EndCData => "ENDCDATA" case ProcInst => "PROCINST"
    case Comment => "COMMENT" case Decl => "DECLARATION" case StartDoct => "STARTDOCT"
    case EndDoct => "ENDDOCT" case Unparsed => "UNPARSED" case EndDocument => "ENDDOCUMENT"
  }

  /** These tokens carry a name that goes to XMLNAME. */
  predicate HasName(k: Kind) { k == StartElement || k == EndElement || k == ProcInst || k == StartDoct }

  const UNKNOWN := "XML Puller: unknown error"

  /** The literals of the extension in the charset of the file. */
  type Literal = string -> bytes

  function InCharset(lit: Literal, s: string): bytes { lit(s) }

  function Plain(s: string): bytes
  {
    if s == [] then [] else [s[0] as int % 256] + Plain(s[1..])
  }

  function SpotVars(s: Spot): map<Var, Value> {
    map[XMLROW := Number(s.row), XMLCOL := Number(s.col), XMLLEN := Number(s.len)]
  }

  /** The variables a record sets; depth counts the open elements, and an element being opened or closed. */
  function Sets(lit: Literal, p: Pulled, depth: int): map<Var, Value> {
    match p
    case Eof => map[]
    case Failed(error, spot) => SpotVars(spot)[XMLERROR := Text(ErrorText(error))][XMLDEPTH := Number(depth)]
    case Got(t) =>
      TokenSets(t, SpotVars(t.spot)[XMLDEPTH := Number(if t.kind == StartElement then depth + 1 else depth)]
                                   [XMLEVENT := Text(InCharset(lit, EventName(t.kind)))])
  }

  function ErrorText(error: Option<bytes>): bytes { match error case Some(e) => e case None => Plain(UNKNOWN) }

  function TokenSets(t: Token, m: map<Var, Value>): map<Var, Value> {
    if HasName(t.kind) && t.name.Some? then m[KindVar(t.kind) := Text(t.name.value)][XMLNAME := Text(t.name.value)]
    else m[KindVar(t.kind) := Number(1)]
  }

  /** What a record puts into XMLATTR. */
  function AttrSets(lit: Literal, p: Pulled): map<bytes, Value> {
    if !p.Got? then map[]
    else match p.token.kind
      case StartElement => AttrMap(p.token.attrs)
      case Decl => DeclAttrs(lit, p.token)
      case StartDoct => DoctAttrs(lit, p.token)
      case _ => map[]
  }

  function WithText(m: map<bytes, Value>, name: bytes, x: Option<bytes>): map<bytes, Value> {
    if x.Some? then m[name := Text(x.value)] else m
  }

  function DeclAttrs(lit: Literal, t: Token): map<bytes, Value> {
    var m := WithText(WithText(map[], InCharset(lit, "VERSION"), t.name), InCharset(lit, "ENCODING"), t.data);
    if t.number >= 0 then
      m[InCharset(lit, "STANDALONE") := Text(InCharset(lit, if t.number != 0 then "yes" else "no"))]
    else m
  }

  function DoctAttrs(lit: Literal, t: Token): map<bytes, Value> {
    var m := WithText(WithText(map[], InCharset(lit, "PUBLIC"), t.pubid), InCharset(lit, "SYSTEM"), t.data);
    if t.number != 0 then m[InCharset(lit, "INTERNAL_SUBSET") := Number(t.number)] else m
  }

  function AttrMap(attrs: seq<(bytes, bytes)>): map<bytes, Value> {
    if attrs == [] then map[]
    else AttrMap(attrs[..|attrs| - 1])[attrs[|attrs| - 1].0 := Text(attrs[|attrs| - 1].1)]
  }

  /** The attribute names, in the order of their positions, with a space in between. */
  function AttrNames(space: bytes, attrs: seq<(bytes, bytes)>): bytes {
    if attrs == [] then []
    else AddName(space, AttrNames(space, attrs[..|attrs| - 1]), attrs[|attrs| - 1].0)
  }

  function AddName(space: bytes, names: bytes, name: bytes): bytes {
    (if names != [] then names + space else names) + name
  }

  /** $0: the attribute names, or the data of the tokens that have any. */
  function RecordText(space: bytes, p: Pulled): Option<bytes> {
    if !p.Got? then None
    else match p.token.kind
      case StartElement => Some(AttrNames(space, p.token.attrs))
      case CharData | ProcInst | Comment | Unparsed => p.token.data
      case _ => None
  }

  /** What Expat and the puller promise of a token, given the names of the open elements. */
  predicate Fits(p: Pulled, open: seq<bytes>) {
    p.Got? ==>
      && (HasName(p.token.kind) ==> p.token.name.Some?)
      && (p.token.kind == EndElement ==> open != [] && p.token.name == Some(open[|open| - 1]))
  }

  function OpenAfter(p: Pulled, open: seq<bytes>): seq<bytes>
    requires Fits(p, open)
  {
    if p.Got? && p.token.kind == StartElement then open + [p.token.name.value]
    else if p.Got? && p.token.kind == EndElement then open[..|open| - 1]
    else open
  }

  // ------------------------------------------------------------ one file

  /** The memory with some bytes copied in. */
  function Copy(mem: bytes, at: nat, s: bytes): (r: bytes)
    requires at + |s| <= |mem|
    ensures |r| == |mem| && r[..at] == mem[..at] && r[at..at + |s|] == s
  {
    mem[..at] + s + mem[at + |s|..]
  }

  /** Slash and name of each open element, outermost first. */
  function PathOf(slash: bytes, open: seq<bytes>): bytes {
    if open == [] then [] else PathOf(slash, open[..|open| - 1]) + slash + open[|open| - 1]
  }

  class XmlState {
    var depth: int
    const space: bytes
    const slash: bytes
    const lit: Literal
    var attrnames: bytes        // a buffer; its length is bufsize
    var path: bytes             // a buffer; its length is pathsize
    var pathlen: nat
    var pathvers: nat
    ghost var open: seq<bytes>  // the names of the open elements

    ghost predicate PathValid()
      reads this`path, this`pathlen, this`pathvers, this`open
    {
      pathlen <= |path| && path[..pathlen] == PathOf(slash, open) && pathvers < WORD32
    }

    ghost predicate Valid()
      reads this`depth, this`path, this`pathlen, this`pathvers, this`open
    {
      PathValid() && depth == |open|
    }

    ghost function Path(): bytes
      reads this`path, this`pathlen
      requires pathlen <= |path|
    {
      path[..pathlen]
    }

    /** take_control_of. */
    constructor (space: bytes, slash: bytes, lit: Literal)
      ensures Valid() && open == [] && Path() == [] && pathvers == 1
    {
      this.space, this.slash, this.lit, depth := space, slash, lit, 0;
      attrnames, path, pathlen, pathvers := seq(128, _ => 0), seq(128, _ => 0), 0, 1;
      open := [];
    }

    /** append_xmlpath. */
    method AppendPath(name: bytes)
      requires PathValid()
      modifies this`path, this`pathlen, this`pathvers, this`open
      ensures PathValid() && open == old(open) + [name] && pathvers == Next(old(pathvers))
    {
      var newLen := pathlen + |slash| + |name|;
      var buf := path;
      if newLen > |buf| {
        buf := buf + seq(2 * newLen - |buf|, _ => 0);
      }
      buf := Copy(buf, pathlen, slash);
      buf := Copy(buf, pathlen + |slash|, name);
      assert buf[..newLen] == path[..pathlen] + slash + name;
      assert (open + [name])[..|open|] == open;
      path, pathlen, pathvers, open := buf, newLen, (pathvers + 1) % WORD32, open + [name];
    }

    /** chop_xmlpath: the buffer keeps its size. */
    method ChopPath(name: bytes)
      requires PathValid() && open != [] && open[|open| - 1] == name
      modifies this`pathlen, this`pathvers, this`open
      ensures PathValid() && open == old(open[..|open| - 1]) && pathvers == Next(old(pathvers))
    {
      var n := pathlen - (|name| + |slash|);
      assert path[..n] == PathOf(slash, open[..|open| - 1]) by {
        assert path[..pathlen][..n] == path[..n];
      }
      pathlen, pathvers, open := n, (pathvers + 1) % WORD32, open[..|open| - 1];
    }

    /** The names of update_xmlattr: a first pass for the size, a second for the bytes. */
    method JoinNames(attrs: seq<(bytes, bytes)>) returns (cnt: nat)
      modifies this`attrnames
      ensures cnt <= |attrnames| && attrnames[..cnt] == AttrNames(space, attrs)
    {
      hide AttrNames;
      var attrbytes := SizeOfNames(space, attrs);
      var buf := attrnames;
      if attrbytes > |buf| {
        buf := seq(|buf| + 2 * (attrbytes - |buf|) + 32, _ => 0);
      }
      var i := 0;
      cnt := 0;
      NamesStep(space, attrs, 0);
      while i < |attrs|
        invariant i <= |attrs| && cnt <= attrbytes <= |buf| && buf[..cnt] == AttrNames(space, attrs[..i])
      {
        NamesStep(space, attrs, i);
        NamesGrow(space, attrs, i + 1, |attrs|);
        assert attrs[..|attrs|] == attrs;
        buf, cnt := CopyName(space, buf, cnt, attrs[i].0);
        i := i + 1;
      }
      assert attrs[..i] == attrs;
      attrnames := buf;
    }
  }

  method SizeOfNames(space: bytes, attrs: seq<(bytes, bytes)>) returns (attrbytes: nat)
    ensures attrbytes == |AttrNames(space, attrs)|
  {
    hide AttrNames;
    var i := 0;
    attrbytes := 0;
    NamesStep(space, attrs, 0);
    while i < |attrs|
      invariant i <= |attrs| && attrbytes == |AttrNames(space, attrs[..i])|
    {
      NamesStep(space, attrs, i);
      if attrbytes != 0 {
        attrbytes := attrbytes + |space|;
      }
      attrbytes := attrbytes + |attrs[i].0|;
      i := i + 1;
    }
    assert attrs[..i] == attrs;
  }

  method CopyName(space: bytes, mem: bytes, n: nat, name: bytes) returns (buf: bytes, cnt: nat)
    requires n <= |mem| && |AddName(space, mem[..n], name)| <= |mem|
    ensures |buf| == |mem| && cnt <= |buf| && buf[..cnt] == AddName(space, mem[..n], name)
  {
    buf, cnt := mem, n;
    if cnt != 0 {
      buf := Copy(buf, cnt, space);
      cnt := cnt + |space|;
      assert buf[..cnt] == mem[..n] + space;
    }
    ghost var front := buf[..cnt];
    buf := Copy(buf, cnt, name);
    cnt := cnt + |name|;
    assert buf[..cnt] == front + name;
  }

  lemma NamesStep(space: bytes, attrs: seq<(bytes, bytes)>, i: nat)
    requires i <= |attrs|
    ensures i == 0 ==> AttrNames(space, attrs[..i]) == []
    ensures i < |attrs| ==>
      AttrNames(space, attrs[..i + 1]) == AddName(space, AttrNames(space, attrs[..i]), attrs[i].0)
  {
    if i < |attrs| {
      assert attrs[..i + 1][..i] == attrs[..i];
    }
  }

  lemma {:induction false} NamesGrow(space: bytes, attrs: seq<(bytes, bytes)>, i: nat, n: nat)
    requires i <= n <= |attrs|
    ensures |AttrNames(space, attrs[..i])| <= |AttrNames(space, attrs[..n])|
    decreases n
  {
    if i < n {
      NamesGrow(space, attrs, i, n - 1);
      assert attrs[..n][..n - 1] == attrs[..n - 1];
    }
  }
}
