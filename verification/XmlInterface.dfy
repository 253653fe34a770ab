/** xml_get_record (xml/xml_interface.c): every record leaves the variables as if all of them had been
    cleared before it, and XMLPATH as the path of its file. */
module XmlInterface {
  import opened Common
  import opened XmlEvents
  import opened XmlVariables

  class Interface {
    var curgen: nat
    var nodes: seq<Node>            // by place in the table
    var attr: map<bytes, Value>     // XMLATTR
    var xmlpath: bytes              // XMLPATH, its gen, and xmlpath_file
    var pathgen: nat
    var pathFile: XmlState?
    ghost var files: set<XmlState>  // the open files
    ghost var done: map<Var, Value> // what the current record has set so far

    /** Every counter is 0 or the current one, and 0 stands for the empty string in what awk code cannot assign. */
    ghost predicate Settled()
      reads this`curgen, this`nodes
    {
      && 0 < curgen < WORD32 && |nodes| == NUM_RESET
      && forall v: Var :: (nodes[v].gen == 0 || nodes[v].gen == curgen)
          && (nodes[v].gen == 0 && !Assignable(v) ==> nodes[v].value == Empty)
    }

    /** During a record: the variables set by it carry the current counter, the others do not. */
    ghost predicate Setting()
      reads this`curgen, this`nodes, this`done
    {
      && 0 < curgen < WORD32 && |nodes| == NUM_RESET
      && forall v: Var :: if v in done then nodes[v] == Node(done[v], curgen)
          else nodes[v].gen != curgen && (nodes[v].gen == 0 && !Assignable(v) ==> nodes[v].value == Empty)
    }

    /** XMLPATH is the path of the file it was taken from, unless the versions tell them apart. */
    ghost predicate PathKnown()
      reads this`xmlpath, this`pathgen, this`pathFile, this`files, files
    {
      pathFile != null && pathFile in files ==>
        && pathFile.PathValid()
        && (pathFile.pathvers == Next(pathgen) || (pathFile.pathvers == pathgen && xmlpath == pathFile.Path()))
        && pathgen < WORD32
    }

    ghost predicate Valid()
      reads this, files
    {
      Settled() && PathKnown() && forall f :: f in files ==> f.Valid()
    }

    constructor ()
      ensures Valid() && files == {}
    {
      curgen, nodes := 1, seq(NUM_RESET, _ => Node(Empty, 1));
      attr, xmlpath, pathgen, pathFile := map[], [], 1, null;
      files, done := {}, map[];
    }

    method Open(space: bytes, slash: bytes, lit: Literal) returns (xml: XmlState)
      requires Valid()
      modifies this`files
      ensures Valid() && fresh(xml) && files == old(files) + {xml}
      ensures xml.open == [] && xml.Path() == [] && xml.depth == 0 && xml.pathvers == 1
    {
      xml := new XmlState(space, slash, lit);
      files := files + {xml};
    }

    method Close(xml: XmlState)
      requires Valid()
      modifies this`files
      ensures Valid() && files == old(files) - {xml}
    {
      files := files - {xml};
    }

    /** awk code assigns XMLEVENT or XMLNAME. */
    method Assign(v: Var, x: Value)
      requires Valid() && Assignable(v)
      modifies this`nodes
      ensures Valid() && nodes == old(nodes)[v := Node(x, old(nodes[v].gen))]
    {
      nodes := nodes[v := Node(x, nodes[v].gen)];
    }

    /** The SET_ macros. */
    method Set(v: Var, x: Value)
      requires Setting()
      modifies this`nodes, this`done
      ensures Setting() && done == old(done)[v := x]
    {
      nodes := nodes[v := Node(x, curgen)];
      done := done[v := x];
    }

    /** RESET_XMLPATH. */
    method ResetPath(xml: XmlState)
      requires xml in files && xml.PathValid()
      modifies this`xmlpath, this`pathgen, this`pathFile
      ensures PathKnown() && xmlpath == xml.Path() && pathgen == xml.pathvers && pathFile == xml
    {
      xmlpath, pathFile, pathgen := xml.path[..xml.pathlen], xml, xml.pathvers;
    }

    /** resetXMLvars_before. */
    method ResetBefore(xml: XmlState, starts: bool)
      requires Valid() && xml in files
      modifies this`curgen, this`attr, this`done, this`xmlpath, this`pathgen, this`pathFile
      ensures Setting() && done == map[] && attr == map[] && PathKnown()
      ensures !starts ==> xmlpath == xml.Path() && pathgen == xml.pathvers && pathFile == xml
    {
      curgen := (curgen + 1) % WORD32;
      if curgen == 0 {
        curgen := 1;
      }
      done := map[];
      attr := map[];
      if !starts && (pathFile != xml || pathgen != xml.pathvers) {
        ResetPath(xml);
      }
    }

    /** resetXMLvars_after: what the record did not set becomes empty; a counter of 0 says that it is,
        except for what awk code may have assigned. */
    method ResetAfter()
      requires Setting()
      modifies this`nodes
      ensures Settled()
      ensures forall v: Var :: nodes[v].value == Afresh(done, v)
    {
      var i := 0;
      while i < NUM_RW
        invariant i <= NUM_RW && Half(i)
      {
        if nodes[i].gen != curgen {
          nodes := nodes[i := Node(Empty, 0)];
        }
        i := i + 1;
      }
      while i < NUM_RESET
        invariant NUM_RW <= i <= NUM_RESET && Half(i)
      {
        if nodes[i].gen != 0 && nodes[i].gen != curgen {
          nodes := nodes[i := Node(Empty, 0)];
        }
        i := i + 1;
      }
    }

    /** The variables before place i have been reset. */
    ghost predicate Half(i: nat)
      reads this`curgen, this`nodes, this`done
    {
      && 0 < curgen < WORD32 && |nodes| == NUM_RESET
      && forall v: Var ::
          if v in done then nodes[v] == Node(done[v], curgen)
          else if v < i then nodes[v] == Node(Empty, 0)
          else nodes[v].gen != curgen && (nodes[v].gen == 0 && !Assignable(v) ==> nodes[v].value == Empty)
    }

    method SetSpot(s: Spot)
      requires Setting()
      modifies this`nodes, this`done
      ensures Setting() && done == old(done)[XMLROW := Number(s.row)][XMLCOL := Number(s.col)][XMLLEN := Number(s.len)]
    {
      hide Next, this.Setting;
      Set(XMLROW, Number(s.row));
      Set(XMLCOL, Number(s.col));
      Set(XMLLEN, Number(s.len));
    }

    /** XMLEVENT, the variable of the token's kind, and XMLNAME. */
    method SetKind(lit: Literal, t: Token)
      requires Setting() && (HasName(t.kind) ==> t.name.Some?)
      modifies this`nodes, this`done
      ensures Setting()
      ensures done == TokenSets(t, old(done)[XMLEVENT := Text(InCharset(lit, EventName(t.kind)))])
    {
      hide KindVar, EventName;
      Set(XMLEVENT, Text(InCharset(lit, EventName(t.kind))));
      if HasName(t.kind) {
        Set(KindVar(t.kind), Text(t.name.value));
        Set(XMLNAME, nodes[KindVar(t.kind)].value);
      } else {
        Set(KindVar(t.kind), Number(1));
      }
    }

    /** update_xmlattr. */
    method UpdateAttr(xml: XmlState, attrs: seq<(bytes, bytes)>) returns (out: bytes)
      requires attr == map[]
      modifies this`attr, xml`attrnames
      ensures attr == AttrMap(attrs) && out == AttrNames(xml.space, attrs)
    {
      var cnt := xml.JoinNames(attrs);
      out := xml.attrnames[..cnt];
      var i := 0;
      while i < |attrs|
        invariant i <= |attrs| && attr == AttrMap(attrs[..i])
      {
        assert attrs[..i + 1][..i] == attrs[..i];
        attr := attr[attrs[i].0 := Text(attrs[i].1)];
        i := i + 1;
      }
      assert attrs[..i] == attrs;
    }

    method SetAttr(lit: Literal, name: string, x: Value)
      modifies this`attr
      ensures attr == old(attr)[InCharset(lit, name) := x]
    {
      attr := attr[InCharset(lit, name) := x];
    }

    /** The entries of XMLATTR for a declaration, and for a document type. */
    method SetDeclAttrs(lit: Literal, t: Token)
      requires attr == map[] && t.kind == Decl
      modifies this`attr
      ensures attr == AttrSets(lit, Got(t))
    {
      if t.name.Some? {
        SetAttr(lit, "VERSION", Text(t.name.value));
      }
      if t.data.Some? {
        SetAttr(lit, "ENCODING", Text(t.data.value));
      }
      if t.number >= 0 {
        SetAttr(lit, "STANDALONE", Text(InCharset(lit, if t.number != 0 then "yes" else "no")));
      }
    }

    method SetDoctAttrs(lit: Literal, t: Token)
      requires attr == map[] && t.kind == StartDoct
      modifies this`attr
      ensures attr == AttrSets(lit, Got(t))
    {
      if t.pubid.Some? {
        SetAttr(lit, "PUBLIC", Text(t.pubid.value));
      }
      if t.data.Some? {
        SetAttr(lit, "SYSTEM", Text(t.data.value));
      }
      if t.number != 0 {
        SetAttr(lit, "INTERNAL_SUBSET", Number(t.number));
      }
    }

    /** The case of a start element. */
    method StartOf(xml: XmlState, t: Token) returns (out: bytes)
      requires Setting() && xml in files && xml.Valid() && attr == map[]
      requires t.kind == StartElement && t.name.Some?
      modifies this`nodes, this`done, this`attr, this`xmlpath, this`pathgen, this`pathFile
      modifies xml`path, xml`pathlen, xml`pathvers, xml`open, xml`depth, xml`attrnames
      ensures Setting() && xml.Valid() && xml.open == old(xml.open) + [t.name.value]
      ensures done ==
        TokenSets(t, old(done)[XMLEVENT := Text(InCharset(xml.lit, EventName(t.kind)))])[XMLDEPTH := Number(xml.depth)]
      ensures attr == AttrMap(t.attrs) && out == AttrNames(xml.space, t.attrs)
      ensures PathKnown() && xmlpath == xml.Path()
    {
      hide TokenSets, AttrMap, AttrNames, PathOf, EventName, this.Setting;
      xml.AppendPath(t.name.value);
      ResetPath(xml);
      SetKind(xml.lit, t);
      out := UpdateAttr(xml, t.attrs);
      xml.depth := xml.depth + 1;
      Set(XMLDEPTH, Number(xml.depth));
    }

    /** The case of an end element: XMLPATH was set before the path is shortened. */
    method EndOf(xml: XmlState, t: Token)
      requires Setting() && xml in files && xml.Valid() && pathFile == xml && pathgen == xml.pathvers
      requires t.kind == EndElement && t.name.Some? && xml.open != [] && xml.open[|xml.open| - 1] == t.name.value
      modifies this`nodes, this`done, xml`pathlen, xml`pathvers, xml`open, xml`depth
      ensures Setting() && xml.Valid() && xml.open == old(xml.open[..|xml.open| - 1])
      ensures done == TokenSets(t, old(done)[XMLEVENT := Text(InCharset(xml.lit, EventName(t.kind)))])
      ensures PathKnown()
    {
      hide TokenSets, PathOf, EventName, this.Setting;
      xml.ChopPath(t.name.value);
      SetKind(xml.lit, t);
      xml.depth := xml.depth - 1;
    }

    /** The switch over the kinds of a token that is no start element. */
    method Other(xml: XmlState, t: Token) returns (out: Option<bytes>)
      requires Setting() && xml in files && xml.Valid() && pathFile == xml && pathgen == xml.pathvers && attr == map[]
      requires xmlpath == xml.Path()
      requires t.kind != StartElement && Fits(Got(t), xml.open)
      modifies this`nodes, this`done, this`attr, xml`pathlen, xml`pathvers, xml`open, xml`depth
      ensures Setting() && xml.Valid() && xml.open == OpenAfter(Got(t), old(xml.open)) && PathKnown()
      ensures done == TokenSets(t, old(done)[XMLEVENT := Text(InCharset(xml.lit, EventName(t.kind)))])
      ensures attr == AttrSets(xml.lit, Got(t)) && out == RecordText(xml.space, Got(t))
      ensures t.kind != EndElement ==> xml.Path() == old(xml.Path())
    {
      hide TokenSets, PathOf, EventName, this.Setting;
      out := None;
      if t.kind == EndElement {
        EndOf(xml, t);
        return;
      }
      SetKind(xml.lit, t);
      match t.kind {
        case CharData | ProcInst | Comment | Unparsed => out := t.data;
        case Decl => SetDeclAttrs(xml.lit, t);
        case StartDoct => SetDoctAttrs(xml.lit, t);
        case _ =>
      }
    }

    /** The variables set at the end of the input: none, or those of an error. */
    method NoToken(xml: XmlState, p: Pulled)
      requires Setting() && !p.Got? && done == map[]
      modifies this`nodes, this`done
      ensures Setting() && done == Sets(xml.lit, p, xml.depth)
    {
      match p {
        case Failed(error, spot) =>
          Set(XMLERROR, Text(ErrorText(error)));
          SetSpot(spot);
          Set(XMLDEPTH, Number(xml.depth));
        case _ =>
      }
    }

    /** The variables set for a token. */
    method WithToken(xml: XmlState, t: Token) returns (out: Option<bytes>)
      requires Setting() && xml in files && xml.Valid() && attr == map[] && done == map[] && Fits(Got(t), xml.open)
      requires t.kind != StartElement ==> xmlpath == xml.Path() && pathgen == xml.pathvers && pathFile == xml
      modifies this`nodes, this`done, this`attr, this`xmlpath, this`pathgen, this`pathFile, xml
      ensures Setting() && xml.Valid() && xml.open == OpenAfter(Got(t), old(xml.open)) && PathKnown()
      ensures done == Sets(xml.lit, Got(t), old(xml.depth))
      ensures attr == AttrSets(xml.lit, Got(t)) && out == RecordText(xml.space, Got(t))
      ensures xmlpath == if t.kind == EndElement then old(xml.Path()) else xml.Path()
    {
      hide PathOf, EventName, KindVar, this.Setting;
      SetSpot(t.spot);
      if t.kind != StartElement {
        Set(XMLDEPTH, Number(xml.depth));
        out := Other(xml, t);
      } else {
        var names := StartOf(xml, t);
        out := Some(names);
        DepthLast(t, xml.lit, old(xml.depth));
      }
    }

    /** xml_get_record: afterwards each variable is what the record sets, or empty; XMLATTR and $0 are those
        of the token; XMLPATH is the path of this file, for an end element still with its name. */
    method GetRecord(xml: XmlState, p: Pulled) returns (out: Option<bytes>)
      requires Valid() && xml in files && Fits(p, xml.open)
      modifies this, xml
      ensures Valid() && files == old(files) && xml.open == OpenAfter(p, old(xml.open))
      ensures forall v: Var :: nodes[v].value == Afresh(Sets(xml.lit, p, old(xml.depth)), v)
      ensures attr == AttrSets(xml.lit, p) && out == RecordText(xml.space, p)
      ensures xmlpath == if p.Got? && p.token.kind == EndElement then old(xml.Path()) else xml.Path()
    {
      hide PathOf, Sets, this.Setting;
      ResetBefore(xml, p.Got? && p.token.kind == StartElement);
      out := None;
      match p {
        case Got(t) => out := WithToken(xml, t);
        case _ => NoToken(xml, p);
      }
      ResetAfter();
    }
  }

  /** A start element sets XMLDEPTH last, any other token before the rest. */
  lemma DepthLast(t: Token, lit: Literal, depth: int)
    requires t.kind == StartElement && t.name.Some?
    ensures TokenSets(t, SpotVars(t.spot)[XMLEVENT := Text(InCharset(lit, EventName(t.kind)))])[XMLDEPTH := Number(depth + 1)]
      == Sets(lit, Got(t), depth)
  {
    hide EventName, InCharset;
  }
}
