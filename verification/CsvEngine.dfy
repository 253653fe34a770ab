/** csv_parse (csv/csv_parser.c), written once for its three back ends, and the calls built on it:
    csv_split_record, csv_convert_record and csv_read. */
module CsvEngine {
  import opened Common
  import opened CsvParser
  import opened CsvStream
  import opened CsvFormat
  import opened CsvBlank
  import opened CsvBuffers
  import opened CsvWidths
  import opened CsvMachine

  // ------------------------------------------------------------ the parser's run, as it unfolds

  /** After some characters: the state, the callbacks made, and whether a character stopped the run. */
  datatype Progress = Progress(state: State, ops: seq<Op>, stopped: bool)

  function Advance(delim: byte, quote: byte, p: Progress, c: byte): Progress {
    var m := Step(delim, quote, p.state, c);
    Progress(m.next, p.ops + m.ops, m.stop)
  }

  ghost function RunTo(delim: byte, quote: byte, p: Progress, heard: bytes): Progress
    decreases |heard|
  {
    if heard == [] then p else RunTo(delim, quote, Advance(delim, quote, p, heard[0]), heard[1..])
  }

  /** Every one of these characters was asked for: none comes after one that stopped the run. */
  ghost predicate Asked(delim: byte, quote: byte, p: Progress, heard: bytes)
    decreases |heard|
  {
    heard == [] || (!p.stopped && Asked(delim, quote, Advance(delim, quote, p, heard[0]), heard[1..]))
  }

  lemma {:induction false} RunSnoc(delim: byte, quote: byte, p: Progress, heard: bytes, c: byte)
    requires Asked(delim, quote, p, heard) && !RunTo(delim, quote, p, heard).stopped
    ensures Asked(delim, quote, p, heard + [c])
    ensures RunTo(delim, quote, p, heard + [c]) == Advance(delim, quote, RunTo(delim, quote, p, heard), c)
    decreases |heard|
  {
    if heard == [] {
      assert (heard + [c])[0] == c && (heard + [c])[1..] == [];
      hide Advance;
      assert Asked(delim, quote, Advance(delim, quote, p, c), []);
    } else {
      assert (heard + [c])[0] == heard[0] && (heard + [c])[1..] == heard[1..] + [c];
      hide Advance;
      RunSnoc(delim, quote, Advance(delim, quote, p, heard[0]), heard[1..], c);
    }
  }

  /** The run over a string is what Ops says. */
  lemma {:induction false} RunIsOps(delim: byte, quote: byte, p: Progress, heard: bytes, rest: bytes)
    requires NUL !in heard && Asked(delim, quote, p, heard) && (heard == [] ==> !p.stopped)
    requires RunTo(delim, quote, p, heard).stopped || rest == [] || rest[0] == NUL
    ensures var q := RunTo(delim, quote, p, heard);
      p.ops + Ops(delim, quote, p.state, heard + rest) == q.ops + Final(q.state)
    decreases |heard|
  {
    hide Step;
    if heard == [] {
      assert heard + rest == rest;
    } else {
      var c, m, q := heard[0], Step(delim, quote, p.state, heard[0]), Advance(delim, quote, p, heard[0]);
      assert (heard + rest)[0] == c && (heard + rest)[1..] == heard[1..] + rest;
      if q.stopped {
        assert heard[1..] == [];
        ConcatAssoc(p.ops, m.ops, Final(m.next));
      } else {
        RunIsOps(delim, quote, q, heard[1..], rest);
        ConcatAssoc(p.ops, m.ops, Ops(delim, quote, m.next, heard[1..] + rest));
      }
    }
  }

  /** The run of the reader is what ReadRecord says. */
  lemma {:induction false} RunIsRecord(delim: byte, quote: byte, seen: int, p: Progress, inside: bool, heard: bytes, rest: bytes)
    requires NUL !in heard && Asked(delim, quote, p, heard) && (heard == [] ==> !p.stopped)
    requires Unbroken(seen, inside, heard)
    requires RunTo(delim, quote, p, heard).stopped || Stops(InsideAfter(seen, inside, heard), rest)
    ensures var q := RunTo(delim, quote, p, heard);
      var s := if q.stopped then Stop([], [], rest) else StopAt(InsideAfter(seen, inside, heard), rest);
      var g := ReadRecord(delim, quote, seen, p.state, inside, heard + rest);
      p.ops + g.ops == q.ops + Final(q.state) && g.record == heard + s.record && g.rt == s.rt && g.rest == s.rest
    decreases |heard|
  {
    hide Step;
    if heard == [] {
      assert heard + rest == rest;
    } else {
      var c, m, q := heard[0], Step(delim, quote, p.state, heard[0]), Advance(delim, quote, p, heard[0]);
      var inside' := inside != (c == seen);
      assert (heard + rest)[0] == c && (heard + rest)[1..] == heard[1..] + rest && heard == [c] + heard[1..];
      RecordStep(delim, quote, seen, p.state, inside, heard + rest);
      hide ReadRecord;
      assert Asked(delim, quote, q, heard[1..]) && Unbroken(seen, inside', heard[1..]);
      assert RunTo(delim, quote, p, heard) == RunTo(delim, quote, q, heard[1..]);
      if q.stopped {
        assert heard[1..] == [];
        ConcatAssoc(p.ops, m.ops, Final(m.next));
      } else {
        hide RunTo, Asked, Unbroken;
        RunIsRecord(delim, quote, seen, q, inside', heard[1..], rest);
        ConcatAssoc(p.ops, m.ops, ReadRecord(delim, quote, seen, m.next, inside', heard[1..] + rest).ops);
      }
    }
  }

  lemma RecordStep(delim: byte, quote: byte, seen: int, state: State, inside: bool, input: bytes)
    requires input != [] && (inside || (input[0] != CR && input[0] != LF)) && input[0] != NUL
    ensures var m := Step(delim, quote, state, input[0]);
      var g := ReadRecord(delim, quote, seen, m.next, inside != (input[0] == seen), input[1..]);
      ReadRecord(delim, quote, seen, state, inside, input) ==
        if m.stop then Got([input[0]], m.ops + Final(m.next), [], input[1..])
        else Got([input[0]] + g.record, m.ops + g.ops, g.rt, g.rest)
  {
    hide Step;
  }

  // ------------------------------------------------------------ the callbacks of a csv_parser

  datatype Backend = Splits(s: Splitter) | Converts(v: Converter) | Reads(r: Reader) {

    ghost function Repr(): set<object>
      reads match this case Splits(s) => {s.sbuf} case Converts(v) => {v.sbuf} case Reads(r) => {r.input, r.awk, r.info}
    {
      match this
      case Splits(s) => {s, s.sbuf, s.sbuf.str}
      case Converts(v) => {v, v.sbuf, v.sbuf.str}
      case Reads(r) => {r, r.input, r.input.str, r.awk, r.awk.str, r.info, r.info.fields}
    }

    ghost predicate Valid()
      reads Repr()
    {
      match this
      case Splits(s) => s.Valid()
      case Converts(v) => v.Valid()
      case Reads(r) => r.Valid()
    }

    /** The callbacks made, the characters handed out, and whether the NUL was. */
    ghost function Log(): seq<Op>
      reads Repr()
    {
      match this case Splits(s) => s.log case Converts(v) => v.log case Reads(r) => r.log
    }

    ghost function Heard(): bytes
      reads Repr()
    {
      match this case Splits(s) => s.heard case Converts(v) => v.heard case Reads(r) => r.heard
    }

    ghost predicate Ended()
      reads Repr()
    {
      match this case Splits(s) => s.ended case Converts(v) => v.ended case Reads(r) => r.ended
    }

    /** What the characters come from, and what was read before. */
    ghost function Source(): (bytes, bytes)
      reads Repr()
    {
      match this
      case Splits(s) => (s.record, [])
      case Converts(v) => (v.record, [])
      case Reads(r) => (r.start, r.history)
    }

    lemma HeardWithin()
      requires Valid()
      ensures |Heard()| <= |Source().0|
    {
      hide SplitOps, JoinOps, TapeOps;
      match this {
        case Splits(s) => assert UpToNul(s.record) <= s.record;
        case Converts(v) => assert UpToNul(v.record) <= v.record;
        case Reads(r) => if r.ended { assert r.heard <= r.start; }
      }
    }

    method NextChar() returns (c: byte)
      requires Valid() && !Ended()
      modifies Repr()
      ensures Valid() && fresh(Repr() - old(Repr())) && Log() == old(Log()) && Source() == old(Source())
      ensures Ended() == (c == NUL) && Heard() == old(Heard()) + (if c == NUL then [] else [c])
    {
      hide SplitOps, JoinOps, TapeOps, Finished, Unbroken, InsideAfter, CString, Separator;
      match this {
        case Splits(s) => c := s.NextChar();
        case Converts(v) => c := v.NextChar();
        case Reads(r) => c := r.NextChar();
      }
    }

    method BeginField()
      requires Valid()
      modifies Repr()
      ensures Valid() && fresh(Repr() - old(Repr())) && Log() == old(Log()) + [Begin]
      ensures Source() == old(Source()) && Heard() == old(Heard()) && Ended() == old(Ended())
    {
      hide SplitOps, JoinOps, TapeOps, Finished, Unbroken, InsideAfter, CString, Separator;
      match this {
        case Splits(s) => s.BeginField();
        case Converts(v) => v.BeginField();
        case Reads(r) => r.BeginField();
      }
    }

    method EndField()
      requires Valid()
      modifies Repr()
      ensures Valid() && fresh(Repr() - old(Repr())) && Log() == old(Log()) + [End]
      ensures Source() == old(Source()) && Heard() == old(Heard()) && Ended() == old(Ended())
    {
      hide SplitOps, JoinOps, TapeOps, Finished, Unbroken, InsideAfter, CString, Separator;
      match this {
        case Splits(s) => s.EndField();
        case Converts(v) => v.EndField();
        case Reads(r) => r.EndField();
      }
    }

    method PutChar(c: byte)
      requires Valid()
      modifies Repr()
      ensures Valid() && fresh(Repr() - old(Repr())) && Log() == old(Log()) + [Put(c)]
      ensures Source() == old(Source()) && Heard() == old(Heard()) && Ended() == old(Ended())
    {
      hide SplitOps, JoinOps, TapeOps, Finished, Unbroken, InsideAfter, CString, Separator;
      match this {
        case Splits(s) => s.PutChar(c);
        case Converts(v) => v.PutChar(c);
        case Reads(r) => r.PutChar(c);
      }
    }

    method Report(msg: Message)
      requires Valid()
      modifies Repr()
      ensures Valid() && fresh(Repr() - old(Repr())) && Log() == old(Log()) + [Error(msg)]
      ensures Source() == old(Source()) && Heard() == old(Heard()) && Ended() == old(Ended())
    {
      hide SplitOps, JoinOps, TapeOps, Finished, Unbroken, InsideAfter, CString, Separator;
      match this {
        case Splits(s) => s.Report(msg);
        case Converts(v) => v.Report(msg);
        case Reads(r) => r.Report(msg);
      }
    }
  }

  // ------------------------------------------------------------ csv_parse

  method BlankField(b: Backend)
    requires b.Valid()
    modifies b.Repr()
    ensures b.Valid() && fresh(b.Repr() - old(b.Repr())) && b.Log() == old(b.Log()) + [Begin, End]
    ensures b.Source() == old(b.Source()) && b.Heard() == old(b.Heard()) && b.Ended() == old(b.Ended())
  {
    hide b.Valid, b.Log, b.Heard, b.Ended, b.Source;
    b.BeginField();
    b.EndField();
  }

  method Complain(b: Backend, msg: Message, c: byte)
    requires b.Valid()
    modifies b.Repr()
    ensures b.Valid() && fresh(b.Repr() - old(b.Repr())) && b.Log() == old(b.Log()) + [Error(msg), Put(c)]
    ensures b.Source() == old(b.Source()) && b.Heard() == old(b.Heard()) && b.Ended() == old(b.Ended())
  {
    hide b.Valid, b.Log, b.Heard, b.Ended, b.Source;
    b.Report(msg);
    b.PutChar(c);
  }

  /** The loop body: what the parser does with one character. */
  method Act(b: Backend, delim: byte, quote: byte, state: State, c: byte) returns (next: State, c': byte)
    requires b.Valid() && c != NUL
    modifies b.Repr()
    ensures b.Valid() && fresh(b.Repr() - old(b.Repr()))
    ensures b.Source() == old(b.Source()) && b.Heard() == old(b.Heard()) && b.Ended() == old(b.Ended())
    ensures var m := Step(delim, quote, state, c);
      next == m.next && c' == (if m.stop then NUL else c) && b.Log() == old(b.Log()) + m.ops
  {
    hide b.Valid, b.Log, b.Heard, b.Ended, b.Source;
    next, c' := state, c;
    match state {
      case BeforeField | AfterDelim =>
        if c == delim {
          BlankField(b);
          next := AfterDelim;
        } else if c == LF {
          c' := NUL;
        } else if c == quote {
          b.BeginField();
          next := InQuoted;
        } else {
          b.BeginField();
          b.PutChar(c);
          next := InUnquoted;
        }
      case InQuoted =>
        if c == quote {
          next := AfterQuote;
        } else {
          b.PutChar(c);
        }
      case AfterQuote =>
        if c == quote {
          b.PutChar(c);
          next := InQuoted;
        } else if c == delim {
          b.EndField();
          next := AfterDelim;
        } else if c == LF {
          b.EndField();
          next, c' := AfterField, NUL;
        } else {
          Complain(b, UnexpectedCharacter, quote);
          b.PutChar(c);
          next := InUnquoted;
        }
      case InUnquoted =>
        if c == delim {
          b.EndField();
          next := AfterDelim;
        } else if c == LF {
          b.EndField();
          next, c' := AfterField, NUL;
        } else if c == quote {
          Complain(b, UnexpectedQuote, c);
        } else {
          b.PutChar(c);
        }
      case AfterField =>
    }
  }

  /** Finalize the record. */
  method Finalize(b: Backend, state: State)
    requires b.Valid()
    modifies b.Repr()
    ensures b.Valid() && fresh(b.Repr() - old(b.Repr())) && b.Log() == old(b.Log()) + Final(state)
    ensures b.Source() == old(b.Source()) && b.Heard() == old(b.Heard()) && b.Ended() == old(b.Ended())
  {
    hide b.Valid, b.Log, b.Heard, b.Ended, b.Source;
    match state {
      case BeforeField | AfterField =>
      case InQuoted =>
        b.Report(MissingClosingQuote);
        b.EndField();
      case AfterQuote | InUnquoted =>
        b.EndField();
      case AfterDelim =>
        BlankField(b);
    }
  }

  /** One turn of the loop: act on the character and, unless it ended the record, ask for another. */
  method Turn(b: Backend, delim: byte, quote: byte, state: State, c: byte) returns (next: State, c': byte)
    requires b.Valid() && c != NUL && !b.Ended()
    modifies b.Repr()
    ensures b.Valid() && fresh(b.Repr() - old(b.Repr())) && b.Source() == old(b.Source())
    ensures var m := Step(delim, quote, state, c);
      && next == m.next && b.Log() == old(b.Log()) + m.ops
      && b.Ended() == (c' == NUL && !m.stop) && (m.stop ==> c' == NUL)
      && b.Heard() == old(b.Heard()) + (if c' == NUL then [] else [c'])
  {
    hide b.Valid, b.Log, b.Heard, b.Ended, b.Source, Step;
    next, c' := Act(b, delim, quote, state, c);
    if c' != NUL {
      c' := b.NextChar();
    }
  }

  const START := Progress(BeforeField, [], false)

  /** csv_parse: its callbacks are those of a run over the characters it was handed, to the end of
      the input or to the character that stopped it. */
  method Parse(b: Backend, delim: byte, quote: byte) returns (ghost p: Progress)
    requires b.Valid() && b.Log() == [] && b.Heard() == [] && !b.Ended()
    modifies b.Repr()
    ensures b.Valid() && fresh(b.Repr() - old(b.Repr())) && b.Source() == old(b.Source())
    ensures Asked(delim, quote, START, b.Heard()) && p == RunTo(delim, quote, START, b.Heard())
    ensures p.stopped == !b.Ended() && b.Log() == p.ops + Final(p.state)
  {
    hide b.Valid, b.Log, b.Heard, b.Ended, b.Source, RunTo, Asked, Step;
    var state := BeforeField;
    p := START;
    RunNone(delim, quote);
    var c := b.NextChar();
    ghost var done: bytes := [];    // the characters acted on
    while c != NUL
      invariant b.Valid() && fresh(b.Repr() - old(b.Repr())) && b.Source() == old(b.Source())
      invariant Asked(delim, quote, START, done) && p == RunTo(delim, quote, START, done)
      invariant b.Log() == p.ops && state == p.state
      invariant b.Heard() == if c == NUL then done else done + [c]
      invariant p.stopped ==> c == NUL
      invariant b.Ended() == (c == NUL && !p.stopped)
      decreases |b.Source().0| - |b.Heard()|, c
    {
      RunSnoc(delim, quote, START, done, c);
      p, done := Advance(delim, quote, p, c), done + [c];
      state, c := Turn(b, delim, quote, state, c);
      b.HeardWithin();
    }
    Finalize(b, state);
  }

  lemma RunNone(delim: byte, quote: byte)
    ensures Asked(delim, quote, START, []) && RunTo(delim, quote, START, []) == START
  {}

  // ------------------------------------------------------------ the three calls

  /** csv_split_record: the array of the record's fields, and their number. */
  method SplitRecord(record: bytes, delim: byte, quote: byte) returns (count: nat, oaf: map<nat, bytes>)
    ensures oaf == ArrayOf(Split(delim, quote, record)) && count == |Split(delim, quote, record)|
  {
    var s := new Splitter(record);
    var b := Splits(s);
    ghost var p := Parse(b, delim, quote);
    StringRead(delim, quote, record, s.heard, s.ended, p);
    hide SplitOps, Ops;
    count, oaf := s.fieldcount, s.oaf;
  }

  /** The separator is the C string, and a single NUL when that is empty. */
  lemma SeparatorIs(ofs: bytes)
    requires IsCString(ofs)
    ensures ofs[0] == NUL ==> Separator(ofs) == [NUL]
    ensures forall k :: 0 < k < |ofs| && ofs[k] == NUL && NUL !in ofs[..k] ==> Separator(ofs) == ofs[..k]
  {
    forall k | 0 < k < |ofs| && ofs[k] == NUL && NUL !in ofs[..k] ensures Separator(ofs) == ofs[..k] {
      assert ofs[..k][0] == ofs[0];
      UpToFirst(ofs[1..], k - 1);
      assert ofs[..k] == [ofs[0]] + ofs[1..][..k - 1];
    }
  }

  lemma {:induction false} UpToFirst(s: bytes, k: nat)
    requires k < |s| && s[k] == NUL && NUL !in s[..k]
    ensures UpToNul(s) == s[..k]
    decreases k
  {
    if k > 0 {
      assert s[..k][0] == s[0] && s[1..][..k - 1] == s[..k][1..];
      UpToFirst(s[1..], k - 1);
    }
  }

  /** csv_convert_record: the fields of the record, joined by the separator. */
  method ConvertRecord(record: bytes, ofs: bytes, delim: byte, quote: byte) returns (out: bytes)
    requires IsCString(ofs)
    ensures out == Join(Separator(ofs), Split(delim, quote, record))
    ensures ofs[0] == NUL ==> out == Join([NUL], Split(delim, quote, record))
    ensures forall k :: 0 < k < |ofs| && ofs[k] == NUL && NUL !in ofs[..k] ==> out == Join(ofs[..k], Split(delim, quote, record))
  {
    SeparatorIs(ofs);
    var v := new Converter(record, ofs);
    var b := Converts(v);
    ghost var p := Parse(b, delim, quote);
    StringRead(delim, quote, record, v.heard, v.ended, p);
    hide JoinOps, SplitOps, Ops;
    ConvertIsJoinOfSplit(delim, quote, Separator(ofs), record);
    out := v.sbuf.str[..v.sbuf.length];
  }

  lemma StringRead(delim: byte, quote: byte, record: bytes, heard: bytes, ended: bool, p: Progress)
    requires Asked(delim, quote, START, heard) && p == RunTo(delim, quote, START, heard) && p.stopped == !ended
    requires if ended then heard == UpToNul(record) else heard <= record && NUL !in heard
    ensures p.ops + Final(p.state) == Ops(delim, quote, BeforeField, record)
  {
    var rest := record[|heard|..];
    assert heard + rest == record;
    RunIsOps(delim, quote, START, heard, rest);
    assert START.ops + Ops(delim, quote, BeforeField, record) == Ops(delim, quote, BeforeField, record);
  }

  method BeginRecord(r: Reader)
    requires r.Between()
    modifies r, r.input`length, r.awk`length, r.info`nf
    ensures r.Valid() && r.start == r.Rest() == old(r.Rest()) && r.log == [] && r.heard == [] && !r.ended
    ensures r.history == old(r.history)
  {
    hide r.Rest, CString;
    r.BeginInput();
    r.BeginOutput();
  }

  /** What a call of csv_read leaves, when so much of the file was left before it. */
  ghost predicate AfterRead(r: Reader, rest: bytes)
    requires r.Quiet()
    reads r`fpos, r`afterCr, r`rt, r`fieldcount, r.input, r.input.str, r.awk, r.awk.str, r.info, r.info.fields
  {
    var g := ReadRecord(r.delim, r.quote, r.seen, BeforeField, false, rest);
    var fields := Split(r.delim, r.quote, g.record);
    && r.input.Contents() == g.record && r.rt == g.rt && r.Rest() == g.rest && rest == g.record + g.rt + g.rest
    && r.awk.Contents() == Join(CString(r.fs), fields) && r.fieldcount == |fields|
    && r.info.Contents() == WidthsOf(r.fsLen, fields)
  }

  /** csv_read: the next record of the file, the equivalent awk record, and the positions of its fields.
      An empty awk record gives -1, whether or not the file is at its end: also for a blank line, or for a
      quote and then nothing. */
  method Read(r: Reader) returns (n: int)
    requires r.Between()
    modifies Reads(r).Repr()
    ensures r.Between() && fresh(Reads(r).Repr() - old(Reads(r).Repr())) && AfterRead(r, old(r.Rest()))
    ensures r.history == old(r.history) + r.input.Contents() + r.rt
    ensures n == if r.awk.Contents() == [] then -1 else |r.awk.Contents()|
    ensures Distinct(r.delim, r.quote) ==> (n == -1 <==> BlankLine(r.quote, r.seen, old(r.Rest())))
  {
    hide AfterRead, BlankLine, r.Rest;
    RunReader(r);
    n := if r.awk.length == 0 then -1 else r.awk.length;
    AfterReadBetween(r, old(r.Rest()));
    AwkEmptyIff(r, old(r.Rest()));
    r.history := r.history + r.input.Contents() + r.rt;
  }

  /** The awk record is empty when there is no field, or one empty field. */
  lemma EmptyRecordIff(sep: bytes, fields: seq<bytes>)
    requires sep != []
    ensures Join(sep, fields) == [] <==> fields == [] || fields == [[]]
  {
    if |fields| > 1 {
      assert |sep| > 0;
    }
  }

  lemma AwkEmptyIff(r: Reader, rest: bytes)
    requires r.Quiet() && AfterRead(r, rest)
    ensures r.awk.Contents() == [] <==>
      var fields := Split(r.delim, r.quote, r.input.Contents()); fields == [] || fields == [[]]
    ensures Distinct(r.delim, r.quote) ==> (r.awk.Contents() == [] <==> BlankLine(r.quote, r.seen, rest))
  {
    hide ReadRecord, Split, Join, BlankLine, Blank;
    var record := r.input.Contents();
    EmptyRecordIff(CString(r.fs), Split(r.delim, r.quote, record));
    if Distinct(r.delim, r.quote) {
      BlankIff(r.delim, r.quote, record);
      BlankLineIff(r.delim, r.quote, r.seen, rest);
    }
  }

  method RunReader(r: Reader)
    requires r.Between()
    modifies Reads(r).Repr()
    ensures r.Quiet() && fresh(Reads(r).Repr() - old(Reads(r).Repr()))
    ensures r.history == old(r.history) && AfterRead(r, old(r.Rest()))
  {
    hide RunTo, Asked, AfterRead, r.Valid, r.Quiet, r.Rest;
    BeginRecord(r);
    ghost var p := Parse(Reads(r), r.delim, r.quote);
    ValidQuiet(r);
    RecordRead(r, p);
  }

  lemma ValidQuiet(r: Reader)
    requires r.Valid()
    ensures r.Quiet()
  {}

  lemma AfterReadBetween(r: Reader, rest: bytes)
    requires r.Quiet() && AfterRead(r, rest) && r.stream == r.history + rest
    ensures r.input.Valid() && r.awk.Valid() && |r.awk.Contents()| == r.awk.length
    ensures r.stream == r.history + r.input.Contents() + r.rt + r.Rest()
  {}

  lemma RecordRead(r: Reader, p: Progress)
    requires r.Valid() && r.log == p.ops + Final(p.state) && p.stopped == !r.ended
    requires Asked(r.delim, r.quote, START, r.heard) && p == RunTo(r.delim, r.quote, START, r.heard)
    ensures r.Quiet() && AfterRead(r, r.start)
  {
    ValidQuiet(r);
    hide r.ValidOut;
    RecordIn(r, p);
    hide r.ValidIn;
    RecordOut(r);
  }

  /** The input side of a record, and its callbacks. */
  lemma RecordIn(r: Reader, p: Progress)
    requires r.ValidIn() && r.log == p.ops + Final(p.state) && p.stopped == !r.ended
    requires Asked(r.delim, r.quote, START, r.heard) && p == RunTo(r.delim, r.quote, START, r.heard)
    ensures var g := ReadRecord(r.delim, r.quote, r.seen, BeforeField, false, r.start);
      && r.input.Contents() == g.record && r.rt == g.rt && r.Rest() == g.rest && r.start == g.record + g.rt + g.rest
      && r.log == Ops(r.delim, r.quote, BeforeField, g.record)
  {
    var rest := r.start[|r.heard|..];
    assert r.heard <= r.start && r.start == r.heard + rest;
    hide Unbroken, InsideAfter, ReadRecord, Ops;
    RunIsRecord(r.delim, r.quote, r.seen, START, false, r.heard, rest);
    var g := ReadRecord(r.delim, r.quote, r.seen, BeforeField, false, r.start);
    assert START.ops + g.ops == g.ops;
    RecordConserves(r.delim, r.quote, r.seen, BeforeField, false, r.start);
    RecordSplits(r.delim, r.quote, r.seen, BeforeField, false, r.start);
  }

  /** What the callbacks on the record have built. */
  lemma RecordOut(r: Reader)
    requires r.ValidOut() && r.input.Valid() && r.log == Ops(r.delim, r.quote, BeforeField, r.input.Contents())
    ensures var fields := Split(r.delim, r.quote, r.input.Contents());
      && r.awk.Contents() == Join(CString(r.fs), fields) && r.fieldcount == |fields|
      && r.info.Contents() == WidthsOf(r.fsLen, fields)
  {
    hide Ops, Split, Join, JoinOps, TapeOps, CString;
    ConvertIsJoinOfSplit(r.delim, r.quote, CString(r.fs), r.input.Contents());
    TapeOfInput(r.delim, r.quote, r.fsLen, r.input.Contents());
  }

  /** The awk records of some records of the file. */
  ghost function AwkRecords(delim: byte, quote: byte, sep: bytes, gots: seq<Got>): seq<bytes> {
    if gots == [] then []
    else [Join(sep, Split(delim, quote, gots[0].record))] + AwkRecords(delim, quote, sep, gots[1..])
  }

  /** What csv_get_record will give gawk of the rest of the file. */
  ghost function Coming(r: Reader): seq<bytes>
    requires r.fpos <= |r.stream| && -1 <= r.afterCr < 256 && r.fs != []
    reads r`fpos, r`afterCr
  {
    AwkRecords(r.delim, r.quote, CString(r.fs), Delivered(r.delim, r.quote, r.seen, r.Rest()))
  }

  /** csv_get_record: None stands for EOF. */
  method GetRecord(r: Reader) returns (out: Option<bytes>)
    requires r.Between()
    modifies Reads(r).Repr()
    ensures r.Between() && fresh(Reads(r).Repr() - old(Reads(r).Repr()))
    ensures old(Coming(r)) == if out.None? then [] else [out.value] + Coming(r)
    ensures out.Some? ==> |r.Rest()| < |old(r.Rest())|
    ensures AfterRead(r, old(r.Rest())) && out == if r.awk.Contents() == [] then None else Some(r.awk.Contents())
  {
    hide AfterRead, BlankLine, AwkRecords, Delivered, CString, r.Rest;
    var len := Read(r);
    ComingNext(r, old(r.Rest()));
    out := if len >= 0 then Some(r.awk.str[..r.awk.length]) else None;
  }

  lemma ComingNext(r: Reader, rest: bytes)
    requires r.Quiet() && AfterRead(r, rest)
    ensures AwkRecords(r.delim, r.quote, CString(r.fs), Delivered(r.delim, r.quote, r.seen, rest)) ==
      if r.awk.Contents() == [] then [] else [r.awk.Contents()] + Coming(r)
    ensures r.awk.Contents() != [] ==> |r.Rest()| < |rest|
  {
    AwkEmptyIff(r, rest);
    var g := ReadRecord(r.delim, r.quote, r.seen, BeforeField, false, rest);
    hide ReadRecord, Split, Join, CString, BlankLine;
    var later := Delivered(r.delim, r.quote, r.seen, g.rest);
    if rest == [] {
      NothingLeft(r.delim, r.quote, r.seen);
    } else if r.awk.Contents() != [] {
      assert ([g] + later)[1..] == later;
    }
  }

  lemma NothingLeft(delim: byte, quote: byte, seen: int)
    ensures Split(delim, quote, ReadRecord(delim, quote, seen, BeforeField, false, []).record) == []
  {
    assert Ops(delim, quote, BeforeField, []) == [];
  }

  /** csv_get_record, called until it gives EOF: the awk records of the file up to the first that is empty. */
  method GetRecords(r: Reader) returns (records: seq<bytes>)
    requires r.Between()
    modifies Reads(r).Repr()
    ensures r.Between() && fresh(Reads(r).Repr() - old(Reads(r).Repr())) && records == old(Coming(r))
    decreases |r.Rest()|
  {
    hide Coming, r.Rest;
    var out := GetRecord(r);
    records := [];
    if out.Some? {
      records := GetRecords(r);
      records := [out.value] + records;
    }
  }

  /** A file that begins with an empty line: the first call gives -1, with the rest of the file unread. */
  method BlankLineEnds(tail: bytes, delim: byte, quote: byte, signed: bool, fs: bytes, fsLen: nat)
    returns (n: int, left: bytes)
    requires fs != [] && NUL in fs[1..]
    ensures n == -1 && left == tail
  {
    var r := new Reader([LF] + tail, delim, quote, signed, fs, fsLen);
    n := Read(r);
    EmptyLine(r, tail);
    left := (if r.afterCr >= 0 then [r.afterCr as byte] else []) + r.stream[r.fpos..];
  }

  lemma EmptyLine(r: Reader, tail: bytes)
    requires r.Quiet() && AfterRead(r, [LF] + tail)
    ensures r.awk.Contents() == [] && r.Rest() == tail
  {
    assert ([LF] + tail)[1..] == tail;
    assert ReadRecord(r.delim, r.quote, r.seen, BeforeField, false, [LF] + tail) == Got([], [], [LF], tail);
    assert Ops(r.delim, r.quote, BeforeField, []) == [];
  }
}
