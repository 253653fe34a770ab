/** Lines written by csvcompose (csv/awklib/csv/csv.awk), as gawk gets them from csv_get_record (csv/csv.c). */
module CsvLines {
  import opened Common
  import opened CsvParser
  import opened CsvFormat
  import opened CsvStream
  import opened CsvAwk
  import opened CsvBlank
  import opened CsvBuffers
  import opened CsvWidths
  import opened CsvMachine
  import opened CsvEngine

  /** There are fields, not just one empty field, and none is left bare with a CR in it. */
  ghost predicate Readable(delim: byte, quote: byte, fields: seq<bytes>) {
    fields != [] && fields != [[]] && forall i :: 0 <= i < |fields| ==> !BareCR(delim, quote, fields[i])
  }

  ghost predicate NoNul(fields: seq<bytes>) { forall i :: 0 <= i < |fields| ==> NUL !in fields[i] }

  ghost function LineOf(delim: byte, quote: byte, fields: seq<bytes>): bytes {
    Print(delim, quote, CellsOf(delim, quote, fields)) + [LF]
  }

  // ------------------------------------------------------------ one line

  lemma {:induction false} JoinGrows(sep: bytes, fields: seq<bytes>, k: nat)
    requires k <= |fields|
    ensures |Join(sep, fields[..k])| <= |Join(sep, fields)|
    decreases |fields|
  {
    if k == |fields| {
      assert fields[..k] == fields;
    } else {
      var front := fields[..|fields| - 1];
      JoinGrows(sep, front, k);
      assert front[..k] == fields[..k];
      assert |fields| == 1 ==> front == [];
    }
  }

  lemma JoinSnoc(sep: bytes, front: seq<bytes>, field: bytes)
    ensures Join(sep, front + [field]) == (if front == [] then [] else Join(sep, front) + sep) + field
  {
    assert (front + [field])[..|front|] == front;
    if front == [] {
      assert front + [field] == [field];
    }
  }

  /** A record cut off within a field is not the one that was written. */
  lemma CutShorter(sep: bytes, fields: seq<bytes>, k: nat, n: nat)
    requires k < |fields| && n < |fields[k]|
    ensures |Join(sep, fields[..k] + [fields[k][..n]])| < |Join(sep, fields)|
  {
    JoinSnoc(sep, fields[..k], fields[k][..n]);
    JoinSnoc(sep, fields[..k], fields[k]);
    assert fields[..k + 1] == fields[..k] + [fields[k]];
    JoinGrows(sep, fields, k + 1);
  }

  /** What csv_get_record finds in a line: the fields, or something else. */
  lemma LineIff(delim: byte, quote: byte, sep: bytes, fields: seq<bytes>, rest: bytes)
    requires Distinct(delim, quote) && quote != CR && delim != CR && NoNul(fields)
    ensures var g := ReadRecord(delim, quote, quote, BeforeField, false, LineOf(delim, quote, fields) + rest);
      var found := Split(delim, quote, g.record);
      && (Readable(delim, quote, fields) ==> found == fields && g.rest == rest)
      && (!Readable(delim, quote, fields) ==> found == [] || Join(sep, found) != Join(sep, fields))
  {
    var text := Print(delim, quote, CellsOf(delim, quote, fields));
    var line := text + ([LF] + rest);
    var g := ReadRecord(delim, quote, quote, BeforeField, false, line);
    RecordSplits(delim, quote, quote, BeforeField, false, line);
    assert Split(delim, quote, g.record) == SplitOps(Fields([], []), g.ops).done;
    hide ReadRecord, Print, SplitOps, Split, BareCR, Join;
    ConcatAssoc(text, [LF], rest);
    if fields == [] {
      NothingFound(delim, quote, rest);
    } else if fields == [[]] {
      EmptyFieldLost(delim, quote, rest);
    } else if Readable(delim, quote, fields) {
      ComposeReads(delim, quote, fields, rest);
    } else {
      var k := FirstBare(delim, quote, fields);
      var n := BareCRCuts(delim, quote, fields, k, rest);
      CutShorter(sep, fields, k, n);
    }
  }

  lemma NothingFound(delim: byte, quote: byte, rest: bytes)
    ensures var line := Print(delim, quote, CellsOf(delim, quote, [])) + ([LF] + rest);
      SplitOps(Fields([], []), ReadRecord(delim, quote, quote, BeforeField, false, line).ops).done == []
  {
    assert CellsOf(delim, quote, []) == [];
    assert Print(delim, quote, []) + ([LF] + rest) == [LF] + rest;
  }

  /** csv_get_record on a line written by csvcompose: it gives the awk record of the fields, with their number
      and places, and leaves the lines after it, exactly when there are fields, not just one empty field, and
      none is left bare with a CR in it. */
  method GetLine(r: Reader, ghost fields: seq<bytes>, ghost rest: bytes) returns (out: Option<bytes>)
    requires r.Between() && r.seen == r.quote && r.Rest() == LineOf(r.delim, r.quote, fields) + rest
    requires Distinct(r.delim, r.quote) && r.quote != CR && r.delim != CR && NoNul(fields)
    modifies Reads(r).Repr()
    ensures r.Between() && fresh(Reads(r).Repr() - old(Reads(r).Repr()))
    ensures out == Some(Join(CString(r.fs), fields)) <==> Readable(r.delim, r.quote, fields)
    ensures Readable(r.delim, r.quote, fields) ==>
      r.Rest() == rest && r.fieldcount == |fields| && r.info.Contents() == WidthsOf(r.fsLen, fields)
  {
    hide AfterRead, Coming, LineOf, Readable, Join, Split, CString, ReadRecord, WidthsOf, NoNul, BareCR, r.Rest;
    out := GetRecord(r);
    ghost var found := Found(r, LineOf(r.delim, r.quote, fields) + rest);
    LineGivenIff(r.delim, r.quote, CString(r.fs), fields, rest, found);
  }

  lemma LineGivenIff(delim: byte, quote: byte, sep: bytes, fields: seq<bytes>, rest: bytes, found: seq<bytes>)
    requires Distinct(delim, quote) && quote != CR && delim != CR && NoNul(fields) && sep != []
    requires var g := ReadRecord(delim, quote, quote, BeforeField, false, LineOf(delim, quote, fields) + rest);
      found == Split(delim, quote, g.record)
    ensures Join(sep, found) != [] && Join(sep, found) == Join(sep, fields) <==> Readable(delim, quote, fields)
    ensures Readable(delim, quote, fields) ==>
      && found == fields
      && ReadRecord(delim, quote, quote, BeforeField, false, LineOf(delim, quote, fields) + rest).rest == rest
  {
    hide *;
    LineIff(delim, quote, sep, fields, rest);
    EmptyRecordIff(sep, found);
    EmptyRecordIff(sep, []);
    if Readable(delim, quote, fields) {
      ReadableSome(delim, quote, fields);
    }
  }

  lemma Found(r: Reader, line: bytes) returns (found: seq<bytes>)
    requires r.Quiet() && AfterRead(r, line)
    ensures var g := ReadRecord(r.delim, r.quote, r.seen, BeforeField, false, line);
      found == Split(r.delim, r.quote, g.record) && r.Rest() == g.rest
    ensures CString(r.fs) != [] && r.awk.Contents() == Join(CString(r.fs), found)
    ensures r.fieldcount == |found| && r.info.Contents() == WidthsOf(r.fsLen, found)
  {
    assert CString(r.fs) != [];
    hide ReadRecord, Split, Join, WidthsOf, CString, r.Rest;
    found := Split(r.delim, r.quote, ReadRecord(r.delim, r.quote, r.seen, BeforeField, false, line).record);
  }

  /** An empty awk record is no record. */
  lemma GivenIff(sep: bytes, found: seq<bytes>, fields: seq<bytes>)
    requires sep != [] && (found == fields || found == [] || Join(sep, found) != Join(sep, fields))
    ensures Join(sep, found) != [] && Join(sep, found) == Join(sep, fields) <==>
      found != [] && found != [[]] && Join(sep, found) == Join(sep, fields)
    ensures Join(sep, []) == []
  {
    EmptyRecordIff(sep, found);
  }

  // ------------------------------------------------------------ a file of lines

  ghost function LinesOf(delim: byte, quote: byte, lists: seq<seq<bytes>>): bytes {
    if lists == [] then [] else LineOf(delim, quote, lists[0]) + LinesOf(delim, quote, lists[1..])
  }

  ghost function Joins(sep: bytes, lists: seq<seq<bytes>>): seq<bytes> {
    if lists == [] then [] else [Join(sep, lists[0])] + Joins(sep, lists[1..])
  }

  /** gawk gets the awk records of all lists from a file of their lines exactly when it would get each. */
  lemma {:induction false} LinesIff(delim: byte, quote: byte, sep: bytes, lists: seq<seq<bytes>>)
    requires Distinct(delim, quote) && quote != CR && delim != CR && forall i :: 0 <= i < |lists| ==> NoNul(lists[i])
    ensures AwkRecords(delim, quote, sep, Delivered(delim, quote, quote, LinesOf(delim, quote, lists))) == Joins(sep, lists) <==>
      forall i :: 0 <= i < |lists| ==> Readable(delim, quote, lists[i])
    decreases |lists|
  {
    hide LineOf, Readable, Join, Split, ReadRecord, NoNul;
    if lists != [] {
      var head, later := lists[0], LinesOf(delim, quote, lists[1..]);
      var file := LinesOf(delim, quote, lists);
      var g := ReadRecord(delim, quote, quote, BeforeField, false, file);
      var found := Split(delim, quote, g.record);
      LineIff(delim, quote, sep, head, later);
      NotEmpty(delim, quote, head, later);
      LinesIff(delim, quote, sep, lists[1..]);
      var next := Delivered(delim, quote, quote, g.rest);
      if found != [] && found != [[]] {
        assert ([g] + next)[1..] == next;
        assert AwkRecords(delim, quote, sep, [g] + next) == [Join(sep, found)] + AwkRecords(delim, quote, sep, next);
      }
      if Readable(delim, quote, head) {
        ReadableSome(delim, quote, head);
        assert found == head && g.rest == later;
        SameTail(Join(sep, head), AwkRecords(delim, quote, sep, next), Joins(sep, lists[1..]));
        assert (forall i :: 0 <= i < |lists| ==> Readable(delim, quote, lists[i])) <==>
               (forall i :: 0 <= i < |lists[1..]| ==> Readable(delim, quote, lists[1..][i]));
      } else {
        assert !Readable(delim, quote, lists[0]) && Joins(sep, lists)[0] == Join(sep, head);
      }
    }
  }

  lemma SameTail(x: bytes, xs: seq<bytes>, ys: seq<bytes>)
    ensures [x] + xs == [x] + ys <==> xs == ys
  {
    assert ([x] + xs)[1..] == xs && ([x] + ys)[1..] == ys;
  }

  lemma NotEmpty(delim: byte, quote: byte, fields: seq<bytes>, rest: bytes)
    ensures LineOf(delim, quote, fields) + rest != []
  {}

  lemma ReadableSome(delim: byte, quote: byte, fields: seq<bytes>)
    requires Readable(delim, quote, fields)
    ensures fields != [] && fields != [[]]
  {}

  /** A file of lines written by csvcompose, read to what gawk takes for its end. */
  method GetLines(r: Reader, ghost lists: seq<seq<bytes>>) returns (records: seq<bytes>)
    requires r.Between() && r.seen == r.quote && r.Rest() == LinesOf(r.delim, r.quote, lists)
    requires Distinct(r.delim, r.quote) && r.quote != CR && r.delim != CR && forall i :: 0 <= i < |lists| ==> NoNul(lists[i])
    modifies Reads(r).Repr()
    ensures r.Between() && fresh(Reads(r).Repr() - old(Reads(r).Repr()))
    ensures records == Joins(CString(r.fs), lists) <==> forall i :: 0 <= i < |lists| ==> Readable(r.delim, r.quote, lists[i])
  {
    hide LinesOf, Joins, Readable, r.Rest;
    LinesIff(r.delim, r.quote, CString(r.fs), lists);
    records := GetRecords(r);
  }
}
