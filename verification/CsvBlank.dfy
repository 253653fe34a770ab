/** The records that look like the end of the file: csv_read gives -1 for an empty awk record
    (csv/csv_input.c), and csv_get_record makes EOF of it (csv/csv.c). */
module CsvBlank {
  import opened Common
  import opened CsvParser
  import opened CsvFormat
  import opened CsvStream

  // ------------------------------------------------------------ the fields of a string

  /** A quote and then nothing, closed or not. */
  predicate QuotedNothing(quote: byte, input: bytes) {
    && input != [] && input[0] == quote
    && (|input| == 1 || input[1] == NUL || (input[1] == quote && AtEnd(input[2..])))
  }

  /** These bytes hold no field, or one empty field. */
  predicate Blank(quote: byte, input: bytes) { AtEnd(input) || QuotedNothing(quote, input) }

  lemma {:induction false} DoneGrows(f: Fields, ops: seq<Op>)
    ensures f.done <= SplitOps(f, ops).done
    decreases |ops|
  {
    if ops != [] {
      DoneGrows(SplitOp(f, ops[0]), ops[1..]);
    }
  }

  /** An open field is delivered, and keeps what it holds. */
  lemma {:induction false} OpenIsDone(f: Fields, ops: seq<Op>)
    requires Alternate(true, ops)
    ensures var done := SplitOps(f, ops).done;
      |done| > |f.done| && f.cur <= done[|f.done|]
    decreases |ops|
  {
    var g := SplitOp(f, ops[0]);
    if ops[0].End? {
      DoneGrows(g, ops[1..]);
    } else if !ops[0].Begin? {
      OpenIsDone(g, ops[1..]);
    }
  }

  /** A field begins here, whatever comes. */
  lemma BeginIsDone(f: Fields, ops: seq<Op>)
    requires Alternate(false, ops) && ops != [] && ops[0].Begin?
    ensures |SplitOps(f, ops).done| > |f.done|
  {
    OpenIsDone(SplitOp(f, Begin), ops[1..]);
  }

  lemma OpsBegin(delim: byte, quote: byte, state: State, input: bytes)
    requires state.AfterDelim? || (state.BeforeField? && !AtEnd(input))
    requires delim != LF
    ensures var ops := Ops(delim, quote, state, input); ops != [] && ops[0].Begin?
  {}

  /** A string has no field exactly when it is over at once. */
  lemma SplitNoneIff(delim: byte, quote: byte, input: bytes)
    requires delim != LF
    ensures Split(delim, quote, input) == [] <==> AtEnd(input)
  {
    var ops := Ops(delim, quote, BeforeField, input);
    if AtEnd(input) {
      assert ops == [];
    } else {
      OpsAlternate(delim, quote, BeforeField, input);
      OpsBegin(delim, quote, BeforeField, input);
      BeginIsDone(Fields([], []), ops);
    }
  }

  /** Two fields at least come of a delimiter: the one it ends, and the next. */
  lemma AfterDelimMore(delim: byte, quote: byte, f: Fields, rest: bytes)
    requires delim != LF
    ensures |SplitOps(f, Ops(delim, quote, AfterDelim, rest)).done| > |f.done|
  {
    OpsAlternate(delim, quote, AfterDelim, rest);
    OpsBegin(delim, quote, AfterDelim, rest);
    BeginIsDone(f, Ops(delim, quote, AfterDelim, rest));
  }

  /** One character of a string: its callbacks, then the rest. */
  lemma SplitStep(delim: byte, quote: byte, state: State, f: Fields, input: bytes)
    requires input != [] && input[0] != NUL
    ensures var m := Step(delim, quote, state, input[0]);
      var later := if m.stop then Final(m.next) else Ops(delim, quote, m.next, input[1..]);
      SplitOps(f, Ops(delim, quote, state, input)) == SplitOps(SplitOps(f, m.ops), later)
  {
    var m := Step(delim, quote, state, input[0]);
    SplitOpsAppend(f, m.ops, if m.stop then Final(m.next) else Ops(delim, quote, m.next, input[1..]));
  }

  /** The fields of what follows an opening quote. */
  ghost function InsideQuotes(delim: byte, quote: byte, rest: bytes): seq<bytes> {
    SplitOps(Fields([], []), Ops(delim, quote, InQuoted, rest)).done
  }

  ghost function BehindQuotes(delim: byte, quote: byte, rest: bytes): seq<bytes> {
    SplitOps(Fields([], []), Ops(delim, quote, AfterQuote, rest)).done
  }

  /** A field that holds something is not empty, nor are two fields one. */
  lemma NotBlank(f: Fields, ops: seq<Op>)
    requires f.done == [] && f.cur != [] && Alternate(true, ops)
    ensures SplitOps(f, ops).done != [] && SplitOps(f, ops).done != [[]]
  {
    OpenIsDone(f, ops);
    assert SplitOps(f, ops).done[0] != [];
  }

  lemma BehindQuotesIff(delim: byte, quote: byte, rest: bytes)
    requires Distinct(delim, quote)
    ensures BehindQuotes(delim, quote, rest) == [[]] <==> AtEnd(rest)
    ensures BehindQuotes(delim, quote, rest) != []
  {
    var none := Fields([], []);
    SplitFirst(none, End, End, End);
    if rest == [] || rest[0] == NUL {
      assert Ops(delim, quote, AfterQuote, rest) == [End];
    } else {
      SplitStep(delim, quote, AfterQuote, none, rest);
      var m := Step(delim, quote, AfterQuote, rest[0]);
      var f := SplitOps(none, m.ops);
      var later := if m.stop then Final(m.next) else Ops(delim, quote, m.next, rest[1..]);
      OpsAlternate(delim, quote, m.next, rest[1..]);
      if rest[0] == delim {
        assert f == Fields([], [[]]);
        AfterDelimMore(delim, quote, f, rest[1..]);
      } else if rest[0] == LF {
        assert later == [];
      } else {
        HoldsSome(delim, quote, rest[0]);
        NotBlank(f, later);
      }
    }
  }

  lemma HoldsSome(delim: byte, quote: byte, c: byte)
    requires Distinct(delim, quote) && c != delim && c != LF
    ensures var m := Step(delim, quote, AfterQuote, c);
      !m.stop && Open(m.next) && SplitOps(Fields([], []), m.ops).done == [] && SplitOps(Fields([], []), m.ops).cur != []
  {
    SplitFirst(Fields([], []), Put(c), End, End);
    SplitFirst(Fields([], []), Error(UnexpectedCharacter), Put(quote), Put(c));
    hide SplitOps;
  }

  lemma InsideQuotesIff(delim: byte, quote: byte, rest: bytes)
    requires Distinct(delim, quote)
    ensures InsideQuotes(delim, quote, rest) == [[]] <==>
      rest == [] || rest[0] == NUL || (rest[0] == quote && AtEnd(rest[1..]))
  {
    var none := Fields([], []);
    if rest == [] || rest[0] == NUL {
      SplitFirst(none, Error(MissingClosingQuote), End, End);
    } else {
      SplitStep(delim, quote, InQuoted, none, rest);
      if rest[0] == quote {
        BehindQuotesIff(delim, quote, rest[1..]);
      } else {
        SplitFirst(none, Put(rest[0]), End, End);
        OpsAlternate(delim, quote, InQuoted, rest[1..]);
        NotBlank(SplitOps(none, [Put(rest[0])]), Ops(delim, quote, InQuoted, rest[1..]));
      }
    }
  }

  /** A string is one empty field exactly when it is a quote and then nothing. */
  lemma SplitEmptyFieldIff(delim: byte, quote: byte, input: bytes)
    requires Distinct(delim, quote)
    ensures Split(delim, quote, input) == [[]] <==> QuotedNothing(quote, input)
  {
    var none := Fields([], []);
    if AtEnd(input) {
      SplitNoneIff(delim, quote, input);
    } else {
      var c, rest := input[0], input[1..];
      SplitStep(delim, quote, BeforeField, none, input);
      if c == delim {
        SplitFirst(none, Begin, End, End);
        AfterDelimMore(delim, quote, SplitOps(none, [Begin, End]), rest);
      } else if c == quote {
        SplitFirst(none, Begin, End, End);
        InsideQuotesIff(delim, quote, rest);
        assert rest != [] ==> rest[1..] == input[2..];
      } else {
        SplitFirst(none, Begin, Put(c), End);
        OpsAlternate(delim, quote, InUnquoted, rest);
        NotBlank(SplitOps(none, [Begin, Put(c)]), Ops(delim, quote, InUnquoted, rest));
      }
    }
  }

  /** The two together, on the bytes. */
  lemma BlankIff(delim: byte, quote: byte, input: bytes)
    requires Distinct(delim, quote)
    ensures Split(delim, quote, input) == [] || Split(delim, quote, input) == [[]] <==> Blank(quote, input)
  {
    SplitNoneIff(delim, quote, input);
    SplitEmptyFieldIff(delim, quote, input);
  }

  // ------------------------------------------------------------ the records of a stream

  /** The record is over before its first byte: at the end of the file, at a line end, or at a NUL. */
  predicate Over(tail: bytes) { tail == [] || tail[0] == NUL || tail[0] == CR || tail[0] == LF }

  /** The stream goes on with a record that csv_read gives -1 for: nothing, or a quote and then nothing. A
      quote the reader's own tracker sees must be closed before a line end counts. */
  predicate BlankLine(quote: byte, seen: int, rest: bytes) {
    || Over(rest)
    || (rest[0] == quote && (|rest| == 1 || rest[1] == NUL || (seen != quote && Over(rest[1..]))))
    || (|rest| > 1 && rest[0] == quote && rest[1] == quote && Over(rest[2..]))
  }

  /** One more byte of a record. */
  lemma RecordGoesOn(delim: byte, quote: byte, seen: int, state: State, inside: bool, c: byte, rest: bytes)
    requires c != NUL && (inside || (c != CR && c != LF)) && !Step(delim, quote, state, c).stop
    ensures var m := Step(delim, quote, state, c);
      ReadRecord(delim, quote, seen, state, inside, [c] + rest).record ==
        [c] + ReadRecord(delim, quote, seen, m.next, inside != (c == seen), rest).record
  {
    hide Step;
    assert ([c] + rest)[1..] == rest;
  }

  lemma RecordOver(delim: byte, quote: byte, seen: int, state: State, rest: bytes)
    requires Over(rest)
    ensures ReadRecord(delim, quote, seen, state, false, rest).record == if rest != [] && rest[0] == NUL then [NUL] else []
  {}

  lemma RecordStarts(delim: byte, quote: byte, seen: int, state: State, inside: bool, rest: bytes)
    requires rest != [] && (inside || !Over(rest))
    ensures ReadRecord(delim, quote, seen, state, inside, rest).record != []
    ensures ReadRecord(delim, quote, seen, state, inside, rest).record[0] == rest[0]
  {
    hide Step;
  }

  /** On the bytes of the stream: its next record is blank exactly when the stream goes on in this way. */
  lemma BlankLineIff(delim: byte, quote: byte, seen: int, rest: bytes)
    requires Distinct(delim, quote) && (seen == quote || seen < 0)
    ensures BlankLine(quote, seen, rest) <==> Blank(quote, ReadRecord(delim, quote, seen, BeforeField, false, rest).record)
  {
    hide ReadRecord;
    if Over(rest) {
      RecordOver(delim, quote, seen, BeforeField, rest);
    } else if rest[0] != quote {
      RecordStarts(delim, quote, seen, BeforeField, false, rest);
    } else {
      assert rest == [quote] + rest[1..];
      RecordGoesOn(delim, quote, seen, BeforeField, false, quote, rest[1..]);
      OneQuote(delim, quote, seen, rest[1..]);
    }
  }

  /** What follows the first quote. */
  lemma OneQuote(delim: byte, quote: byte, seen: int, tail: bytes)
    requires Distinct(delim, quote) && (seen == quote || seen < 0)
    ensures var record := ReadRecord(delim, quote, seen, InQuoted, quote == seen, tail).record;
      Blank(quote, [quote] + record) <==>
      tail == [] || tail[0] == NUL || (seen != quote && Over(tail)) || (tail[0] == quote && Over(tail[1..]))
  {
    var inside := quote == seen;
    if tail == [] || (tail[0] == NUL && inside) {
      assert ReadRecord(delim, quote, seen, InQuoted, inside, tail).record == if tail == [] then [] else [NUL];
    } else if !inside && Over(tail) {
      RecordOver(delim, quote, seen, InQuoted, tail);
    } else if tail[0] != quote {
      hide ReadRecord;
      RecordStarts(delim, quote, seen, InQuoted, inside, tail);
    } else {
      hide ReadRecord;
      assert tail == [quote] + tail[1..];
      RecordGoesOn(delim, quote, seen, InQuoted, inside, quote, tail[1..]);
      var record := ReadRecord(delim, quote, seen, AfterQuote, false, tail[1..]).record;
      assert ([quote] + ([quote] + record))[2..] == record;
      if Over(tail[1..]) {
        RecordOver(delim, quote, seen, AfterQuote, tail[1..]);
      } else {
        RecordStarts(delim, quote, seen, AfterQuote, false, tail[1..]);
      }
    }
  }

  // ------------------------------------------------------------ what gawk sees of a file

  /** The records csv_get_record delivers: those before the first that has no field, or one empty field. */
  ghost function Delivered(delim: byte, quote: byte, seen: int, input: bytes): seq<Got>
    decreases |input|
  {
    var g := ReadRecord(delim, quote, seen, BeforeField, false, input);
    var fields := Split(delim, quote, g.record);
    if input == [] || fields == [] || fields == [[]] then []
    else [g] + Delivered(delim, quote, seen, g.rest)
  }

  ghost predicate NoneBlank(quote: byte, gots: seq<Got>) {
    forall i :: 0 <= i < |gots| ==> !Blank(quote, gots[i].record)
  }

  /** They are the first records of the file, up to the first blank one. */
  lemma {:induction false} DeliveredFirst(delim: byte, quote: byte, seen: int, input: bytes)
    requires Distinct(delim, quote)
    ensures var all, some := ReadAll(delim, quote, seen, input), Delivered(delim, quote, seen, input);
      some <= all && NoneBlank(quote, some) && (|some| < |all| ==> Blank(quote, all[|some|].record))
    decreases |input|
  {
    hide ReadRecord, Split, Blank;
    if input != [] {
      var g := ReadRecord(delim, quote, seen, BeforeField, false, input);
      BlankIff(delim, quote, g.record);
      DeliveredFirst(delim, quote, seen, g.rest);
    }
  }

  /** Every record of the file is delivered exactly when none is blank. */
  lemma DeliveredIff(delim: byte, quote: byte, seen: int, input: bytes)
    requires Distinct(delim, quote)
    ensures Delivered(delim, quote, seen, input) == ReadAll(delim, quote, seen, input) <==>
      NoneBlank(quote, ReadAll(delim, quote, seen, input))
  {
    DeliveredFirst(delim, quote, seen, input);
  }

  /** A printed line that gawk takes for the end of the file. */
  ghost predicate LooksLikeEnd(line: Line) { Texts(line.cells) == [] || Texts(line.cells) == [[]] }

  /** A printed file is delivered whole exactly when no line is without a field or a single empty one. */
  lemma FileDeliveredIff(delim: byte, quote: byte, lines: seq<Line>)
    requires Distinct(delim, quote) && quote != CR && delim != CR && Terminated(delim, quote, lines)
    requires forall i :: 0 <= i < |lines| ==> Writable(delim, quote, lines[i].cells) && Streamable(lines[i].cells)
    ensures var file := FileText(delim, quote, lines);
      Delivered(delim, quote, quote, file) == ReadAll(delim, quote, quote, file) <==>
      forall i :: 0 <= i < |lines| ==> !LooksLikeEnd(lines[i])
  {
    hide ReadAll, Delivered, Blank, Terminated, Writable, Streamable, Texts;
    var file := FileText(delim, quote, lines);
    var gots := ReadAll(delim, quote, quote, file);
    FileReadsBack(delim, quote, lines);
    DeliveredIff(delim, quote, quote, file);
    forall i | 0 <= i < |lines| ensures Blank(quote, gots[i].record) <==> LooksLikeEnd(lines[i]) {
      PrintedBlank(delim, quote, lines[i]);
    }
  }

  lemma PrintedBlank(delim: byte, quote: byte, line: Line)
    requires Distinct(delim, quote) && Writable(delim, quote, line.cells)
    ensures Blank(quote, Print(delim, quote, line.cells)) <==> LooksLikeEnd(line)
  {
    var text := Print(delim, quote, line.cells);
    SplitOfPrint(delim, quote, line.cells, []);
    assert text + [] == text;
    BlankIff(delim, quote, text);
  }
}
