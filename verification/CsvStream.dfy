/** What csv_read takes from a stream of bytes (csv/csv_input.c): its own quote tracker decides
    where a record ends, while the parser of csv_parser.c decides when to stop asking. */
module CsvStream {
  import opened Common
  import opened CsvParser
  import opened CsvFormat

  /** One record: the bytes passed on, the callbacks on them, the terminator, and what is left. */
  datatype Got = Got(record: bytes, ops: seq<Op>, rt: bytes, rest: bytes)

  /** The record terminator that starts with input[0]. */
  function Terminator(input: bytes): bytes
    requires input != []
  {
    if input[0] == CR && |input| > 1 && input[1] == LF then [CR, LF] else [input[0]]
  }

  ghost function ReadRecord(delim: byte, quote: byte, seen: int, state: State, inside: bool, input: bytes): (g: Got)
    ensures |g.rest| <= |input| && (input != [] ==> |g.rest| < |input|)
    decreases |input|
  {
    if input == [] then Got([], Final(state), [], [])
    else
      var c := input[0];
      if !inside && (c == CR || c == LF) then
        var rt := Terminator(input);
        Got([], Final(state), rt, input[|rt|..])
      else if c == NUL then Got([c], Final(state), [], input[1..])
      else
        var m := Step(delim, quote, state, c);
        if m.stop then Got([c], m.ops + Final(m.next), [], input[1..])
        else
          var g := ReadRecord(delim, quote, seen, m.next, inside != (c == seen), input[1..]);
          Got([c] + g.record, m.ops + g.ops, g.rt, g.rest)
  }

  predicate IsTerminator(rt: bytes) { rt == [] || rt == [CR] || rt == [LF] || rt == [CR, LF] }

  /** No byte is lost, repeated or changed: record, terminator and rest are the input. */
  lemma {:induction false} RecordConserves(delim: byte, quote: byte, seen: int, state: State, inside: bool, input: bytes)
    ensures var g := ReadRecord(delim, quote, seen, state, inside, input);
      g.record + g.rt + g.rest == input && IsTerminator(g.rt)
    decreases |input|
  {
    hide Step;
    if input != [] && !(!inside && (input[0] == CR || input[0] == LF)) && input[0] != NUL {
      var m := Step(delim, quote, state, input[0]);
      if !m.stop {
        RecordConserves(delim, quote, seen, m.next, inside != (input[0] == seen), input[1..]);
        var c, g := input[0], ReadRecord(delim, quote, seen, m.next, inside != (input[0] == seen), input[1..]);
        assert input == [c] + input[1..];
        assert ReadRecord(delim, quote, seen, state, inside, input) == Got([c] + g.record, m.ops + g.ops, g.rt, g.rest);
        hide ReadRecord;
        ConcatAssoc([c], g.record, g.rt);
        ConcatAssoc([c], g.record + g.rt, g.rest);
      }
    }
  }

  /** The callbacks are those of the parser on the record alone, so csv_split_record gives the same
      fields on it: also after an error, and when the record holds a NUL. */
  lemma {:induction false} RecordSplits(delim: byte, quote: byte, seen: int, state: State, inside: bool, input: bytes)
    ensures var g := ReadRecord(delim, quote, seen, state, inside, input);
      g.ops == Ops(delim, quote, state, g.record)
    decreases |input|
  {
    hide Step;
    if input != [] && !(!inside && (input[0] == CR || input[0] == LF)) && input[0] != NUL {
      var c, m := input[0], Step(delim, quote, state, input[0]);
      if !m.stop {
        var g := ReadRecord(delim, quote, seen, m.next, inside != (c == seen), input[1..]);
        RecordSplits(delim, quote, seen, m.next, inside != (c == seen), input[1..]);
        assert ([c] + g.record)[1..] == g.record;
      }
    }
  }

  // ------------------------------------------------------------ the two trackers

  /** At every call of next_char, until an unexpected quote is reported, the reader is inside quotes
      exactly when the parser is in a quoted field. */
  ghost predicate InStep(delim: byte, quote: byte, seen: int, state: State, inside: bool, input: bytes)
    decreases |input|
  {
    && (inside <==> state.InQuoted?)
    && (input != [] && (inside || (input[0] != CR && input[0] != LF)) && input[0] != NUL ==>
          var m := Step(delim, quote, state, input[0]);
          !m.stop && Error(UnexpectedQuote) !in m.ops ==>
            InStep(delim, quote, seen, m.next, inside != (input[0] == seen), input[1..]))
  }

  /** Until an unexpected quote is reported, a line end reaches the parser only inside a quoted field, so it
      never stops the parser. */
  ghost predicate LineEndsQuoted(delim: byte, quote: byte, seen: int, state: State, inside: bool, input: bytes)
    decreases |input|
  {
    input != [] && (inside || (input[0] != CR && input[0] != LF)) && input[0] != NUL ==>
      var m := Step(delim, quote, state, input[0]);
      && (input[0] == CR || input[0] == LF ==> state.InQuoted?) && !m.stop
      && (Error(UnexpectedQuote) !in m.ops ==>
            LineEndsQuoted(delim, quote, seen, m.next, inside != (input[0] == seen), input[1..]))
  }

  lemma {:induction false} InStepLineEnds(delim: byte, quote: byte, seen: int, state: State, inside: bool, input: bytes)
    requires InStep(delim, quote, seen, state, inside, input)
    ensures LineEndsQuoted(delim, quote, seen, state, inside, input)
    decreases |input|
  {
    if input != [] && (inside || (input[0] != CR && input[0] != LF)) && input[0] != NUL {
      var m := Step(delim, quote, state, input[0]);
      if Error(UnexpectedQuote) !in m.ops {
        InStepLineEnds(delim, quote, seen, m.next, inside != (input[0] == seen), input[1..]);
      }
    }
  }

  /** csv_quote, a plain char, is what the reader compares with: where that is signed, a quote above 127 is
      never seen. The two trackers can only agree on a quote that the reader sees and the parser treats as one. */
  predicate Agree(delim: byte, quote: byte, seen: int) {
    ((seen == quote) <==> delim != quote) || quote == NUL || quote == LF || quote == CR
  }

  lemma {:induction false} StaysInStep(delim: byte, quote: byte, signed: bool, state: State, inside: bool, input: bytes)
    requires Agree(delim, quote, PlainChar(quote, signed)) && (inside <==> state.InQuoted?) && !state.AfterField?
    requires state.InQuoted? || state.AfterQuote? ==> delim != quote && quote != NUL && quote != LF && quote != CR
    ensures InStep(delim, quote, PlainChar(quote, signed), state, inside, input)
    decreases |input|
  {
    if input != [] && (inside || (input[0] != CR && input[0] != LF)) && input[0] != NUL {
      var m := Step(delim, quote, state, input[0]);
      if !m.stop && Error(UnexpectedQuote) !in m.ops {
        StaysInStep(delim, quote, signed, m.next, inside != (input[0] == PlainChar(quote, signed)), input[1..]);
      }
    }
  }

  ghost predicate StaysOnAll(delim: byte, quote: byte, seen: int) {
    forall input :: InStep(delim, quote, seen, BeforeField, false, input)
  }

  /** The trackers stay in step on every input exactly when the quote is one the reader can see and
      is not the delimiter (or is a byte neither ever acts on). */
  lemma InStepIff(delim: byte, quote: byte, signed: bool)
    ensures StaysOnAll(delim, quote, PlainChar(quote, signed)) <==> Agree(delim, quote, PlainChar(quote, signed))
    ensures Agree(delim, quote, PlainChar(quote, signed)) ==>
      forall input :: LineEndsQuoted(delim, quote, PlainChar(quote, signed), BeforeField, false, input)
  {
    var seen := PlainChar(quote, signed);
    if Agree(delim, quote, seen) {
      forall input ensures InStep(delim, quote, seen, BeforeField, false, input) {
        StaysInStep(delim, quote, signed, BeforeField, false, input);
      }
      forall input ensures LineEndsQuoted(delim, quote, seen, BeforeField, false, input) {
        InStepLineEnds(delim, quote, seen, BeforeField, false, input);
      }
    } else {
      OutOfStep(delim, quote, seen);
    }
  }

  /** One quote is enough to lose step. */
  lemma OutOfStep(delim: byte, quote: byte, seen: int)
    requires !Agree(delim, quote, seen)
    ensures !InStep(delim, quote, seen, BeforeField, false, [quote])
  {
    var m := Step(delim, quote, BeforeField, quote);
    assert Error(UnexpectedQuote) !in m.ops && !m.stop;
    assert !InStep(delim, quote, seen, m.next, false != (quote == seen), [quote][1..]);
  }

  /** Where char is signed, the quote 200 is never seen by the reader: a quoted line feed then ends the
      record, in the middle of its field. */
  lemma SignedQuote(delim: byte)
    requires delim != 200
    ensures !InStep(delim, 200, PlainChar(200, true), BeforeField, false, [200])
    ensures delim != LF ==>
      ReadRecord(delim, 200, PlainChar(200, true), BeforeField, false, [200, LF, 200]).record == [200]
    ensures delim != LF ==>
      ReadRecord(delim, 200, PlainChar(200, false), BeforeField, false, [200, LF, 200]).record == [200, LF, 200]
  {
    OutOfStep(delim, 200, PlainChar(200, true));
    var input: bytes := [200, LF, 200];
    assert input[1..] == [LF, 200] && input[1..][1..] == [200] && input[1..][1..][1..] == [];
    var g := ReadRecord(delim, 200, 200, InQuoted, true, [LF, 200]);
    assert ReadRecord(delim, 200, 200, AfterQuote, false, []).record == [];
    assert ReadRecord(delim, 200, 200, InQuoted, true, [200]).record == [200];
    assert g.record == [LF, 200];
  }

  // ------------------------------------------------------------ where a record ends

  /** How many quotes the reader sees in it. */
  function QuotesSeen(seen: int, text: bytes): nat {
    if text == [] then 0 else QuotesSeen(seen, text[..|text| - 1]) + if text[|text| - 1] == seen then 1 else 0
  }

  lemma {:induction false} QuotesCons(seen: int, c: byte, text: bytes)
    ensures QuotesSeen(seen, [c] + text) == (if c == seen then 1 else 0) + QuotesSeen(seen, text)
    decreases |text|
  {
    if text == [] {
      assert [c] + text == [c] && [c][..0] == [];
    } else {
      assert ([c] + text)[..|text|] == [c] + text[..|text| - 1];
      QuotesCons(seen, c, text[..|text| - 1]);
    }
  }

  predicate Odd(n: nat) { n % 2 == 1 }

  /** A record of so many bytes: no line end in it but behind an odd number of quotes; it ends at a line end
      behind an even number, at the end of the file, with a NUL, or with a line feed that ends it for the parser. */
  ghost predicate EndsAt(seen: int, inside: bool, input: bytes, n: nat, rt: bytes) {
    && n <= |input|
    && (forall k :: 0 <= k < n && (input[k] == CR || input[k] == LF) ==> inside != Odd(QuotesSeen(seen, input[..k])))
    && (forall k :: 0 <= k < n - 1 ==> input[k] != NUL)
    && if rt == [] then
         n == |input| || (n > 0 && (input[n - 1] == NUL || input[n - 1] == LF))
       else
         n < |input| && rt == Terminator(input[n..]) && (input[n] == CR || input[n] == LF)
         && inside == Odd(QuotesSeen(seen, input[..n]))
  }

  lemma {:induction false} RecordEnds(delim: byte, quote: byte, seen: int, state: State, inside: bool, input: bytes)
    requires delim != NUL && quote != NUL
    ensures var g := ReadRecord(delim, quote, seen, state, inside, input);
      EndsAt(seen, inside, input, |g.record|, g.rt)
    decreases |input|
  {
    if input == [] || (!inside && (input[0] == CR || input[0] == LF)) || input[0] == NUL {
      assert input[..0] == [] && input[0..] == input;
    } else {
      var c, m := input[0], Step(delim, quote, state, input[0]);
      assert input[..0] == [];
      if m.stop {
        StopsAtLF(delim, quote, state, c);
      } else {
        var g := ReadRecord(delim, quote, seen, m.next, inside != (c == seen), input[1..]);
        RecordEnds(delim, quote, seen, m.next, inside != (c == seen), input[1..]);
        hide ReadRecord, Step;
        EndsLater(seen, inside, input, |g.record|, g.rt);
      }
    }
  }

  lemma StopsAtLF(delim: byte, quote: byte, state: State, c: byte)
    requires Step(delim, quote, state, c).stop
    ensures c == LF
  {}

  lemma EndsLater(seen: int, inside: bool, input: bytes, n: nat, rt: bytes)
    requires input != [] && input[0] != NUL && (inside || (input[0] != CR && input[0] != LF))
    requires EndsAt(seen, inside != (input[0] == seen), input[1..], n, rt)
    ensures EndsAt(seen, inside, input, n + 1, rt)
  {
    var c, rest := input[0], input[1..];
    forall k | 0 <= k <= n ensures QuotesSeen(seen, input[..k + 1]) == (if c == seen then 1 else 0) + QuotesSeen(seen, rest[..k]) {
      assert input[..k + 1] == [c] + rest[..k];
      QuotesCons(seen, c, rest[..k]);
    }
    assert input[..0] == [] && QuotesSeen(seen, input[..0]) == 0 && rest[n..] == input[n + 1..];
    hide QuotesSeen;
    forall k | 0 <= k < n + 1 && (input[k] == CR || input[k] == LF) ensures inside != Odd(QuotesSeen(seen, input[..k])) {
      if k > 0 {
        assert input[k] == rest[k - 1];
      }
    }
    forall k | 0 <= k < n ensures input[k] != NUL {
      if k > 0 {
        assert input[k] == rest[k - 1];
      }
    }
  }

  // ------------------------------------------------------------ printed records in a stream

  /** Inside quotes or not, after these bytes. */
  ghost function InsideAfter(quote: int, inside: bool, text: bytes): bool
    decreases |text|
  {
    if text == [] then inside else InsideAfter(quote, inside != (text[0] == quote), text[1..])
  }

  /** No byte of the text ends the record. */
  ghost predicate Unbroken(quote: int, inside: bool, text: bytes)
    decreases |text|
  {
    text == [] ||
    ((inside || (text[0] != CR && text[0] != LF)) && Unbroken(quote, inside != (text[0] == quote), text[1..]))
  }

  lemma {:induction false} UnbrokenAppend(quote: int, inside: bool, xs: bytes, ys: bytes)
    ensures InsideAfter(quote, inside, xs + ys) == InsideAfter(quote, InsideAfter(quote, inside, xs), ys)
    ensures Unbroken(quote, inside, xs) && Unbroken(quote, InsideAfter(quote, inside, xs), ys) ==>
              Unbroken(quote, inside, xs + ys)
    decreases |xs|
  {
    if xs == [] {
      assert xs + ys == ys;
    } else {
      assert (xs + ys)[1..] == xs[1..] + ys;
      UnbrokenAppend(quote, inside != (xs[0] == quote), xs[1..], ys);
    }
  }

  lemma {:induction false} EscapeUnbroken(quote: byte, text: bytes)
    requires quote != CR && quote != LF
    ensures Unbroken(quote, true, Escape(quote, text)) && InsideAfter(quote, true, Escape(quote, text))
    decreases |text|
  {
    if text != [] {
      EscapeUnbroken(quote, text[1..]);
      var rest := Escape(quote, text[1..]);
      assert Escape(quote, text) == if text[0] == quote then [quote] + ([quote] + rest) else [text[0]] + rest;
      hide Escape;
      if text[0] == quote {
        UnbrokenCons(quote, true, quote, [quote] + rest);
        UnbrokenCons(quote, false, quote, rest);
      } else {
        UnbrokenCons(quote, true, text[0], rest);
      }
    }
  }

  lemma UnbrokenCons(quote: int, inside: bool, c: byte, text: bytes)
    ensures Unbroken(quote, inside, [c] + text) <==> (inside || (c != CR && c != LF)) && Unbroken(quote, inside != (c == quote), text)
    ensures InsideAfter(quote, inside, [c] + text) == InsideAfter(quote, inside != (c == quote), text)
  {
    assert ([c] + text)[1..] == text;
  }

  lemma {:induction false} PlainUnbroken(quote: byte, text: bytes)
    requires quote !in text && CR !in text && LF !in text
    ensures Unbroken(quote, false, text) && !InsideAfter(quote, false, text)
    decreases |text|
  {
    if text != [] {
      PlainUnbroken(quote, text[1..]);
    }
  }

  lemma CellUnbroken(delim: byte, quote: byte, cell: Cell)
    requires Distinct(delim, quote) && quote != CR && Printable(delim, quote, cell) && (!cell.quoted ==> CR !in cell.text)
    ensures Unbroken(quote, false, PrintCell(quote, cell)) && !InsideAfter(quote, false, PrintCell(quote, cell))
  {
    if cell.quoted {
      var middle := Escape(quote, cell.text);
      EscapeUnbroken(quote, cell.text);
      UnbrokenAppend(quote, true, middle, [quote]);
      assert [quote][1..] == [] && Unbroken(quote, true, [quote]) && !InsideAfter(quote, true, [quote]);
      assert [quote] + middle + [quote] == [quote] + (middle + [quote]);
      assert ([quote] + (middle + [quote]))[1..] == middle + [quote];
    } else {
      PlainUnbroken(quote, cell.text);
    }
  }

  /** A bare CR would end the record in the reader, although the parser would accept it. */
  ghost predicate Streamable(cells: seq<Cell>) {
    forall i :: 0 <= i < |cells| ==> !cells[i].quoted ==> CR !in cells[i].text
  }

  lemma {:induction false} PrintUnbroken(delim: byte, quote: byte, cells: seq<Cell>)
    requires Distinct(delim, quote) && quote != CR && delim != CR && Streamable(cells)
    requires forall i :: 0 <= i < |cells| ==> Printable(delim, quote, cells[i])
    ensures Unbroken(quote, false, Print(delim, quote, cells)) && !InsideAfter(quote, false, Print(delim, quote, cells))
    decreases |cells|
  {
    if cells != [] {
      assert Printable(delim, quote, cells[0]);
      CellUnbroken(delim, quote, cells[0]);
      if |cells| > 1 {
        PrintUnbroken(delim, quote, cells[1..]);
        var first, rest := PrintCell(quote, cells[0]), Print(delim, quote, cells[1..]);
        UnbrokenAppend(quote, false, first, [delim] + rest);
        assert ([delim] + rest)[1..] == rest;
        assert first + ([delim] + rest) == Print(delim, quote, cells);
      }
    }
  }

  predicate EndsRecord(tail: bytes) { tail == [] || tail[0] == CR || tail[0] == LF }

  /** While the trackers agree, unbroken text is passed on whole, up to the terminator. */
  lemma {:induction false} TextPassesOn(delim: byte, quote: byte, state: State, inside: bool, text: bytes, tail: bytes)
    requires Distinct(delim, quote) && (inside <==> state.InQuoted?) && !state.AfterField?
    requires NUL !in text && Unbroken(quote, inside, text) && !InsideAfter(quote, inside, text) && EndsRecord(tail)
    requires Error(UnexpectedQuote) !in Ops(delim, quote, state, text)
    ensures var g := ReadRecord(delim, quote, quote, state, inside, text + tail);
      && g.record == text
      && g.rt == (if tail == [] then [] else Terminator(tail)) && g.rest == tail[|g.rt|..]
    decreases |text|
  {
    if text == [] {
      assert text + tail == tail;
    } else {
      var c, rest := text[0], text[1..];
      var inside' := inside != (c == quote);
      assert (inside || (c != CR && c != LF)) && Unbroken(quote, inside', rest) && !InsideAfter(quote, inside', rest);
      hide Unbroken, InsideAfter, ReadRecord;
      OpsStep(delim, quote, state, text);
      StepInStep(delim, quote, state, c);
      hide Step, Ops;
      TextPassesOn(delim, quote, Step(delim, quote, state, c).next, inside', rest, tail);
      PassOn(delim, quote, state, inside, c, rest + tail);
      assert text == [c] + rest;
      ConcatAssoc([c], rest, tail);
    }
  }

  lemma PassOn(delim: byte, quote: byte, state: State, inside: bool, c: byte, rest: bytes)
    requires c != NUL && (inside || (c != CR && c != LF)) && !Step(delim, quote, state, c).stop
    ensures var m := Step(delim, quote, state, c);
      var g := ReadRecord(delim, quote, quote, m.next, inside != (c == quote), rest);
      ReadRecord(delim, quote, quote, state, inside, [c] + rest) == Got([c] + g.record, m.ops + g.ops, g.rt, g.rest)
  {
    hide Step;
    assert ([c] + rest)[1..] == rest;
  }

  lemma OpsStep(delim: byte, quote: byte, state: State, text: bytes)
    requires text != [] && text[0] != NUL && Error(UnexpectedQuote) !in Ops(delim, quote, state, text)
    ensures var m := Step(delim, quote, state, text[0]);
      Error(UnexpectedQuote) !in m.ops && (!m.stop ==> Error(UnexpectedQuote) !in Ops(delim, quote, m.next, text[1..]))
  {
    hide Step;
    var m := Step(delim, quote, state, text[0]);
    var later := if m.stop then Final(m.next) else Ops(delim, quote, m.next, text[1..]);
    assert Ops(delim, quote, state, text) == m.ops + later;
  }

  lemma StepInStep(delim: byte, quote: byte, state: State, c: byte)
    requires Distinct(delim, quote) && !state.AfterField?
    requires Error(UnexpectedQuote) !in Step(delim, quote, state, c).ops
    ensures var m := Step(delim, quote, state, c);
      && (m.stop ==> c == LF && !state.InQuoted?)
      && (!m.stop ==> !m.next.AfterField? && (m.next.InQuoted? <==> (state.InQuoted? != (c == quote))))
  {
    assert [Error(UnexpectedQuote), Put(c)][0] == Error(UnexpectedQuote);
  }

  /** A printed record in a stream is read back whole, with its terminator, and nothing more. */
  lemma ReadOfPrint(delim: byte, quote: byte, cells: seq<Cell>, tail: bytes)
    requires Distinct(delim, quote) && quote != CR && delim != CR
    requires Writable(delim, quote, cells) && Streamable(cells) && EndsRecord(tail)
    ensures var g := ReadRecord(delim, quote, quote, BeforeField, false, Print(delim, quote, cells) + tail);
      && g.record == Print(delim, quote, cells)
      && SplitOps(Fields([], []), g.ops).done == Texts(cells)
      && g.rt == (if tail == [] then [] else Terminator(tail)) && g.rest == tail[|g.rt|..]
  {
    var text := Print(delim, quote, cells);
    SplitOfPrint(delim, quote, cells, []);
    assert text + [] == text;
    PrintUnbroken(delim, quote, cells);
    PrintNoNul(delim, quote, cells);
    TextPassesOn(delim, quote, BeforeField, false, text, tail);
    RecordSplits(delim, quote, quote, BeforeField, false, text + tail);
  }

  lemma {:induction false} PrintNoNul(delim: byte, quote: byte, cells: seq<Cell>)
    requires Distinct(delim, quote) && forall i :: 0 <= i < |cells| ==> NUL !in cells[i].text
    ensures NUL !in Print(delim, quote, cells)
    decreases |cells|
  {
    if cells != [] {
      EscapeNoNul(quote, cells[0].text);
      if |cells| > 1 {
        PrintNoNul(delim, quote, cells[1..]);
      }
    }
  }

  lemma {:induction false} EscapeNoNul(quote: byte, text: bytes)
    requires quote != NUL && NUL !in text
    ensures NUL !in Escape(quote, text)
    decreases |text|
  {
    if text != [] {
      EscapeNoNul(quote, text[1..]);
    }
  }

  // ------------------------------------------------------------ whole files

  /** The records of a stream, by calling csv_read until the end of file. */
  ghost function ReadAll(delim: byte, quote: byte, seen: int, input: bytes): seq<Got>
    decreases |input|
  {
    if input == [] then []
    else
      var g := ReadRecord(delim, quote, seen, BeforeField, false, input);
      [g] + ReadAll(delim, quote, seen, g.rest)
  }

  ghost function Consumed(gots: seq<Got>): bytes {
    if gots == [] then [] else gots[0].record + gots[0].rt + Consumed(gots[1..])
  }

  /** On any stream, the records and their terminators are the stream. */
  lemma {:induction false} StreamConserves(delim: byte, quote: byte, seen: int, input: bytes)
    ensures Consumed(ReadAll(delim, quote, seen, input)) == input
    decreases |input|
  {
    hide ReadRecord;
    if input != [] {
      var g := ReadRecord(delim, quote, seen, BeforeField, false, input);
      RecordConserves(delim, quote, seen, BeforeField, false, input);
      StreamConserves(delim, quote, seen, g.rest);
      assert ([g] + ReadAll(delim, quote, seen, g.rest))[1..] == ReadAll(delim, quote, seen, g.rest);
    }
  }

  /** A printed record and the terminator written after it. */
  datatype Line = Line(cells: seq<Cell>, term: bytes)

  ghost function FileText(delim: byte, quote: byte, lines: seq<Line>): bytes {
    if lines == [] then []
    else Print(delim, quote, lines[0].cells) + lines[0].term + FileText(delim, quote, lines[1..])
  }

  /** LF, CRLF, or a CR that the next line does not turn into CRLF. */
  ghost predicate Terminated(delim: byte, quote: byte, lines: seq<Line>) {
    lines == [] ||
    (var next := FileText(delim, quote, lines[1..]);
     var term := lines[0].term;
     && (term == [LF] || term == [CR, LF] || (term == [CR] && (next == [] || next[0] != LF)))
     && Terminated(delim, quote, lines[1..]))
  }

  lemma ReadAllStep(delim: byte, quote: byte, seen: int, input: bytes)
    requires input != []
    ensures var g := ReadRecord(delim, quote, seen, BeforeField, false, input);
      ReadAll(delim, quote, seen, input) == [g] + ReadAll(delim, quote, seen, g.rest)
  {
    hide ReadRecord;
  }

  /** Reading a printed file gives its records back, one by one: the fields, the text, the terminator. */
  lemma {:induction false} FileReadsBack(delim: byte, quote: byte, lines: seq<Line>)
    requires Distinct(delim, quote) && quote != CR && delim != CR && Terminated(delim, quote, lines)
    requires forall i :: 0 <= i < |lines| ==> Writable(delim, quote, lines[i].cells) && Streamable(lines[i].cells)
    ensures var gots := ReadAll(delim, quote, quote, FileText(delim, quote, lines));
      && |gots| == |lines|
      && forall i :: 0 <= i < |lines| ==>
           && gots[i].record == Print(delim, quote, lines[i].cells) && gots[i].rt == lines[i].term
           && SplitOps(Fields([], []), gots[i].ops).done == Texts(lines[i].cells)
    decreases |lines|
  {
    hide ReadRecord, Print, SplitOps, Writable, Streamable, Texts;
    if lines != [] {
      var next := FileText(delim, quote, lines[1..]);
      var tail := lines[0].term + next;
      assert Terminated(delim, quote, lines[1..]);
      assert tail[|lines[0].term|..] == next && Terminator(tail) == lines[0].term && EndsRecord(tail) && tail != [];
      hide Terminated, Terminator;
      ReadOfPrint(delim, quote, lines[0].cells, tail);
      assert FileText(delim, quote, lines) == Print(delim, quote, lines[0].cells) + lines[0].term + next;
      ConcatAssoc(Print(delim, quote, lines[0].cells), lines[0].term, next);
      hide FileText;
      FileReadsBack(delim, quote, lines[1..]);
      ReadAllStep(delim, quote, quote, Print(delim, quote, lines[0].cells) + tail);
    }
  }
}
