/** The CSV format of section 2 of RFC 4180, as a printer, against csv_split_record. */
module CsvFormat {
  import opened Common
  import opened CsvParser

  /** A field, and whether it is written between quotes. */
  datatype Cell = Cell(quoted: bool, text: bytes)

  ghost function Texts(cells: seq<Cell>): seq<bytes> {
    if cells == [] then [] else [cells[0].text] + Texts(cells[1..])
  }

  /** Every quote inside a quoted field is doubled. */
  function Escape(quote: byte, text: bytes): bytes {
    if text == [] then []
    else (if text[0] == quote then [quote, quote] else [text[0]]) + Escape(quote, text[1..])
  }

  function PrintCell(quote: byte, cell: Cell): bytes {
    if cell.quoted then [quote] + Escape(quote, cell.text) + [quote] else cell.text
  }

  function Print(delim: byte, quote: byte, cells: seq<Cell>): bytes {
    if cells == [] then []
    else if |cells| == 1 then PrintCell(quote, cells[0])
    else PrintCell(quote, cells[0]) + [delim] + Print(delim, quote, cells[1..])
  }

  /** A NUL ends the input; text without quotes may not hold a delimiter, a quote or a line feed. */
  ghost predicate Printable(delim: byte, quote: byte, cell: Cell) {
    && NUL !in cell.text
    && (!cell.quoted ==> delim !in cell.text && quote !in cell.text && LF !in cell.text)
  }

  /** An empty record has no fields, so one empty field needs its quotes. */
  ghost predicate Writable(delim: byte, quote: byte, cells: seq<Cell>) {
    && (forall i :: 0 <= i < |cells| ==> Printable(delim, quote, cells[i]))
    && cells != [Cell(false, [])]
  }

  predicate Distinct(delim: byte, quote: byte) {
    delim != quote && delim != LF && delim != NUL && quote != LF && quote != NUL
  }

  /** The record ends here: at the end of the string, or at a line feed. */
  predicate AtEnd(tail: bytes) { tail == [] || tail[0] == NUL || tail[0] == LF }

  predicate NoError(ops: seq<Op>) { forall i :: 0 <= i < |ops| ==> !ops[i].Error? }

  // ------------------------------------------------------------ what any input is made of

  /** A piece of any input: text that does not begin with a quote; text between quotes, with more behind the
      closing quote; or text behind a quote that is never closed. */
  datatype Piece = Bare(text: bytes) | Quoted(text: bytes, after: bytes) | Unclosed(text: bytes)

  function PrintPiece(quote: byte, p: Piece): bytes {
    match p
    case Bare(text) => text
    case Quoted(text, after) => [quote] + Escape(quote, text) + [quote] + after
    case Unclosed(text) => [quote] + Escape(quote, text)
  }

  function PrintPieces(delim: byte, quote: byte, ps: seq<Piece>): bytes {
    if ps == [] then []
    else if |ps| == 1 then PrintPiece(quote, ps[0])
    else PrintPiece(quote, ps[0]) + [delim] + PrintPieces(delim, quote, ps[1..])
  }

  /** The field it stands for: with text behind it, a closing quote is part of the field. */
  function FieldOf(quote: byte, p: Piece): bytes {
    match p
    case Bare(text) => text
    case Quoted(text, after) => if after == [] then text else text + [quote] + after
    case Unclosed(text) => text
  }

  ghost function FieldsOf(quote: byte, ps: seq<Piece>): seq<bytes> {
    if ps == [] then [] else [FieldOf(quote, ps[0])] + FieldsOf(quote, ps[1..])
  }

  /** A complaint for each quote. */
  function QuotesIn(quote: byte, text: bytes): seq<Message> {
    if text == [] then [] else (if text[0] == quote then [UnexpectedQuote] else []) + QuotesIn(quote, text[1..])
  }

  /** What is complained of. */
  function FaultsOf(quote: byte, p: Piece): seq<Message> {
    match p
    case Bare(text) => QuotesIn(quote, text)
    case Quoted(_, after) => if after == [] then [] else [UnexpectedCharacter] + QuotesIn(quote, after[1..])
    case Unclosed(_) => [MissingClosingQuote]
  }

  ghost function AllFaults(quote: byte, ps: seq<Piece>): seq<Message> {
    if ps == [] then [] else FaultsOf(quote, ps[0]) + AllFaults(quote, ps[1..])
  }

  predicate NoBreak(delim: byte, text: bytes) { delim !in text && LF !in text && NUL !in text }

  predicate Fits(delim: byte, quote: byte, p: Piece) {
    match p
    case Bare(text) => NoBreak(delim, text) && (text != [] ==> text[0] != quote)
    case Quoted(text, after) => NUL !in text && NoBreak(delim, after) && (after != [] ==> after[0] != quote)
    case Unclosed(text) => NUL !in text
  }

  /** Only the last piece may be left open, and then only the end of the string is behind it. */
  ghost predicate Made(delim: byte, quote: byte, ps: seq<Piece>, tail: bytes) {
    && (forall i :: 0 <= i < |ps| ==> Fits(delim, quote, ps[i]) && (ps[i].Unclosed? ==> i == |ps| - 1))
    && AtEnd(tail) && (ps != [] && ps[|ps| - 1].Unclosed? ==> tail == [] || tail[0] == NUL)
  }

  // ------------------------------------------------------------ one character at a time

  ghost function Faults(ops: seq<Op>): seq<Message> {
    if ops == [] then [] else (if ops[0].Error? then [ops[0].msg] else []) + Faults(ops[1..])
  }

  /** The fields delivered and the errors reported, from a state in mid-record. */
  ghost function Read(delim: byte, quote: byte, state: State, f: Fields, input: bytes): (Fields, seq<Message>) {
    var ops := Ops(delim, quote, state, input);
    (SplitOps(f, ops), Faults(ops))
  }

  lemma {:induction false} FaultsAppend(xs: seq<Op>, ys: seq<Op>)
    ensures Faults(xs + ys) == Faults(xs) + Faults(ys)
    decreases |xs|
  {
    if xs == [] {
      assert xs + ys == ys;
    } else {
      assert (xs + ys)[1..] == xs[1..] + ys;
      FaultsAppend(xs[1..], ys);
    }
  }

  lemma {:induction false} NoErrorIsNoFault(ops: seq<Op>)
    ensures NoError(ops) <==> Faults(ops) == []
    decreases |ops|
  {
    if ops != [] {
      NoErrorIsNoFault(ops[1..]);
      assert NoError(ops) <==> !ops[0].Error? && NoError(ops[1..]) by {
        assert forall i :: 0 < i < |ops| ==> ops[i] == ops[1..][i - 1];
        assert forall i :: 0 <= i < |ops[1..]| ==> ops[1..][i] == ops[i + 1];
      }
    }
  }

  /** Reading the input from state s comes to reading the rest from state t, with these errors before. */
  ghost predicate Goes(delim: byte, quote: byte, s: State, f: Fields, input: bytes, faults: seq<Message>,
                       t: State, g: Fields, rest: bytes)
  {
    var r := Read(delim, quote, t, g, rest);
    Read(delim, quote, s, f, input) == (r.0, faults + r.1)
  }

  lemma Stays(delim: byte, quote: byte, s: State, f: Fields, input: bytes)
    ensures Goes(delim, quote, s, f, input, [], s, f, input)
  {
    hide Read;
    assert [] + Read(delim, quote, s, f, input).1 == Read(delim, quote, s, f, input).1;
  }

  lemma Then(delim: byte, quote: byte, s: State, f: Fields, input: bytes, before: seq<Message>, t: State, g: Fields,
             mid: bytes, after: seq<Message>, u: State, h: Fields, rest: bytes)
    requires Goes(delim, quote, s, f, input, before, t, g, mid) && Goes(delim, quote, t, g, mid, after, u, h, rest)
    ensures Goes(delim, quote, s, f, input, before + after, u, h, rest)
    ensures before == [] ==> Goes(delim, quote, s, f, input, after, u, h, rest)
  {
    hide Read;
    assert before == [] ==> before + after == after;
    ConcatAssoc(before, after, Read(delim, quote, u, h, rest).1);
  }

  /** Reading one character, where it does not stop the parser. */
  lemma GoesOne(delim: byte, quote: byte, s: State, f: Fields, c: byte, rest: bytes)
    requires c != NUL && !Step(delim, quote, s, c).stop
    ensures var m := Step(delim, quote, s, c);
      Goes(delim, quote, s, f, [c] + rest, Faults(m.ops), m.next, SplitOps(f, m.ops), rest)
  {
    var m := Step(delim, quote, s, c);
    assert ([c] + rest)[1..] == rest;
    var ops := Ops(delim, quote, m.next, rest);
    assert Ops(delim, quote, s, [c] + rest) == m.ops + ops;
    hide Ops, Step;
    FaultsAppend(m.ops, ops);
    SplitOpsAppend(f, m.ops, ops);
  }

  /** The short lists of callbacks a step makes. */
  lemma Few(f: Fields, c: byte)
    ensures SplitOps(f, []) == f && Faults([]) == []
    ensures SplitOps(f, [Put(c)]) == f.(cur := f.cur + [c]) && Faults([Put(c)]) == []
    ensures SplitOps(f, [Begin]) == f.(cur := []) && Faults([Begin]) == []
    ensures SplitOps(f, [End]) == f.(done := f.done + [f.cur]) && Faults([End]) == []
    ensures SplitOps(f, [Begin, Put(c)]) == f.(cur := [c]) && Faults([Begin, Put(c)]) == []
    ensures SplitOps(f, [Begin, End]) == Fields([], f.done + [[]]) && Faults([Begin, End]) == []
  {
    SplitFirst(f, Put(c), End, End);
    SplitFirst(f, Begin, Put(c), End);
    SplitFirst(f, End, End, End);
    SplitFirst(f, Begin, End, End);
    FaultsFirst(Put(c), End, End);
    FaultsFirst(Begin, Put(c), End);
    FaultsFirst(End, End, End);
    FaultsFirst(Begin, End, End);
    assert SplitOps(f, []) == f && Faults([]) == [];
    hide SplitOps, Faults;
    assert [] + [c] == [c];
  }

  lemma FaultsFirst(a: Op, b: Op, c: Op)
    ensures var m := (op: Op) => if op.Error? then [op.msg] else [];
      Faults([a]) == m(a) && Faults([a, b]) == m(a) + m(b) && Faults([a, b, c]) == m(a) + m(b) + m(c)
  {
    assert [a, b, c][1..] == [b, c] && [b, c][1..] == [c] && [a, b][1..] == [b] && [a][1..] == [] && [b][1..] == [] && [c][1..] == [];
    assert Faults([]) == [];
    assert Faults([c]) == (if c.Error? then [c.msg] else []) + [];
    assert Faults([b]) == (if b.Error? then [b.msg] else []) + [];
    assert Faults([a]) == (if a.Error? then [a.msg] else []) + [];
  }

  /** ... and those that report an error. */
  lemma FewFaults(f: Fields, c: byte, quote: byte)
    ensures SplitOps(f, [Error(UnexpectedQuote), Put(c)]) == f.(cur := f.cur + [c])
    ensures Faults([Error(UnexpectedQuote), Put(c)]) == [UnexpectedQuote]
    ensures SplitOps(f, [Error(UnexpectedCharacter), Put(quote), Put(c)]) == f.(cur := f.cur + [quote] + [c])
    ensures Faults([Error(UnexpectedCharacter), Put(quote), Put(c)]) == [UnexpectedCharacter]
    ensures SplitOps(f, [Error(MissingClosingQuote), End]) == f.(done := f.done + [f.cur])
    ensures Faults([Error(MissingClosingQuote), End]) == [MissingClosingQuote]
  {
    SplitFirst(f, Error(UnexpectedQuote), Put(c), End);
    SplitFirst(f, Error(UnexpectedCharacter), Put(quote), Put(c));
    SplitFirst(f, Error(MissingClosingQuote), End, End);
    FaultsFirst(Error(UnexpectedQuote), Put(c), End);
    FaultsFirst(Error(UnexpectedCharacter), Put(quote), Put(c));
    FaultsFirst(Error(MissingClosingQuote), End, End);
    hide SplitOps, Faults;
  }

  // ------------------------------------------------------------ reading the pieces

  /** Between quotes, the printed text is put into the field. */
  lemma {:induction false} ReadQuoted(delim: byte, quote: byte, f: Fields, text: bytes, tail: bytes)
    requires Distinct(delim, quote) && NUL !in text
    ensures Goes(delim, quote, InQuoted, f, Escape(quote, text) + tail, [], InQuoted, f.(cur := f.cur + text), tail)
    decreases |text|
  {
    hide Goes;
    if text == [] {
      assert Escape(quote, text) + tail == tail && f.cur + text == f.cur;
      Stays(delim, quote, InQuoted, f, tail);
    } else {
      var c, next := text[0], Escape(quote, text[1..]) + tail;
      var g := f.(cur := f.cur + [c]);
      assert g.cur + text[1..] == f.cur + text;
      assert Escape(quote, text) + tail == (if c == quote then [quote] + ([quote] + next) else [c] + next);
      OneQuoted(delim, quote, f, c, next);
      ReadQuoted(delim, quote, g, text[1..], tail);
      hide *;
      Then(delim, quote, InQuoted, f, Escape(quote, text) + tail, [], InQuoted, g, next, [], InQuoted, f.(cur := f.cur + text), tail);
    }
  }

  lemma OneQuoted(delim: byte, quote: byte, f: Fields, c: byte, next: bytes)
    requires Distinct(delim, quote) && c != NUL
    ensures Goes(delim, quote, InQuoted, f, if c == quote then [quote] + ([quote] + next) else [c] + next, [],
              InQuoted, f.(cur := f.cur + [c]), next)
  {
    Few(f, c);
    if c == quote {
      GoesOne(delim, quote, InQuoted, f, quote, [quote] + next);
      GoesOne(delim, quote, AfterQuote, f, quote, next);
      hide Goes, SplitOps, Faults;
      Then(delim, quote, InQuoted, f, [quote] + ([quote] + next), [], AfterQuote, f, [quote] + next, [],
        InQuoted, f.(cur := f.cur + [c]), next);
    } else {
      GoesOne(delim, quote, InQuoted, f, c, next);
    }
  }

  /** Without quotes around it, every character is put into the field, and every quote is complained of. */
  lemma {:induction false} ReadBare(delim: byte, quote: byte, f: Fields, text: bytes, tail: bytes)
    requires Distinct(delim, quote) && NoBreak(delim, text)
    ensures Goes(delim, quote, InUnquoted, f, text + tail, QuotesIn(quote, text), InUnquoted, f.(cur := f.cur + text), tail)
    decreases |text|
  {
    hide Goes;
    if text == [] {
      assert text + tail == tail && f.cur + text == f.cur;
      Stays(delim, quote, InUnquoted, f, tail);
    } else {
      var c, rest := text[0], text[1..];
      var g, first := f.(cur := f.cur + [c]), if c == quote then [UnexpectedQuote] else [];
      assert text + tail == [c] + (rest + tail) && g.cur + rest == f.cur + text;
      assert QuotesIn(quote, text) == first + QuotesIn(quote, rest);
      OneBare(delim, quote, f, c, rest + tail);
      ReadBare(delim, quote, g, rest, tail);
      hide *;
      Then(delim, quote, InUnquoted, f, text + tail, first, InUnquoted, g, rest + tail, QuotesIn(quote, rest),
        InUnquoted, f.(cur := f.cur + text), tail);
    }
  }

  lemma OneBare(delim: byte, quote: byte, f: Fields, c: byte, next: bytes)
    requires Distinct(delim, quote) && c != NUL && c != LF && c != delim
    ensures Goes(delim, quote, InUnquoted, f, [c] + next, if c == quote then [UnexpectedQuote] else [],
              InUnquoted, f.(cur := f.cur + [c]), next)
  {
    Few(f, c);
    FewFaults(f, c, quote);
    GoesOne(delim, quote, InUnquoted, f, c, next);
    hide Goes, SplitOps, Faults;
  }

  /** A field may begin in these states. */
  predicate Between(state: State) { state.BeforeField? || state.AfterDelim? }

  /** Where a piece leaves the machine. */
  function AfterPiece(state: State, p: Piece): State {
    match p
    case Bare(text) => if text == [] then state else InUnquoted
    case Quoted(_, after) => if after == [] then AfterQuote else InUnquoted
    case Unclosed(_) => InQuoted
  }

  /** What has been complained of when the piece is over, but not yet its end. */
  function FaultsWithin(quote: byte, p: Piece): seq<Message> { if p.Unclosed? then [] else FaultsOf(quote, p) }

  function Current(quote: byte, f: Fields, p: Piece): Fields {
    if p == Bare([]) then f else f.(cur := FieldOf(quote, p))
  }

  lemma ReadPiece(delim: byte, quote: byte, state: State, f: Fields, p: Piece, tail: bytes)
    requires Distinct(delim, quote) && Between(state) && Fits(delim, quote, p)
    ensures Goes(delim, quote, state, f, PrintPiece(quote, p) + tail, FaultsWithin(quote, p),
              AfterPiece(state, p), Current(quote, f, p), tail)
  {
    hide Goes, NoBreak, Escape, QuotesIn;
    match p
    case Bare(text) =>
      if text == [] {
        assert PrintPiece(quote, p) + tail == tail && FaultsWithin(quote, p) == [] by {
          assert QuotesIn(quote, []) == [] by {
            QuotesNone(quote, []);
          }
        }
        Stays(delim, quote, state, f, tail);
      } else {
        ReadBarePiece(delim, quote, state, f, text, tail);
      }
    case Quoted(text, after) => ReadQuotedPiece(delim, quote, state, f, text, after, tail);
    case Unclosed(text) =>
      ConcatAssoc([quote], Escape(quote, text), tail);
      OpenQuote(delim, quote, state, f, text, tail);
  }

  lemma ReadBarePiece(delim: byte, quote: byte, state: State, f: Fields, text: bytes, tail: bytes)
    requires Distinct(delim, quote) && Between(state) && Fits(delim, quote, Bare(text)) && text != []
    ensures Goes(delim, quote, state, f, text + tail, QuotesIn(quote, text), InUnquoted, f.(cur := text), tail)
  {
    var c, rest := text[0], text[1..];
    assert text + tail == [c] + (rest + tail) && [c] + rest == text && QuotesIn(quote, text) == [] + QuotesIn(quote, rest);
    BareBegins(delim, quote, state, f, c, rest + tail);
    hide Goes, Step;
    ReadBare(delim, quote, f.(cur := [c]), rest, tail);
    Then(delim, quote, state, f, text + tail, [], InUnquoted, f.(cur := [c]), rest + tail, QuotesIn(quote, rest),
      InUnquoted, f.(cur := text), tail);
  }

  lemma BareBegins(delim: byte, quote: byte, state: State, f: Fields, c: byte, next: bytes)
    requires Distinct(delim, quote) && Between(state) && c != NUL && c != LF && c != delim && c != quote
    ensures Goes(delim, quote, state, f, [c] + next, [], InUnquoted, f.(cur := [c]), next)
  {
    Few(f, c);
    GoesOne(delim, quote, state, f, c, next);
    hide Goes, SplitOps, Faults;
  }

  lemma QuoteBegins(delim: byte, quote: byte, state: State, f: Fields, next: bytes)
    requires Distinct(delim, quote) && Between(state)
    ensures Goes(delim, quote, state, f, [quote] + next, [], InQuoted, f.(cur := []), next)
  {
    Few(f, quote);
    GoesOne(delim, quote, state, f, quote, next);
    hide Goes, SplitOps, Faults;
  }

  lemma ClosingQuote(delim: byte, quote: byte, f: Fields, next: bytes)
    requires Distinct(delim, quote)
    ensures Goes(delim, quote, InQuoted, f, [quote] + next, [], AfterQuote, f, next)
  {
    Few(f, quote);
    GoesOne(delim, quote, InQuoted, f, quote, next);
    hide Goes, SplitOps, Faults;
  }

  lemma BehindQuote(delim: byte, quote: byte, f: Fields, c: byte, next: bytes)
    requires Distinct(delim, quote) && c != NUL && c != LF && c != delim && c != quote
    ensures Goes(delim, quote, AfterQuote, f, [c] + next, [UnexpectedCharacter], InUnquoted, f.(cur := f.cur + [quote] + [c]), next)
  {
    FewFaults(f, c, quote);
    GoesOne(delim, quote, AfterQuote, f, c, next);
    hide Goes, SplitOps, Faults;
  }

  lemma OpenQuote(delim: byte, quote: byte, state: State, f: Fields, text: bytes, tail: bytes)
    requires Distinct(delim, quote) && Between(state) && NUL !in text
    ensures Goes(delim, quote, state, f, [quote] + (Escape(quote, text) + tail), [], InQuoted, f.(cur := text), tail)
  {
    hide Goes, Escape;
    QuoteBegins(delim, quote, state, f, Escape(quote, text) + tail);
    ReadQuoted(delim, quote, f.(cur := []), text, tail);
    assert [] + text == text;
    Then(delim, quote, state, f, [quote] + (Escape(quote, text) + tail), [], InQuoted, f.(cur := []), Escape(quote, text) + tail,
      [], InQuoted, f.(cur := text), tail);
  }

  lemma ReadQuotedPiece(delim: byte, quote: byte, state: State, f: Fields, text: bytes, after: bytes, tail: bytes)
    requires Distinct(delim, quote) && Between(state) && Fits(delim, quote, Quoted(text, after))
    ensures var p := Quoted(text, after);
      Goes(delim, quote, state, f, PrintPiece(quote, p) + tail, FaultsOf(quote, p), AfterPiece(state, p), Current(quote, f, p), tail)
  {
    hide Goes, Escape, QuotesIn;
    var p, g, mid := Quoted(text, after), f.(cur := text), after + tail;
    var input := PrintPiece(quote, p) + tail;
    assert input == [quote] + (Escape(quote, text) + ([quote] + mid));
    OpenQuote(delim, quote, state, f, text, [quote] + mid);
    ClosingQuote(delim, quote, g, mid);
    Then(delim, quote, state, f, input, [], InQuoted, g, [quote] + mid, [], AfterQuote, g, mid);
    if after == [] {
      assert mid == tail;
    } else {
      assert FaultsOf(quote, p) == [] + FaultsOf(quote, p);
      ReadBehind(delim, quote, g, after, tail);
      Then(delim, quote, state, f, input, [], AfterQuote, g, mid, FaultsOf(quote, p), InUnquoted, Current(quote, f, p), tail);
    }
  }

  /** What is behind a closing quote joins the field, and the quote with it. */
  lemma ReadBehind(delim: byte, quote: byte, f: Fields, after: bytes, tail: bytes)
    requires Distinct(delim, quote) && NoBreak(delim, after) && after != [] && after[0] != quote
    ensures Goes(delim, quote, AfterQuote, f, after + tail, [UnexpectedCharacter] + QuotesIn(quote, after[1..]),
              InUnquoted, f.(cur := f.cur + [quote] + after), tail)
  {
    hide Goes, QuotesIn;
    var c, rest := after[0], after[1..];
    var g := f.(cur := f.cur + [quote] + [c]);
    assert after + tail == [c] + (rest + tail) && g.cur + rest == f.cur + [quote] + after;
    BehindQuote(delim, quote, f, c, rest + tail);
    ReadBare(delim, quote, g, rest, tail);
    Then(delim, quote, AfterQuote, f, after + tail, [UnexpectedCharacter], InUnquoted, g, rest + tail, QuotesIn(quote, rest),
      InUnquoted, f.(cur := f.cur + [quote] + after), tail);
  }

  /** A delimiter ends the piece before it. */
  lemma ReadDelim(delim: byte, quote: byte, state: State, f: Fields, p: Piece, tail: bytes)
    requires Distinct(delim, quote) && Between(state) && Fits(delim, quote, p) && !p.Unclosed?
    ensures Goes(delim, quote, state, f, PrintPiece(quote, p) + ([delim] + tail), FaultsOf(quote, p),
              AfterDelim, Fields(FieldOf(quote, p), f.done + [FieldOf(quote, p)]), tail)
  {
    hide Goes, PrintPiece, FaultsOf, Fits;
    var s, g, h := AfterPiece(state, p), Current(quote, f, p), Fields(FieldOf(quote, p), f.done + [FieldOf(quote, p)]);
    ReadPiece(delim, quote, state, f, p, [delim] + tail);
    DelimEnds(delim, quote, s, g, p == Bare([]), tail);
    assert FaultsOf(quote, p) + [] == FaultsOf(quote, p);
    Then(delim, quote, state, f, PrintPiece(quote, p) + ([delim] + tail), FaultsOf(quote, p), s, g, [delim] + tail, [],
      AfterDelim, h, tail);
  }

  lemma DelimEnds(delim: byte, quote: byte, s: State, f: Fields, none: bool, tail: bytes)
    requires Distinct(delim, quote) && !s.InQuoted? && !s.AfterField? && (none <==> Between(s))
    ensures var field := if none then [] else f.cur;
      Goes(delim, quote, s, f, [delim] + tail, [], AfterDelim, Fields(field, f.done + [field]), tail)
  {
    Few(f, delim);
    GoesOne(delim, quote, s, f, delim, tail);
    hide Goes, SplitOps, Faults;
  }

  /** The end of the record ends the last piece. */
  lemma ReadEnd(delim: byte, quote: byte, state: State, f: Fields, p: Piece, tail: bytes)
    requires Distinct(delim, quote) && Between(state) && Fits(delim, quote, p)
    requires AtEnd(tail) && (p.Unclosed? ==> tail == [] || tail[0] == NUL)
    ensures var r := Read(delim, quote, state, f, PrintPiece(quote, p) + tail);
      && r.1 == FaultsOf(quote, p)
      && r.0.done == if state.BeforeField? && p == Bare([]) then f.done else f.done + [FieldOf(quote, p)]
  {
    var s, g := AfterPiece(state, p), Current(quote, f, p);
    ReadPiece(delim, quote, state, f, p, tail);
    EndEnds(delim, quote, s, g, tail);
    hide Read, PrintPiece, Fits;
    assert FaultsWithin(quote, p) + [] == FaultsWithin(quote, p) && [] + FaultsOf(quote, p) == FaultsOf(quote, p);
    assert QuotesIn(quote, []) == [];
  }

  lemma EndEnds(delim: byte, quote: byte, s: State, f: Fields, tail: bytes)
    requires Distinct(delim, quote) && !s.AfterField? && AtEnd(tail) && (s.InQuoted? ==> tail == [] || tail[0] == NUL)
    ensures var r := Read(delim, quote, s, f, tail);
      && r.1 == (if s.InQuoted? then [MissingClosingQuote] else [])
      && r.0.done == if s.BeforeField? then f.done else f.done + [if s.AfterDelim? then [] else f.cur]
  {
    Few(f, LF);
    FewFaults(f, LF, quote);
    EndOps(delim, quote, s, tail);
    hide Ops, SplitOps, Faults;
  }

  lemma EndOps(delim: byte, quote: byte, s: State, tail: bytes)
    requires Distinct(delim, quote) && !s.AfterField? && AtEnd(tail) && (s.InQuoted? ==> tail == [] || tail[0] == NUL)
    ensures Ops(delim, quote, s, tail) == Final(s)
  {
    assert [End] + [] == [End] && [] + Final(s) == Final(s);
  }

  lemma {:induction false} ReadPieces(delim: byte, quote: byte, state: State, f: Fields, ps: seq<Piece>, tail: bytes)
    requires Distinct(delim, quote) && Between(state) && ps != [] && Made(delim, quote, ps, tail)
    ensures var r := Read(delim, quote, state, f, PrintPieces(delim, quote, ps) + tail);
      && r.1 == AllFaults(quote, ps)
      && r.0.done == if state.BeforeField? && ps == [Bare([])] then f.done else f.done + FieldsOf(quote, ps)
    decreases |ps|
  {
    hide Read, PrintPiece, Fits, FieldOf, FaultsOf;
    var p, field := ps[0], FieldOf(quote, ps[0]);
    if |ps| == 1 {
      assert ps == [p];
      hide PrintPieces, FieldsOf, AllFaults;
      OneAlone(delim, quote, p);
      ReadEnd(delim, quote, state, f, p, tail);
    } else {
      var rest := ps[1..];
      var next := PrintPieces(delim, quote, rest) + tail;
      PiecesRest(delim, quote, ps, tail);
      assert ps == [p] + rest && FieldsOf(quote, ps) == [field] + FieldsOf(quote, rest);
      assert AllFaults(quote, ps) == FaultsOf(quote, p) + AllFaults(quote, rest);
      hide Made, FieldsOf, AllFaults;
      PiecesCons(delim, quote, p, rest, tail);
      ReadDelim(delim, quote, state, f, p, next);
      ReadPieces(delim, quote, AfterDelim, Fields(field, f.done + [field]), rest, tail);
      ConcatAssoc(f.done, [field], FieldsOf(quote, rest));
    }
  }

  lemma PiecesRest(delim: byte, quote: byte, ps: seq<Piece>, tail: bytes)
    requires |ps| > 1 && Made(delim, quote, ps, tail)
    ensures Made(delim, quote, ps[1..], tail) && Fits(delim, quote, ps[0]) && !ps[0].Unclosed?
  {
    hide Fits;
    assert ps[1..][|ps| - 2] == ps[|ps| - 1];
    assert forall i :: 0 <= i < |ps| - 1 ==> ps[1..][i] == ps[i + 1];
  }

  lemma OneAlone(delim: byte, quote: byte, p: Piece)
    ensures PrintPieces(delim, quote, [p]) == PrintPiece(quote, p)
    ensures FieldsOf(quote, [p]) == [FieldOf(quote, p)] && AllFaults(quote, [p]) == FaultsOf(quote, p)
  {
    assert [p][1..] == [] && FaultsOf(quote, p) + [] == FaultsOf(quote, p);
    assert FieldsOf(quote, []) == [] && AllFaults(quote, []) == [];
  }

  /** On every input, put together from such pieces: the fields are what they stand for, and the complaints theirs;
      a record of nothing at all has no field. */
  lemma SplitOfPieces(delim: byte, quote: byte, ps: seq<Piece>, tail: bytes)
    requires Distinct(delim, quote) && Made(delim, quote, ps, tail)
    ensures var input := PrintPieces(delim, quote, ps) + tail;
      && Split(delim, quote, input) == (if ps == [Bare([])] then [] else FieldsOf(quote, ps))
      && Faults(Ops(delim, quote, BeforeField, input)) == AllFaults(quote, ps)
  {
    if ps == [] {
      assert PrintPieces(delim, quote, ps) + tail == tail;
      assert Ops(delim, quote, BeforeField, tail) == [];
    } else {
      ReadPieces(delim, quote, BeforeField, Fields([], []), ps, tail);
      assert [] + FieldsOf(quote, ps) == FieldsOf(quote, ps);
    }
  }

  // ------------------------------------------------------------ every input is made of pieces

  /** Up to a delimiter, or the end. */
  lemma {:induction false} Span(delim: byte, input: bytes) returns (text: bytes, rest: bytes)
    ensures input == text + rest && NoBreak(delim, text) && (AtEnd(rest) || rest[0] == delim)
    decreases |input|
  {
    if AtEnd(input) || input[0] == delim {
      text, rest := [], input;
    } else {
      text, rest := Span(delim, input[1..]);
      assert input == [input[0]] + text + rest;
      text := [input[0]] + text;
    }
  }

  /** Up to the closing quote, or the end of the string. */
  lemma {:induction false} QuotedSpan(quote: byte, input: bytes) returns (text: bytes, closed: bool, rest: bytes)
    requires quote != NUL
    ensures input == Escape(quote, text) + ((if closed then [quote] else []) + rest) && NUL !in text
    ensures if closed then rest == [] || rest[0] != quote else rest == [] || rest[0] == NUL
    decreases |input|
  {
    if input == [] || input[0] == NUL {
      text, closed, rest := [], false, input;
      assert Escape(quote, []) == [] && [] + ([] + rest) == rest;
    } else if input[0] == quote && (|input| == 1 || input[1] != quote) {
      text, closed, rest := [], true, input[1..];
      assert Escape(quote, []) == [] && [] + ([quote] + rest) == input;
    } else {
      var c, used := input[0], if input[0] == quote then 2 else 1;
      text, closed, rest := QuotedSpan(quote, input[used..]);
      EscapeCons(quote, c, text);
      assert input == (if c == quote then [quote, quote] else [c]) + input[used..];
      hide Escape;
      ConcatAssoc(if c == quote then [quote, quote] else [c], Escape(quote, text), (if closed then [quote] else []) + rest);
      text := [c] + text;
    }
  }

  lemma EscapeCons(quote: byte, c: byte, text: bytes)
    ensures Escape(quote, [c] + text) == (if c == quote then [quote, quote] else [c]) + Escape(quote, text)
  {
    assert ([c] + text)[1..] == text;
  }

  lemma OnePiece(delim: byte, quote: byte, input: bytes) returns (p: Piece, rest: bytes)
    requires Distinct(delim, quote)
    ensures input == PrintPiece(quote, p) + rest && Fits(delim, quote, p)
    ensures if p.Unclosed? then rest == [] || rest[0] == NUL else AtEnd(rest) || rest[0] == delim
    ensures |rest| <= |input|
  {
    if input != [] && input[0] == quote {
      p, rest := OneQuotedPiece(delim, quote, input);
    } else {
      var text;
      text, rest := Span(delim, input);
      p := Bare(text);
    }
  }

  lemma OneQuotedPiece(delim: byte, quote: byte, input: bytes) returns (p: Piece, rest: bytes)
    requires Distinct(delim, quote) && input != [] && input[0] == quote
    ensures input == PrintPiece(quote, p) + rest && Fits(delim, quote, p)
    ensures if p.Unclosed? then rest == [] || rest[0] == NUL else AtEnd(rest) || rest[0] == delim
  {
    hide Escape, NoBreak;
    var text, closed, more := QuotedSpan(quote, input[1..]);
    assert input == [quote] + input[1..];
    if !closed {
      p, rest := Unclosed(text), more;
      assert Escape(quote, text) + ([] + rest) == Escape(quote, text) + rest;
      ConcatAssoc([quote], Escape(quote, text), rest);
    } else {
      var after;
      after, rest := Span(delim, more);
      p := Quoted(text, after);
      FourParts([quote], Escape(quote, text), after, rest);
    }
  }

  lemma FourParts(q: bytes, e: bytes, after: bytes, rest: bytes)
    ensures q + (e + (q + (after + rest))) == q + e + q + after + rest
  {}

  /** One piece at least. */
  lemma {:induction false} Pieces(delim: byte, quote: byte, input: bytes) returns (ps: seq<Piece>, tail: bytes)
    requires Distinct(delim, quote)
    ensures ps != [] && Made(delim, quote, ps, tail) && input == PrintPieces(delim, quote, ps) + tail
    ensures ps == [Bare([])] ==> AtEnd(input)
    decreases |input|
  {
    hide PrintPiece, Fits, PrintPieces, Made;
    var p, rest := OnePiece(delim, quote, input);
    if !AtEnd(rest) && !p.Unclosed? {
      var more;
      more, tail := Pieces(delim, quote, rest[1..]);
      ps := [p] + more;
      assert rest == [delim] + rest[1..];
      PiecesCons(delim, quote, p, more, tail);
    } else {
      ps, tail := [p], rest;
      BareNothing(quote, rest);
      PiecesOne(delim, quote, p, tail);
    }
  }

  lemma PiecesOne(delim: byte, quote: byte, p: Piece, tail: bytes)
    requires Fits(delim, quote, p) && if p.Unclosed? then tail == [] || tail[0] == NUL else AtEnd(tail)
    ensures Made(delim, quote, [p], tail) && PrintPieces(delim, quote, [p]) == PrintPiece(quote, p)
  {
    hide Fits, PrintPiece;
  }

  lemma PiecesCons(delim: byte, quote: byte, p: Piece, ps: seq<Piece>, tail: bytes)
    requires Fits(delim, quote, p) && !p.Unclosed? && ps != [] && Made(delim, quote, ps, tail)
    ensures Made(delim, quote, [p] + ps, tail)
    ensures PrintPieces(delim, quote, [p] + ps) + tail == PrintPiece(quote, p) + ([delim] + (PrintPieces(delim, quote, ps) + tail))
  {
    hide Fits, PrintPiece;
    var all := [p] + ps;
    assert all[1..] == ps && all[|all| - 1] == ps[|ps| - 1];
    assert forall i :: 0 < i < |all| ==> all[i] == ps[i - 1];
    assert PrintPieces(delim, quote, all) == PrintPiece(quote, p) + [delim] + PrintPieces(delim, quote, ps);
  }

  lemma BareNothing(quote: byte, rest: bytes)
    ensures PrintPiece(quote, Bare([])) + rest == rest
  {}

  /** Every input is made of pieces; that of one empty piece is the record without a field. */
  lemma EveryInput(delim: byte, quote: byte, input: bytes) returns (ps: seq<Piece>, tail: bytes)
    requires Distinct(delim, quote)
    ensures Made(delim, quote, ps, tail) && input == PrintPieces(delim, quote, ps) + tail && ps != [Bare([])]
  {
    ps, tail := Pieces(delim, quote, input);
    if ps == [Bare([])] {
      ps, tail := [], input;
      assert input == PrintPieces(delim, quote, []) + input;
    }
  }

  // ------------------------------------------------------------ printed cells

  ghost function PiecesOf(cells: seq<Cell>): (ps: seq<Piece>)
    ensures |ps| == |cells|
    ensures forall i :: 0 <= i < |ps| ==> ps[i] == if cells[i].quoted then Quoted(cells[i].text, []) else Bare(cells[i].text)
  {
    if cells == [] then []
    else [if cells[0].quoted then Quoted(cells[0].text, []) else Bare(cells[0].text)] + PiecesOf(cells[1..])
  }

  lemma {:induction false} QuotesNone(quote: byte, text: bytes)
    ensures QuotesIn(quote, text) == [] <==> quote !in text
    decreases |text|
  {
    if text != [] {
      QuotesNone(quote, text[1..]);
    }
  }

  /** A printed record is made of pieces, none of which is complained of. */
  lemma {:induction false} PrintIsPieces(delim: byte, quote: byte, cells: seq<Cell>)
    requires forall i :: 0 <= i < |cells| ==> Printable(delim, quote, cells[i])
    ensures var ps := PiecesOf(cells);
      && PrintPieces(delim, quote, ps) == Print(delim, quote, cells)
      && FieldsOf(quote, ps) == Texts(cells) && AllFaults(quote, ps) == []
      && forall i :: 0 <= i < |ps| ==> Fits(delim, quote, ps[i]) && !ps[i].Unclosed?
    decreases |cells|
  {
    if cells != [] {
      assert Printable(delim, quote, cells[0]);
      PrintIsPieces(delim, quote, cells[1..]);
      QuotesNone(quote, cells[0].text);
      assert PiecesOf(cells)[1..] == PiecesOf(cells[1..]);
      assert PrintPiece(quote, PiecesOf(cells)[0]) == PrintCell(quote, cells[0]);
    }
  }

  /** Splitting what was printed gives the fields back, and reports no error: for every choice of
      which fields are quoted, whatever they contain, and whatever follows the end of the record. */
  lemma SplitOfPrint(delim: byte, quote: byte, cells: seq<Cell>, tail: bytes)
    requires Distinct(delim, quote) && Writable(delim, quote, cells) && AtEnd(tail)
    ensures Split(delim, quote, Print(delim, quote, cells) + tail) == Texts(cells)
    ensures NoError(Ops(delim, quote, BeforeField, Print(delim, quote, cells) + tail))
  {
    var ps := PiecesOf(cells);
    PrintIsPieces(delim, quote, cells);
    assert ps == [Bare([])] ==> cells == [Cell(false, [])];
    hide Print, PrintPieces, FieldsOf, Fits, PiecesOf, Texts, Split, Ops, Faults, AllFaults;
    SplitOfPieces(delim, quote, ps, tail);
    NoErrorIsNoFault(Ops(delim, quote, BeforeField, Print(delim, quote, cells) + tail));
  }

  /** Pieces that nothing is complained of are printed cells. */
  lemma {:induction false} FaultlessPieces(delim: byte, quote: byte, ps: seq<Piece>) returns (cells: seq<Cell>)
    requires AllFaults(quote, ps) == [] && forall i :: 0 <= i < |ps| ==> Fits(delim, quote, ps[i])
    ensures PiecesOf(cells) == ps && forall i :: 0 <= i < |cells| ==> Printable(delim, quote, cells[i])
    decreases |ps|
  {
    if ps == [] {
      cells := [];
    } else {
      assert [ps[0]] + ps[1..] == ps;
      var first := FaultlessPiece(delim, quote, ps[0], ps[1..]);
      assert forall i :: 0 <= i < |ps| - 1 ==> ps[1..][i] == ps[i + 1];
      hide AllFaults, Printable, Fits;
      var rest := FaultlessPieces(delim, quote, ps[1..]);
      cells := [first] + rest;
      assert cells[1..] == rest && ps == [ps[0]] + ps[1..];
    }
  }

  lemma FaultlessPiece(delim: byte, quote: byte, p: Piece, rest: seq<Piece>) returns (cell: Cell)
    requires Fits(delim, quote, p) && AllFaults(quote, [p] + rest) == []
    ensures Printable(delim, quote, cell) && p == (if cell.quoted then Quoted(cell.text, []) else Bare(cell.text))
    ensures AllFaults(quote, rest) == []
  {
    assert ([p] + rest)[1..] == rest;
    assert FaultsOf(quote, p) == [] && AllFaults(quote, rest) == [];
    QuotesNone(quote, p.text);
    cell := Cell(p.Quoted?, p.text);
  }

  /** The input starts with a printed record. */
  ghost predicate IsRecord(delim: byte, quote: byte, input: bytes, cells: seq<Cell>, tail: bytes) {
    Writable(delim, quote, cells) && AtEnd(tail) && input == Print(delim, quote, cells) + tail
  }

  /** The parser reports no error on exactly the inputs that start with a printed record. */
  lemma NoErrorIffPrinted(delim: byte, quote: byte, input: bytes)
    requires Distinct(delim, quote)
    ensures NoError(Ops(delim, quote, BeforeField, input)) <==>
      exists cells, tail :: IsRecord(delim, quote, input, cells, tail)
  {
    hide Ops, Print, NoError, Texts, PrintPieces, PiecesOf;
    if NoError(Ops(delim, quote, BeforeField, input)) {
      var ps, tail := EveryInput(delim, quote, input);
      SplitOfPieces(delim, quote, ps, tail);
      NoErrorIsNoFault(Ops(delim, quote, BeforeField, input));
      var cells := FaultlessPieces(delim, quote, ps);
      PrintIsPieces(delim, quote, cells);
      assert cells == [Cell(false, [])] ==> ps == [Bare([])];
      assert IsRecord(delim, quote, input, cells, tail);
    } else if exists cells, tail :: IsRecord(delim, quote, input, cells, tail) {
      var cells, tail :| IsRecord(delim, quote, input, cells, tail);
      SplitOfPrint(delim, quote, cells, tail);
    }
  }
}
