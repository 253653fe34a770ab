/** The repository's own CSV printer (csv/awklib/csv/csv.awk), and exactly when its reader gives
    back what it wrote. The quote is taken to be a character that stands for itself in a regular
    expression, as the default one does. */
module CsvAwk {
  import opened Common
  import opened CsvParser
  import opened CsvFormat
  import opened CsvStream

  predicate NeedsQuotes(delim: byte, quote: byte, text: bytes) { delim in text || quote in text || LF in text }

  /** How csvquote writes a field. */
  function CellOf(delim: byte, quote: byte, text: bytes): Cell { Cell(NeedsQuotes(delim, quote, text), text) }

  function CellsOf(delim: byte, quote: byte, fields: seq<bytes>): (cells: seq<Cell>)
    ensures |cells| == |fields|
    ensures forall i :: 0 <= i < |fields| ==> cells[i] == CellOf(delim, quote, fields[i])
  {
    if fields == [] then [] else [CellOf(delim, quote, fields[0])] + CellsOf(delim, quote, fields[1..])
  }

  method CsvQuote(str: bytes, delim: byte, quote: byte) returns (r: bytes)
    ensures r == PrintCell(quote, CellOf(delim, quote, str))
  {
    r := str;
    if delim in str || quote in str || LF in str {
      var doubled := Escape(quote, str);    // gsub(quote, quote quote, str)
      r := [quote] + doubled + [quote];
    }
  }

  lemma {:induction false} PrintSnoc(delim: byte, quote: byte, cells: seq<Cell>, cell: Cell)
    ensures Print(delim, quote, cells + [cell]) ==
            (if cells == [] then [] else Print(delim, quote, cells) + [delim]) + PrintCell(quote, cell)
    decreases |cells|
  {
    if cells == [] {
      assert cells + [cell] == [cell];
    } else {
      assert (cells + [cell])[1..] == cells[1..] + [cell];
      PrintSnoc(delim, quote, cells[1..], cell);
      if |cells| == 1 {
        assert cells == [cells[0]];
      }
    }
  }

  /** The fields af[1], af[2], ..., as many as there are here. */
  ghost predicate Taken(af: map<nat, bytes>, fields: seq<bytes>) {
    forall k {:trigger k in af} :: 1 <= k <= |fields| ==> k in af && af[k] == fields[k - 1]
  }

  lemma TakenSnoc(af: map<nat, bytes>, fields: seq<bytes>)
    requires Taken(af, fields) && |fields| + 1 in af
    ensures Taken(af, fields + [af[|fields| + 1]])
  {}

  /** ... up to the first index that is missing. */
  ghost predicate Listed(af: map<nat, bytes>, fields: seq<bytes>) { Taken(af, fields) && |fields| + 1 !in af }

  lemma ListedUnique(af: map<nat, bytes>, xs: seq<bytes>, ys: seq<bytes>)
    requires Listed(af, xs) && Listed(af, ys)
    ensures xs == ys
  {
    assert |xs| + 1 in af ==> |xs| + 1 > |ys|;
    assert |ys| + 1 in af ==> |ys| + 1 > |xs|;
    assert |xs| == |ys|;
    forall i | 0 <= i < |xs| ensures xs[i] == ys[i] {
      assert i + 1 in af;
    }
  }

  lemma PrintField(delim: byte, quote: byte, fields: seq<bytes>, field: bytes)
    ensures Print(delim, quote, CellsOf(delim, quote, fields + [field])) ==
      Print(delim, quote, CellsOf(delim, quote, fields)) + (if fields == [] then [] else [delim])
      + PrintCell(quote, CellOf(delim, quote, field))
  {
    var cells, next := CellsOf(delim, quote, fields), CellOf(delim, quote, field);
    assert CellsOf(delim, quote, fields + [field]) == cells + [next];
    PrintSnoc(delim, quote, cells, next);
    hide PrintCell, CellOf, CellsOf;
    if fields == [] {
      assert cells == [] && Print(delim, quote, cells) == [];
    }
  }

  method CsvCompose(af: map<nat, bytes>, delim: byte, quote: byte) returns (record: bytes)
    ensures forall fields :: Listed(af, fields) ==> record == Print(delim, quote, CellsOf(delim, quote, fields))
    ensures exists fields :: Listed(af, fields)
  {
    record := [];
    ghost var fields: seq<bytes> := [];
    assert Print(delim, quote, CellsOf(delim, quote, [])) == [] && Taken(af, []);
    hide Print, PrintCell, CellsOf, CellOf, Taken;
    var sep: bytes := [];
    var k := 1;
    ghost var left := af.Keys;
    while k in af
      invariant k == |fields| + 1 && sep == (if fields == [] then [] else [delim]) && Taken(af, fields)
      invariant record == Print(delim, quote, CellsOf(delim, quote, fields))
      invariant forall i :: i in af && i >= k ==> i in left
      decreases left
    {
      var cell := CsvQuote(af[k], delim, quote);
      PrintField(delim, quote, fields, af[k]);
      TakenSnoc(af, fields);
      record := record + sep + cell;
      sep := [delim];
      fields := fields + [af[k]];
      left := left - {k};
      k := k + 1;
    }
    assert Listed(af, fields);
    forall others | Listed(af, others) ensures others == fields {
      ListedUnique(af, others, fields);
    }
  }

  // ------------------------------------------------------------ exactly when it is read back

  lemma {:induction false} TextsOfCells(delim: byte, quote: byte, fields: seq<bytes>)
    ensures Texts(CellsOf(delim, quote, fields)) == fields
    decreases |fields|
  {
    if fields != [] {
      TextsOfCells(delim, quote, fields[1..]);
      assert CellsOf(delim, quote, fields)[1..] == CellsOf(delim, quote, fields[1..]);
    }
  }

  /** csvsplit undoes csvcompose on every list of fields but the single empty field. */
  lemma ComposeSplitsIff(delim: byte, quote: byte, fields: seq<bytes>)
    requires Distinct(delim, quote) && forall i :: 0 <= i < |fields| ==> NUL !in fields[i]
    ensures Split(delim, quote, Print(delim, quote, CellsOf(delim, quote, fields))) == fields <==> fields != [[]]
  {
    var cells := CellsOf(delim, quote, fields);
    var text := Print(delim, quote, cells);
    TextsOfCells(delim, quote, fields);
    if fields == [[]] {
      assert cells == [Cell(false, [])] && text == [];
      assert Ops(delim, quote, BeforeField, text) == [];
    } else {
      assert Texts([Cell(false, [])]) == [[]];
      SplitOfPrint(delim, quote, cells, []);
      assert text + [] == text;
    }
  }

  /** A field with a CR, and without anything for which csvquote would quote it. */
  ghost predicate BareCR(delim: byte, quote: byte, text: bytes) {
    CR in text && delim !in text && quote !in text && LF !in text
  }

  lemma {:induction false} FirstCR(text: bytes) returns (i: nat)
    requires CR in text
    ensures i < |text| && text[i] == CR && CR !in text[..i]
    decreases |text|
  {
    if text[0] == CR {
      i := 0;
    } else {
      i := FirstCR(text[1..]);
      i := i + 1;
      assert text[..i] == [text[0]] + text[1..][..i - 1];
    }
  }

  lemma {:induction false} FirstBare(delim: byte, quote: byte, fields: seq<bytes>) returns (k: nat)
    requires exists i :: 0 <= i < |fields| && BareCR(delim, quote, fields[i])
    ensures k < |fields| && BareCR(delim, quote, fields[k])
    ensures forall i :: 0 <= i < k ==> !BareCR(delim, quote, fields[i])
    decreases |fields|
  {
    if BareCR(delim, quote, fields[0]) {
      k := 0;
    } else {
      var i :| 0 <= i < |fields| && BareCR(delim, quote, fields[i]);
      assert fields[1..][i - 1] == fields[i];
      k := FirstBare(delim, quote, fields[1..]);
      k := k + 1;
    }
  }

  lemma PrintFirst(delim: byte, quote: byte, cells: seq<Cell>)
    requires |cells| > 1
    ensures Print(delim, quote, cells) == PrintCell(quote, cells[0]) + [delim] + Print(delim, quote, cells[1..])
  {}

  /** The text of a list of cells goes on from that of any shorter one. */
  lemma {:induction false} PrintCut(delim: byte, quote: byte, cells: seq<Cell>, k: nat, n: nat) returns (after: bytes)
    requires k < |cells| && !cells[k].quoted && n <= |cells[k].text|
    ensures Print(delim, quote, cells) ==
            Print(delim, quote, cells[..k] + [Cell(false, cells[k].text[..n])]) + cells[k].text[n..] + after
    decreases k
  {
    var cut := cells[..k] + [Cell(false, cells[k].text[..n])];
    var left := cells[k].text[n..];
    if k == 0 {
      assert cut == [Cell(false, cells[0].text[..n])];
      assert cells[0].text == cells[0].text[..n] + left;
      after := if |cells| == 1 then [] else [delim] + Print(delim, quote, cells[1..]);
      ConcatAssoc(cells[0].text, [delim], if |cells| == 1 then [] else Print(delim, quote, cells[1..]));
    } else {
      after := PrintCut(delim, quote, cells[1..], k - 1, n);
      assert cut[1..] == cells[1..][..k - 1] + [Cell(false, cells[k].text[..n])];
      PrintFirst(delim, quote, cells);
      PrintFirst(delim, quote, cut);
      hide Print, PrintCell;
      var first := PrintCell(quote, cells[0]) + [delim];
      ConcatAssoc(first, Print(delim, quote, cut[1..]), left);
      ConcatAssoc(first, Print(delim, quote, cut[1..]) + left, after);
    }
  }

  /** The fields csv_read finds in a line written by csvcompose and ended by LF are those written exactly when
      they are not the single empty field and no field holds a bare CR. What the caller then makes of no field
      at all is another matter: see CsvLines. */
  lemma ComposeReadsIff(delim: byte, quote: byte, fields: seq<bytes>, rest: bytes)
    requires Distinct(delim, quote) && quote != CR && delim != CR
    requires forall i :: 0 <= i < |fields| ==> NUL !in fields[i]
    ensures var line := Print(delim, quote, CellsOf(delim, quote, fields)) + ([LF] + rest);
      var g := ReadRecord(delim, quote, quote, BeforeField, false, line);
      (SplitOps(Fields([], []), g.ops).done == fields && g.rest == rest) <==>
      (fields != [[]] && forall i :: 0 <= i < |fields| ==> !BareCR(delim, quote, fields[i]))
  {
    hide ReadRecord, Print, SplitOps, BareCR, Texts;
    if fields == [[]] {
      EmptyFieldLost(delim, quote, rest);
    } else if exists i :: 0 <= i < |fields| && BareCR(delim, quote, fields[i]) {
      var k := FirstBare(delim, quote, fields);
      var n := BareCRCuts(delim, quote, fields, k, rest);
      assert (fields[..k] + [fields[k][..n]])[k] != fields[k];
    } else {
      ComposeReads(delim, quote, fields, rest);
    }
  }

  lemma EmptyFieldLost(delim: byte, quote: byte, rest: bytes)
    ensures var line := Print(delim, quote, CellsOf(delim, quote, [[]])) + ([LF] + rest);
      SplitOps(Fields([], []), ReadRecord(delim, quote, quote, BeforeField, false, line).ops).done == []
  {
    var cells := CellsOf(delim, quote, [[]]);
    assert cells == [Cell(false, [])];
    assert Print(delim, quote, cells) + ([LF] + rest) == [LF] + rest;
  }

  lemma ComposeReads(delim: byte, quote: byte, fields: seq<bytes>, rest: bytes)
    requires Distinct(delim, quote) && quote != CR && delim != CR && fields != [[]]
    requires forall i :: 0 <= i < |fields| ==> NUL !in fields[i] && !BareCR(delim, quote, fields[i])
    ensures var line := Print(delim, quote, CellsOf(delim, quote, fields)) + ([LF] + rest);
      var g := ReadRecord(delim, quote, quote, BeforeField, false, line);
      SplitOps(Fields([], []), g.ops).done == fields && g.rest == rest
  {
    hide ReadRecord, Print, SplitOps;
    var cells := CellsOf(delim, quote, fields);
    assert Texts([Cell(false, [])]) == [[]];
    TextsOfCells(delim, quote, fields);
    ReadOfPrint(delim, quote, cells, [LF] + rest);
  }

  /** The first bare CR ends the record, in the middle of its field; a record cut to nothing has no field. */
  lemma BareCRCuts(delim: byte, quote: byte, fields: seq<bytes>, k: nat, rest: bytes) returns (n: nat)
    requires Distinct(delim, quote) && quote != CR && delim != CR
    requires forall i :: 0 <= i < |fields| ==> NUL !in fields[i]
    requires k < |fields| && BareCR(delim, quote, fields[k])
    requires forall i :: 0 <= i < k ==> !BareCR(delim, quote, fields[i])
    ensures n < |fields[k]|
    ensures var line := Print(delim, quote, CellsOf(delim, quote, fields)) + ([LF] + rest);
      SplitOps(Fields([], []), ReadRecord(delim, quote, quote, BeforeField, false, line).ops).done ==
      if k == 0 && n == 0 then [] else fields[..k] + [fields[k][..n]]
  {
    n := FirstCR(fields[k]);
    var cells := CellsOf(delim, quote, fields);
    var cut := cells[..k] + [Cell(false, fields[k][..n])];
    assert !cells[k].quoted && cells[k].text == fields[k];
    CutPrintable(delim, quote, fields, k, n);
    hide *;
    var tail := LineCut(delim, quote, cells, k, n, [LF] + rest);
    CutTexts(delim, quote, fields, k, n);
    CutRead(delim, quote, cut, tail);
  }

  lemma CutPrintable(delim: byte, quote: byte, fields: seq<bytes>, k: nat, n: nat)
    requires forall i :: 0 <= i < |fields| ==> NUL !in fields[i]
    requires k < |fields| && !NeedsQuotes(delim, quote, fields[k]) && n <= |fields[k]| && CR !in fields[k][..n]
    requires forall i :: 0 <= i < k ==> !BareCR(delim, quote, fields[i])
    ensures var cut := CellsOf(delim, quote, fields)[..k] + [Cell(false, fields[k][..n])];
      (forall i :: 0 <= i < |cut| ==> Printable(delim, quote, cut[i])) && Streamable(cut)
  {
    var cells, last := CellsOf(delim, quote, fields), Cell(false, fields[k][..n]);
    var cut := cells[..k] + [last];
    forall i | 0 <= i < |cut| ensures Printable(delim, quote, cut[i]) && (!cut[i].quoted ==> CR !in cut[i].text) {
      if i < k {
        assert cut[i] == CellOf(delim, quote, fields[i]) && !BareCR(delim, quote, fields[i]);
      } else {
        assert cut[i] == last && forall c :: c in last.text ==> c in fields[k];
      }
    }
  }

  /** The line, as what comes before the CR and what comes from it on. */
  lemma LineCut(delim: byte, quote: byte, cells: seq<Cell>, k: nat, n: nat, rest: bytes) returns (tail: bytes)
    requires k < |cells| && !cells[k].quoted && n < |cells[k].text|
    ensures tail != [] && tail[0] == cells[k].text[n]
    ensures Print(delim, quote, cells) + rest == Print(delim, quote, cells[..k] + [Cell(false, cells[k].text[..n])]) + tail
  {
    hide Print;
    var text, left := Print(delim, quote, cells[..k] + [Cell(false, cells[k].text[..n])]), cells[k].text[n..];
    var after := PrintCut(delim, quote, cells, k, n);
    ConcatAssoc(text, left, after);
    ConcatAssoc(text, left + after, rest);
    tail := left + after + rest;
  }

  lemma CutTexts(delim: byte, quote: byte, fields: seq<bytes>, k: nat, n: nat)
    requires k < |fields| && n <= |fields[k]|
    ensures var cut := CellsOf(delim, quote, fields)[..k] + [Cell(false, fields[k][..n])];
      Texts(cut) == fields[..k] + [fields[k][..n]] && (cut == [Cell(false, [])] <==> k == 0 && n == 0)
  {
    var front, last := CellsOf(delim, quote, fields)[..k], Cell(false, fields[k][..n]);
    assert front == CellsOf(delim, quote, fields[..k]);
    TextsOfCells(delim, quote, fields[..k]);
    TextsSnoc(front, last);
    assert k == 0 ==> front + [last] == [last];
    assert k > 0 ==> |front + [last]| > 1;
  }

  /** What is read when the record is cut off by a CR. */
  lemma CutRead(delim: byte, quote: byte, cut: seq<Cell>, tail: bytes)
    requires Distinct(delim, quote) && quote != CR && delim != CR && tail != [] && tail[0] == CR
    requires forall i :: 0 <= i < |cut| ==> Printable(delim, quote, cut[i])
    requires Streamable(cut)
    ensures var r := SplitOps(Fields([], []),
        ReadRecord(delim, quote, quote, BeforeField, false, Print(delim, quote, cut) + tail).ops).done;
      r == if cut == [Cell(false, [])] then [] else Texts(cut)
  {
    if cut == [Cell(false, [])] {
      NothingBeforeCR(delim, quote, cut, tail);
    } else {
      hide ReadRecord, Print, SplitOps, Printable;
      ReadOfPrint(delim, quote, cut, tail);
    }
  }

  lemma NothingBeforeCR(delim: byte, quote: byte, cut: seq<Cell>, tail: bytes)
    requires cut == [Cell(false, [])] && tail != [] && tail[0] == CR
    ensures SplitOps(Fields([], []), ReadRecord(delim, quote, quote, BeforeField, false, Print(delim, quote, cut) + tail).ops).done == []
  {
    assert Print(delim, quote, cut) + tail == tail;
  }

  lemma {:induction false} TextsSnoc(cells: seq<Cell>, cell: Cell)
    ensures Texts(cells + [cell]) == Texts(cells) + [cell.text]
    decreases |cells|
  {
    if cells == [] {
      assert cells + [cell] == [cell] && [cell][1..] == [];
    } else {
      assert (cells + [cell])[1..] == cells[1..] + [cell];
      TextsSnoc(cells[1..], cell);
    }
  }
}
