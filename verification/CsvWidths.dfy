/** The field positions csv_read records (csv/csv_input.c), against the record it delivers. */
module CsvWidths {
  import opened Common
  import opened CsvParser
  import opened CsvBuffers

  /** field_skip, field_len, fieldcount and the recorded widths. */
  datatype Tape = Tape(skip: nat, len: nat, count: nat, widths: seq<Width>)

  function TapeOp(fsLen: nat, t: Tape, op: Op): Tape {
    match op
    case Begin => t.(skip := if t.count > 0 then fsLen else t.skip, len := 0)
    case Put(_) => t.(len := t.len + 1)
    case End => Tape(0, 0, t.count + 1, t.widths + [Width(t.skip, t.len)])
    case Error(_) => t
  }

  ghost function TapeOps(fsLen: nat, t: Tape, ops: seq<Op>): Tape
    decreases |ops|
  {
    if ops == [] then t else TapeOps(fsLen, TapeOp(fsLen, t, ops[0]), ops[1..])
  }

  lemma {:induction false} TapeOpsAppend(fsLen: nat, t: Tape, xs: seq<Op>, ys: seq<Op>)
    ensures TapeOps(fsLen, t, xs + ys) == TapeOps(fsLen, TapeOps(fsLen, t, xs), ys)
    decreases |xs|
  {
    if xs == [] {
      assert xs + ys == ys;
    } else {
      assert (xs + ys)[1..] == xs[1..] + ys;
      TapeOpsAppend(fsLen, TapeOp(fsLen, t, xs[0]), xs[1..], ys);
    }
  }

  /** The widths of these fields, when every field but the first is preceded by fsLen bytes. */
  ghost function WidthsOf(fsLen: nat, fields: seq<bytes>): (ws: seq<Width>)
    ensures |ws| == |fields|
  {
    if fields == [] then []
    else
      var n := |fields| - 1;
      WidthsOf(fsLen, fields[..n]) + [Width(if n == 0 then 0 else fsLen, |fields[n]|)]
  }

  /** The tape says what the fields completed so far, and the open one, say. */
  ghost predicate Taped(fsLen: nat, open: bool, f: Fields, t: Tape) {
    && t.count == |f.done| && t.widths == WidthsOf(fsLen, f.done)
    && t.skip == (if open && t.count > 0 then fsLen else 0)
    && (open ==> t.len == |f.cur|)
  }

  lemma TapeStep(fsLen: nat, open: bool, f: Fields, t: Tape, op: Op)
    requires Taped(fsLen, open, f, t) && (op.Begin? ==> !open) && (op.End? || op.Put? ==> open)
    ensures Taped(fsLen, if op.Begin? then true else if op.End? then false else open, SplitOp(f, op), TapeOp(fsLen, t, op))
  {
    match op
    case Begin =>
    case Put(_) =>
    case Error(_) =>
    case End => WidthsSnoc(fsLen, f.done, f.cur);
  }

  lemma WidthsSnoc(fsLen: nat, fields: seq<bytes>, field: bytes)
    ensures WidthsOf(fsLen, fields + [field]) ==
      WidthsOf(fsLen, fields) + [Width(if fields == [] then 0 else fsLen, |field|)]
  {
    assert (fields + [field])[..|fields|] == fields;
  }

  lemma {:induction false} TapeOpsIsWidths(fsLen: nat, open: bool, f: Fields, t: Tape, ops: seq<Op>)
    requires Alternate(open, ops) && Taped(fsLen, open, f, t)
    ensures TapeOps(fsLen, t, ops).widths == WidthsOf(fsLen, SplitOps(f, ops).done)
    decreases |ops|
  {
    if ops != [] {
      var op := ops[0];
      var open' := if op.Begin? then true else if op.End? then false else open;
      TapeStep(fsLen, open, f, t, op);
      hide TapeOp, SplitOp, Taped;
      TapeOpsIsWidths(fsLen, open', SplitOp(f, op), TapeOp(fsLen, t, op), ops[1..]);
    }
  }

  /** The widths recorded for an input are those of its fields. */
  lemma TapeOfInput(delim: byte, quote: byte, fsLen: nat, input: bytes)
    ensures TapeOps(fsLen, Tape(0, 0, 0, []), Ops(delim, quote, BeforeField, input)).widths ==
            WidthsOf(fsLen, Split(delim, quote, input))
  {
    OpsAlternate(delim, quote, BeforeField, input);
    TapeOpsIsWidths(fsLen, false, Fields([], []), Tape(0, 0, 0, []), Ops(delim, quote, BeforeField, input));
  }

  ghost function Total(ws: seq<Width>): nat {
    if ws == [] then 0 else Total(ws[..|ws| - 1]) + ws[|ws| - 1].skip + ws[|ws| - 1].len
  }

  /** What gawk takes as the fields of a record: after each skip, so many bytes. */
  ghost function Slices(record: bytes, ws: seq<Width>): seq<bytes>
    requires Total(ws) <= |record|
    decreases |ws|
  {
    if ws == [] then []
    else
      var n := |ws| - 1;
      Slices(record, ws[..n]) + [Piece(record, Total(ws[..n]) + ws[n].skip, ws[n].len)]
  }

  function Piece(record: bytes, start: nat, len: nat): bytes
    requires start + len <= |record|
  {
    record[start..start + len]
  }

  ghost function Bytes(fields: seq<bytes>): nat {
    if fields == [] then 0 else Bytes(fields[..|fields| - 1]) + |fields[|fields| - 1]|
  }

  ghost function Gaps(fields: seq<bytes>): nat { if fields == [] then 0 else |fields| - 1 }

  lemma {:induction false} TotalOfWidths(fsLen: nat, fields: seq<bytes>)
    ensures Total(WidthsOf(fsLen, fields)) == Bytes(fields) + Gaps(fields) * fsLen
    decreases |fields|
  {
    if fields != [] {
      var n := |fields| - 1;
      var ws, front := WidthsOf(fsLen, fields), WidthsOf(fsLen, fields[..n]);
      var w := Width(if n == 0 then 0 else fsLen, |fields[n]|);
      TotalOfWidths(fsLen, fields[..n]);
      assert ws == front + [w];
      hide WidthsOf;
      TotalSnoc(ws);
      assert ws[..n] == front && ws[n] == w;
      assert Bytes(fields) == Bytes(fields[..n]) + |fields[n]|;
      hide Total, Bytes;
      if n > 0 {
        OneMore(n, fsLen);
      }
    }
  }

  lemma {:induction false} LengthOfJoin(sep: bytes, fields: seq<bytes>)
    ensures |Join(sep, fields)| == Bytes(fields) + Gaps(fields) * |sep|
    decreases |fields|
  {
    if fields != [] {
      var n := |fields| - 1;
      LengthOfJoin(sep, fields[..n]);
      assert Bytes(fields) == Bytes(fields[..n]) + |fields[n]|;
      if n == 0 {
        assert fields[..0] == [] && Bytes([]) == 0;
      } else {
        assert |Join(sep, fields)| == |Join(sep, fields[..n])| + |sep| + |fields[n]|;
        hide Join, Bytes;
        OneMore(n, |sep|);
      }
    }
  }

  lemma OneMore(n: nat, k: nat)
    ensures n > 0 ==> (n - 1) * k + k == n * k
  {}

  lemma {:induction false} SlicesOfLonger(record: bytes, more: bytes, ws: seq<Width>)
    requires Total(ws) <= |record|
    ensures Slices(record + more, ws) == Slices(record, ws)
    decreases |ws|
  {
    if ws != [] {
      var n := |ws| - 1;
      SlicesOfLonger(record, more, ws[..n]);
      var start := Total(ws[..n]) + ws[n].skip;
      assert Piece(record + more, start, ws[n].len) == Piece(record, start, ws[n].len);
    }
  }

  lemma {:induction false} SlicesOfJoin(sep: bytes, fields: seq<bytes>)
    ensures Total(WidthsOf(|sep|, fields)) == |Join(sep, fields)|
    ensures Slices(Join(sep, fields), WidthsOf(|sep|, fields)) == fields
    decreases |fields|
  {
    SameTotal(sep, fields);
    SlicesOfNone(sep);
    hide *;
    if fields != [] {
      var n := |fields| - 1;
      SlicesOfJoin(sep, fields[..n]);
      LastSlice(sep, fields);
      assert fields == fields[..n] + [fields[n]];
    }
  }

  lemma SameTotal(sep: bytes, fields: seq<bytes>)
    ensures Total(WidthsOf(|sep|, fields)) == |Join(sep, fields)|
  {
    hide *;
    TotalOfWidths(|sep|, fields);
    LengthOfJoin(sep, fields);
  }

  lemma SlicesOfNone(sep: bytes)
    ensures Total(WidthsOf(|sep|, [])) == 0 && Slices(Join(sep, []), WidthsOf(|sep|, [])) == []
  {
    assert WidthsOf(|sep|, []) == [] && Total([]) == 0;
  }

  lemma LastSlice(sep: bytes, fields: seq<bytes>)
    requires fields != [] && Total(WidthsOf(|sep|, fields)) == |Join(sep, fields)|
    requires var front := fields[..|fields| - 1];
      Total(WidthsOf(|sep|, front)) == |Join(sep, front)| && Slices(Join(sep, front), WidthsOf(|sep|, front)) == front
    ensures Slices(Join(sep, fields), WidthsOf(|sep|, fields)) == fields[..|fields| - 1] + [fields[|fields| - 1]]
  {
    var n := |fields| - 1;
    var front, last := fields[..n], fields[n];
    var ws, record := WidthsOf(|sep|, fields), Join(sep, front);
    var gap := if n == 0 then [] else sep;
    JoinWidthsSnoc(sep, fields);
    hide *;
    assert ws[..n] == WidthsOf(|sep|, front);
    SliceSnoc(record, gap, last, ws);
  }

  lemma JoinWidthsSnoc(sep: bytes, fields: seq<bytes>)
    requires fields != []
    ensures var n := |fields| - 1;
      var gap, ws := if n == 0 then [] else sep, WidthsOf(|sep|, fields);
      && ws == WidthsOf(|sep|, fields[..n]) + [Width(|gap|, |fields[n]|)]
      && Join(sep, fields) == Join(sep, fields[..n]) + (gap + fields[n])
  {
    if |fields| == 1 {
      assert fields[..0] == [];
    }
  }

  lemma SliceSnoc(record: bytes, gap: bytes, last: bytes, ws: seq<Width>)
    requires ws != [] && ws[|ws| - 1] == Width(|gap|, |last|) && Total(ws[..|ws| - 1]) == |record|
    ensures Total(ws) == |record + (gap + last)|
    ensures Slices(record + (gap + last), ws) == Slices(record, ws[..|ws| - 1]) + [last]
  {
    var n, all := |ws| - 1, record + (gap + last);
    TotalSnoc(ws);
    hide Total;
    assert Slices(all, ws) == Slices(all, ws[..n]) + [Piece(all, |record| + |gap|, |last|)];
    hide Slices;
    SlicesOfLonger(record, gap + last, ws[..n]);
    Middle(record, gap, last);
  }

  lemma TotalSnoc(ws: seq<Width>)
    requires ws != []
    ensures Total(ws) == Total(ws[..|ws| - 1]) + ws[|ws| - 1].skip + ws[|ws| - 1].len
  {}

  lemma Middle(a: bytes, b: bytes, c: bytes)
    ensures Piece(a + (b + c), |a| + |b|, |c|) == c
  {}

  /** Slicing the delivered record by the recorded widths gives the fields and covers the record,
      exactly when the separator written is as long as the one counted, or there is at most one field. */
  lemma WidthsFitIff(sep: bytes, fsLen: nat, fields: seq<bytes>)
    ensures var ws := WidthsOf(fsLen, fields);
      var record := Join(sep, fields);
      (Total(ws) == |record| && Slices(record, ws) == fields) <==> (|fields| <= 1 || fsLen == |sep|)
  {
    TotalOfWidths(fsLen, fields);
    LengthOfJoin(sep, fields);
    if |fields| <= 1 {
      SlicesOfJoin(sep, fields);
      SameWidths(sep, fsLen, fields);
    } else if fsLen == |sep| {
      SlicesOfJoin(sep, fields);
    } else {
      Different(Gaps(fields), fsLen, |sep|);
    }
  }

  lemma Different(n: nat, a: nat, b: nat)
    requires n > 0 && a != b
    ensures n * a != n * b
  {
    if a < b {
      assert n * (b - a) > 0;
    } else {
      assert n * (a - b) > 0;
    }
  }

  lemma SameWidths(sep: bytes, fsLen: nat, fields: seq<bytes>)
    requires |fields| <= 1
    ensures WidthsOf(fsLen, fields) == WidthsOf(|sep|, fields)
  {
    if |fields| == 1 {
      assert fields[..0] == [];
    }
  }

  /** For an empty CSVFS one NUL is written and nothing counted: the positions do not fit two fields. */
  lemma EmptyFsMisfit()
    ensures CString([NUL, NUL]) == [NUL]
    ensures var fields: seq<bytes> := [[97], [98]];
      var record, ws := Join(CString([NUL, NUL]), fields), WidthsOf(0, fields);
      record == [97, NUL, 98] && ws == [Width(0, 1), Width(0, 1)]
      && !(Total(ws) == |record| && Slices(record, ws) == fields)
  {
    var fields: seq<bytes> := [[97], [98]];
    assert UpToNul([NUL]) == [] && [NUL, NUL][1..] == [NUL];
    WidthsFitIff([NUL], 0, fields);
    hide Total, Slices;
    assert fields[..1] == [[97]];
    assert WidthsOf(0, fields[..1]) == [Width(0, 1)];
  }
}
