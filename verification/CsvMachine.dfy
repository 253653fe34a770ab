/** csv_parse with its three back ends: csv_parser.c, csv_split.c, csv_convert.c, csv_input.c.
    The function pointers of a csv_parser are a choice among the three. */
module CsvMachine {
  import opened Common
  import opened CsvParser
  import opened CsvFormat
  import opened CsvStream
  import opened CsvBuffers
  import opened CsvWidths

  // ------------------------------------------------------------ csv_split.c

  /** The awk array of the fields: the first at index 1. */
  function ArrayOf(done: seq<bytes>): (m: map<nat, bytes>)
    ensures forall k :: k in m <==> 1 <= k <= |done|
    ensures forall k :: 1 <= k <= |done| ==> m[k] == done[k - 1]
  {
    if done == [] then map[] else ArrayOf(done[..|done| - 1])[|done| := done[|done| - 1]]
  }

  lemma {:induction false} UpToNulIs(text: bytes, rest: bytes)
    requires NUL !in text && (rest == [] || rest[0] == NUL)
    ensures UpToNul(text + rest) == text
  {
    if text == [] {
      assert text + rest == rest;
    } else {
      assert (text + rest)[1..] == text[1..] + rest;
      UpToNulIs(text[1..], rest);
    }
  }

  class Splitter {
    const record: bytes
    var pos: nat
    const sbuf: StrBuf
    var fieldcount: nat
    var oaf: map<nat, bytes>
    ghost var log: seq<Op>      // the callbacks so far
    ghost var heard: bytes      // the characters handed out so far
    ghost var ended: bool       // the NUL was handed out

    ghost predicate Valid()
      reads this, sbuf, sbuf.str
    {
      var f := SplitOps(Fields([], []), log);
      && sbuf.Valid() && sbuf.Contents() == f.cur
      && fieldcount == |f.done| && oaf == ArrayOf(f.done)
      && (if ended then heard == UpToNul(record) else pos <= |record| && heard == record[..pos] && NUL !in heard)
    }

    /** csv_split_record, before it parses: the array has just been cleared. */
    constructor (record: bytes)
      ensures Valid() && log == [] && heard == [] && !ended && this.record == record && fresh(sbuf) && fresh(sbuf.str)
    {
      this.record, pos, fieldcount, oaf := record, 0, 0, map[];
      sbuf := new StrBuf();
      log, heard, ended := [], [], false;
    }

    method NextChar() returns (c: byte)
      requires Valid() && !ended
      modifies this`pos, this`heard, this`ended
      ensures Valid() && ended == (c == NUL) && heard == old(heard) + (if c == NUL then [] else [c])
    {
      hide SplitOps;
      c := if pos < |record| then record[pos] else NUL;
      if c == NUL {
        ended := true;
        UpToNulIs(record[..pos], record[pos..]);
        assert record == record[..pos] + record[pos..];
      } else {
        assert record[..pos + 1] == record[..pos] + [c];
        heard := heard + [c];
      }
      pos := pos + 1;
    }

    method BeginField()
      requires Valid()
      modifies this`log, sbuf`length
      ensures Valid() && log == old(log) + [Begin]
    {
      SplitLogged(Fields([], []), log, Begin);
      hide SplitOps;
      sbuf.Start();
      log := log + [Begin];
    }

    method EndField()
      requires Valid()
      modifies this`log, this`fieldcount, this`oaf
      ensures Valid() && log == old(log) + [End]
    {
      SplitLogged(Fields([], []), log, End);
      hide SplitOps;
      fieldcount := fieldcount + 1;
      oaf := oaf[fieldcount := sbuf.str[..sbuf.length]];
      ghost var f := SplitOps(Fields([], []), log);
      assert (f.done + [f.cur])[..|f.done|] == f.done;
      log := log + [End];
    }

    method PutChar(c: byte)
      requires Valid()
      modifies this`log, sbuf, sbuf.str
      ensures Valid() && log == old(log) + [Put(c)] && (sbuf.str == old(sbuf.str) || fresh(sbuf.str))
    {
      SplitLogged(Fields([], []), log, Put(c));
      hide SplitOps;
      sbuf.PutChar(c);
      log := log + [Put(c)];
    }

    method Report(msg: Message)
      requires Valid()
      modifies this`log
      ensures Valid() && log == old(log) + [Error(msg)]
    {
      SplitLogged(Fields([], []), log, Error(msg));
      hide SplitOps;
      log := log + [Error(msg)];
    }
  }

  lemma SplitLogged(f: Fields, log: seq<Op>, op: Op)
    ensures SplitOps(f, log + [op]) == SplitOp(SplitOps(f, log), op)
  {
    SplitOpsAppend(f, log, [op]);
    assert [op][1..] == [];
  }

  // ------------------------------------------------------------ csv_convert.c

  /** The separator begin_field writes: a single NUL when the given one is empty. */
  function Separator(ofs: bytes): bytes
    requires ofs != []
  {
    if ofs[0] == NUL then [NUL] else CString(ofs)
  }

  /** The memory holds a C string. */
  ghost predicate IsCString(s: bytes) { s != [] && (s[0] != NUL ==> NUL in s[1..]) }

  class Converter {
    const record: bytes
    var pos: nat
    const sbuf: StrBuf
    var fieldcount: nat
    const ofs: bytes
    ghost var log: seq<Op>
    ghost var heard: bytes
    ghost var ended: bool

    ghost predicate Valid()
      reads this, sbuf, sbuf.str
    {
      && IsCString(ofs)
      && var t := JoinOps(Separator(ofs), Text([], 0), log);
      && sbuf.Valid() && sbuf.Contents() == t.out && fieldcount == t.count
      && (if ended then heard == UpToNul(record) else pos <= |record| && heard == record[..pos] && NUL !in heard)
    }

    constructor (record: bytes, ofs: bytes)
      requires IsCString(ofs)
      ensures Valid() && log == [] && heard == [] && !ended && this.record == record && this.ofs == ofs
      ensures fresh(sbuf) && fresh(sbuf.str)
    {
      this.record, this.ofs, pos, fieldcount := record, ofs, 0, 0;
      sbuf := new StrBuf();
      log, heard, ended := [], [], false;
    }

    method NextChar() returns (c: byte)
      requires Valid() && !ended
      modifies this`pos, this`heard, this`ended
      ensures Valid() && ended == (c == NUL) && heard == old(heard) + (if c == NUL then [] else [c])
    {
      hide JoinOps, Separator;
      c := if pos < |record| then record[pos] else NUL;
      if c == NUL {
        ended := true;
        UpToNulIs(record[..pos], record[pos..]);
        assert record == record[..pos] + record[pos..];
      } else {
        assert record[..pos + 1] == record[..pos] + [c];
        heard := heard + [c];
      }
      pos := pos + 1;
    }

    /** begin_field, or begin_field0 when the separator is empty. */
    method BeginField()
      requires Valid()
      modifies this`log, sbuf, sbuf.str
      ensures Valid() && log == old(log) + [Begin] && (sbuf.str == old(sbuf.str) || fresh(sbuf.str))
    {
      JoinLogged(Separator(ofs), log, Begin);
      hide JoinOps;
      if fieldcount > 0 {
        if ofs[0] == NUL {
          sbuf.PutChar(NUL);
        } else {
          sbuf.PutString(ofs);
        }
      }
      log := log + [Begin];
    }

    method EndField()
      requires Valid()
      modifies this`log, this`fieldcount
      ensures Valid() && log == old(log) + [End]
    {
      JoinLogged(Separator(ofs), log, End);
      hide JoinOps, Separator;
      fieldcount := fieldcount + 1;
      log := log + [End];
    }

    method PutChar(c: byte)
      requires Valid()
      modifies this`log, sbuf, sbuf.str
      ensures Valid() && log == old(log) + [Put(c)] && (sbuf.str == old(sbuf.str) || fresh(sbuf.str))
    {
      JoinLogged(Separator(ofs), log, Put(c));
      hide JoinOps, Separator;
      sbuf.PutChar(c);
      log := log + [Put(c)];
    }

    method Report(msg: Message)
      requires Valid()
      modifies this`log
      ensures Valid() && log == old(log) + [Error(msg)]
    {
      JoinLogged(Separator(ofs), log, Error(msg));
      hide JoinOps, Separator;
      log := log + [Error(msg)];
    }
  }

  lemma JoinLogged(sep: bytes, log: seq<Op>, op: Op)
    ensures JoinOps(sep, Text([], 0), log + [op]) == JoinOp(sep, JoinOps(sep, Text([], 0), log), op)
  {
    JoinOpsAppend(sep, Text([], 0), log, [op]);
    assert [op][1..] == [];
  }

  // ------------------------------------------------------------ csv_input.c

  /** What is read when the next byte ends the record: passed on, terminator, left. */
  datatype Stop = Stop(record: bytes, rt: bytes, rest: bytes)

  function StopAt(inside: bool, tail: bytes): Stop {
    if tail == [] then Stop([], [], [])
    else if !inside && (tail[0] == CR || tail[0] == LF) then
      Stop([], Terminator(tail), tail[|Terminator(tail)|..])
    else Stop([tail[0]], [], tail[1..])
  }

  /** The next byte ends the record. */
  predicate Stops(inside: bool, tail: bytes) {
    tail == [] || tail[0] == NUL || (!inside && (tail[0] == CR || tail[0] == LF))
  }

  class Reader {
    const stream: bytes     // the file
    var fpos: nat           // how much of it has been read
    var afterCr: int        // the character after a CR, pending; -1 = none
    const delim: byte       // the parser's delim_char and quote_char
    const quote: byte
    const signed: bool      // plain char is signed
    const seen: int := PlainChar(quote, signed)     // csv_quote, a plain char
    var inside: bool
    var rt: bytes
    const input: StrBuf     // csv_record
    const awk: StrBuf       // awk_record
    const info: FieldInfo
    const fs: bytes         // the memory at csv_fs
    const fsLen: nat
    var fieldcount: nat
    var skip: nat
    var len: nat
    ghost var start: bytes  // what was left when the record began
    ghost var history: bytes // the records read before, with their terminators
    ghost var log: seq<Op>
    ghost var heard: bytes
    ghost var ended: bool

    ghost function Rest(): bytes
      reads this`afterCr, this`fpos
      requires fpos <= |stream| && -1 <= afterCr < 256
    {
      (if afterCr >= 0 then [afterCr as byte] else []) + stream[fpos..]
    }

    /** The bytes taken from the file are those passed on, those of the terminator, and the pending one. */
    ghost predicate ValidIn()
      reads this`fpos, this`afterCr, this`inside, this`rt, this`start, this`heard, this`ended, input, input.str
    {
      && input.Valid() && fpos <= |stream| && -1 <= afterCr < 256
      && NUL !in heard && Unbroken(seen, false, heard)
      && (if ended then Finished(start, heard, input.Contents(), rt, Rest(), InsideAfter(seen, false, heard))
          else
            inside == InsideAfter(seen, false, heard) && start == heard + Rest() && rt == [] && input.Contents() == heard)
    }

    /** The record and the field positions built so far. */
    ghost predicate ValidOut()
      reads this`fieldcount, this`skip, this`len, this`log, awk, awk.str, info, info.fields
    {
      && fs != [] && NUL in fs[1..] && awk.Valid() && info.Valid()
      && awk.Contents() == JoinOps(CString(fs), Text([], 0), log).out
      && Tape(skip, len, fieldcount, info.Contents()) == TapeOps(fsLen, Tape(0, 0, 0, []), log)
      && fieldcount == JoinOps(CString(fs), Text([], 0), log).count
    }

    ghost predicate Valid()
      reads this, input, input.str, awk, awk.str, info, info.fields
    {
      ValidIn() && ValidOut() && input != awk && input.str != awk.str
    }

    ghost predicate Quiet()
      reads this`fpos, this`afterCr, input, awk, info
    {
      && fpos <= |stream| && -1 <= afterCr < 256 && fs != [] && NUL in fs[1..]
      && input.Valid() && awk.Valid() && info.Valid() && input != awk && input.str != awk.str
    }

    /** Between two calls of csv_read: the records read so far, with their terminators, and what is
        left, a pending byte first, make up the file. */
    ghost predicate Between()
      reads this`fpos, this`afterCr, this`history, input, awk, info
    {
      Quiet() && stream == history + Rest()
    }

    /** csv_reader_init. */
    constructor (stream: bytes, delim: byte, quote: byte, signed: bool, fs: bytes, fsLen: nat)
      requires fs != [] && NUL in fs[1..]
      ensures Between() && Rest() == stream && history == []
      ensures fresh(input) && fresh(input.str) && fresh(awk) && fresh(awk.str) && fresh(info) && fresh(info.fields)
      ensures this.stream == stream && this.fs == fs && this.fsLen == fsLen
      ensures this.delim == delim && this.quote == quote && this.signed == signed
    {
      this.stream, this.fs, this.fsLen, this.delim, this.quote, this.signed := stream, fs, fsLen, delim, quote, signed;
      fpos, afterCr, inside, rt := 0, -1, false, [];
      fieldcount, skip, len := 0, 0, 0;
      input := new StrBuf();
      awk := new StrBuf();
      info := new FieldInfo();
      start, history, log, heard, ended := stream, [], [], [], false;
    }

    /** csv_read, before it parses: the input side, and the output side. */
    method BeginInput()
      requires Between()
      modifies this`rt, this`inside, this`start, this`heard, this`ended, input`length
      ensures ValidIn() && start == Rest() == old(Rest()) && heard == [] && !ended
    {
      hide StopAt, this.Rest;
      input.Start();
      rt, inside := [], false;
      start, heard, ended := Rest(), [], false;
    }

    method BeginOutput()
      requires fs != [] && NUL in fs[1..] && awk.Valid() && info.Valid()
      modifies this`fieldcount, this`skip, this`len, this`log, awk`length, info`nf
      ensures ValidOut() && log == []
    {
      hide CString;
      awk.Start();
      info.Start();
      fieldcount, skip, len := 0, 0, 0;
      log := [];
    }

    /** A previous character, or a new one; -1 at the end of the file. */
    method TakeByte() returns (c: int)
      requires fpos <= |stream| && -1 <= afterCr < 256
      modifies this`fpos, this`afterCr
      ensures fpos <= |stream| && afterCr == -1 && -1 <= c < 256
      ensures c == -1 <==> old(Rest()) == []
      ensures c >= 0 ==> old(Rest()) == [c as byte] + Rest()
      ensures c == -1 ==> Rest() == []
    {
      if afterCr >= 0 {
        c := afterCr;
        afterCr := -1;
      } else if fpos < |stream| {
        c := stream[fpos];
        fpos := fpos + 1;
      } else {
        c := -1;
      }
    }

    /** The record ends with c; after a CR, one more byte is looked at. */
    method TakeTerminator(c: byte)
      requires fpos <= |stream| && afterCr == -1 && rt == [] && (c == CR || c == LF)
      modifies this`fpos, this`afterCr, this`rt
      ensures fpos <= |stream| && -1 <= afterCr < 256
      ensures var tail := [c] + old(Rest());
        rt == Terminator(tail) && Rest() == tail[|rt|..]
    {
      ghost var left := stream[fpos..];
      assert Rest() == left;
      if c == CR && fpos < |stream| {
        var d := stream[fpos];
        assert left == [d] + stream[fpos + 1..];
        LookedAt(d, stream[fpos + 1..]);
        if d == LF {
          rt, fpos := rt + [c] + [d], fpos + 1;
          assert Rest() == stream[fpos..];
        } else {
          rt, fpos, afterCr := rt + [c], fpos + 1, d as int;
          assert Rest() == [d] + stream[fpos..];
        }
      } else {
        NotLookedAt(c, left);
        rt := rt + [c];
        assert Rest() == left;
      }
    }

    /** Note the character in the record and in the quote tracker. */
    method Pass(c: byte)
      requires fpos <= |stream| && -1 <= afterCr < 256 && rt == [] && !ended
      requires input.Valid() && input.Contents() == heard && NUL !in heard && Unbroken(seen, false, heard)
      requires inside == InsideAfter(seen, false, heard) && (inside || (c != CR && c != LF))
      requires start == heard + ([c] + Rest())
      modifies this`inside, this`heard, this`ended, input, input.str
      ensures ValidIn() && (input.str == old(input.str) || fresh(input.str))
      ensures ended == (c == NUL) && heard == old(heard) + (if c == NUL then [] else [c])
    {
      hide StopAt, Stops, Finished, Terminator, Unbroken, InsideAfter, this.Rest;
      PassedOn(seen, heard, c, Rest());
      FinishedNul(heard, Rest(), inside);
      if c == seen {
        inside := !inside;
      }
      input.PutChar(c);
      if c == NUL {
        ended := true;
      } else {
        heard := heard + [c];
      }
    }

    /** next_char. */
    method NextChar() returns (c: byte)
      requires ValidIn() && !ended
      modifies this`fpos, this`afterCr, this`inside, this`rt, this`heard, this`ended, input, input.str
      ensures ValidIn() && (input.str == old(input.str) || fresh(input.str))
      ensures ended == (c == NUL) && heard == old(heard) + (if c == NUL then [] else [c])
    {
      hide StopAt, Stops, Finished, Terminator, Unbroken, InsideAfter, this.Rest;
      ghost var tail := Rest();
      var b := TakeByte();
      if b == -1 {
        ended := true;
        FinishedEnd(start, heard, inside);
        return NUL;
      }
      c := b as byte;
      if !inside && (c == CR || c == LF) {
        TakeTerminator(c);
        ended := true;
        FinishedLine(heard, tail);
        return NUL;
      }
      Pass(c);
    }

    method BeginField()
      requires ValidOut()
      modifies this`log, this`skip, this`len, awk, awk.str
      ensures ValidOut() && log == old(log) + [Begin] && (awk.str == old(awk.str) || fresh(awk.str))
    {
      ReaderLogged(CString(fs), fsLen, log, Begin);
      hide JoinOps, TapeOps, CString;
      if fieldcount > 0 {
        awk.PutString(fs);
        skip := fsLen;
      }
      len := 0;
      log := log + [Begin];
    }

    method EndField()
      requires ValidOut()
      modifies this`log, this`fieldcount, this`skip, this`len, info, info.fields
      ensures ValidOut() && log == old(log) + [End] && (info.fields == old(info.fields) || fresh(info.fields))
    {
      ReaderLogged(CString(fs), fsLen, log, End);
      hide JoinOps, TapeOps, CString;
      fieldcount := fieldcount + 1;
      info.Add(skip, len);
      skip, len := 0, 0;
      log := log + [End];
    }

    method PutChar(c: byte)
      requires ValidOut()
      modifies this`log, this`len, awk, awk.str
      ensures ValidOut() && log == old(log) + [Put(c)] && (awk.str == old(awk.str) || fresh(awk.str))
    {
      ReaderLogged(CString(fs), fsLen, log, Put(c));
      hide JoinOps, TapeOps, CString;
      awk.PutChar(c);
      len := len + 1;
      log := log + [Put(c)];
    }

    /** error: the record so far is shown as a C string. */
    method Report(msg: Message)
      requires input.Valid() && ValidOut() && input.str != awk.str
      modifies this`log, input.str
      ensures input.Valid() && input.Contents() == old(input.Contents()) && ValidOut() && log == old(log) + [Error(msg)]
    {
      ReaderLogged(CString(fs), fsLen, log, Error(msg));
      hide JoinOps, TapeOps, CString;
      var textline := input.Value();
      log := log + [Error(msg)];
    }
  }

  lemma ReaderLogged(sep: bytes, fsLen: nat, log: seq<Op>, op: Op)
    ensures JoinOps(sep, Text([], 0), log + [op]) == JoinOp(sep, JoinOps(sep, Text([], 0), log), op)
    ensures TapeOps(fsLen, Tape(0, 0, 0, []), log + [op]) == TapeOp(fsLen, TapeOps(fsLen, Tape(0, 0, 0, []), log), op)
  {
    JoinLogged(sep, log, op);
    TapeOpsAppend(fsLen, Tape(0, 0, 0, []), log, [op]);
    assert [op][1..] == [];
  }

  /** The state after the character that ended the record. */
  ghost predicate Finished(start: bytes, heard: bytes, record: bytes, rt: bytes, rest: bytes, inside: bool) {
    && heard <= start && heard <= record
    && Stops(inside, start[|heard|..])
    && Stop(record[|heard|..], rt, rest) == StopAt(inside, start[|heard|..])
  }

  /** The terminator that starts with a CR before d, and what is left of it. */
  lemma LookedAt(d: byte, rest: bytes)
    ensures var tail := [CR] + ([d] + rest);
      Terminator(tail) == (if d == LF then [CR] + [d] else [CR])
      && tail[|Terminator(tail)|..] == if d == LF then rest else [d] + rest
  {
    assert ([CR] + ([d] + rest))[2..] == rest;
  }

  lemma NotLookedAt(c: byte, left: bytes)
    requires c != CR || left == []
    ensures Terminator([c] + left) == [c] && ([c] + left)[1..] == left
  {}

  lemma FinishedEnd(start: bytes, heard: bytes, inside: bool)
    requires start == heard + []
    ensures Finished(start, heard, heard, [], [], inside)
  {}

  lemma FinishedLine(heard: bytes, tail: bytes)
    requires tail != [] && (tail[0] == CR || tail[0] == LF)
    ensures Finished(heard + tail, heard, heard, Terminator(tail), tail[|Terminator(tail)|..], false)
  {
    assert (heard + tail)[|heard|..] == tail;
  }

  lemma FinishedNul(heard: bytes, rest: bytes, inside: bool)
    ensures Finished(heard + ([NUL] + rest), heard, heard + [NUL], [], rest, inside)
  {
    var tail := [NUL] + rest;
    assert (heard + tail)[|heard|..] == tail && (heard + [NUL])[|heard|..] == [NUL];
    assert tail[0] == NUL && tail[1..] == rest;
    assert StopAt(inside, tail) == Stop([NUL], [], rest);
  }

  lemma PassedOn(quote: int, text: bytes, c: byte, rest: bytes)
    requires Unbroken(quote, false, text) && (InsideAfter(quote, false, text) || (c != CR && c != LF))
    requires NUL !in text
    ensures c != NUL ==> NUL !in text + [c]
    ensures text + ([c] + rest) == text + [c] + rest
    ensures Unbroken(quote, false, text + [c])
    ensures InsideAfter(quote, false, text + [c]) == (InsideAfter(quote, false, text) != (c == quote))
  {
    UnbrokenAppend(quote, false, text, [c]);
    var inside := InsideAfter(quote, false, text);
    assert [c][1..] == [] && Unbroken(quote, inside != (c == quote), []);
    assert Unbroken(quote, inside, [c]);
  }
}
