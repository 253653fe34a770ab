/** The six-state CSV machine (csv/csv_parser.c), as the list of callbacks it makes, and what the
    back ends make of them. */
module CsvParser {
  import opened Common

  datatype State = BeforeField | InQuoted | AfterQuote | InUnquoted | AfterField | AfterDelim

  datatype Message = UnexpectedCharacter | UnexpectedQuote | MissingClosingQuote

  /** A callback the parser makes. */
  datatype Op = Begin | End | Put(c: byte) | Error(msg: Message)

  /** What one character does; stop means that the parser asks for no more. */
  datatype Move = Move(next: State, ops: seq<Op>, stop: bool)

  function Step(delim: byte, quote: byte, state: State, c: byte): Move {
    match state
    case BeforeField | AfterDelim =>
      if c == delim then Move(AfterDelim, [Begin, End], false)
      else if c == LF then Move(state, [], true)
      else if c == quote then Move(InQuoted, [Begin], false)
      else Move(InUnquoted, [Begin, Put(c)], false)
    case InQuoted =>
      if c == quote then Move(AfterQuote, [], false) else Move(InQuoted, [Put(c)], false)
    case AfterQuote =>
      if c == quote then Move(InQuoted, [Put(c)], false)
      else if c == delim then Move(AfterDelim, [End], false)
      else if c == LF then Move(AfterField, [End], true)
      else Move(InUnquoted, [Error(UnexpectedCharacter), Put(quote), Put(c)], false)
    case InUnquoted =>
      if c == delim then Move(AfterDelim, [End], false)
      else if c == LF then Move(AfterField, [End], true)
      else if c == quote then Move(InUnquoted, [Error(UnexpectedQuote), Put(c)], false)
      else Move(InUnquoted, [Put(c)], false)
    case AfterField => Move(AfterField, [], false)
  }

  /** Finalize the record. */
  function Final(state: State): seq<Op> {
    match state
    case BeforeField | AfterField => []
    case InQuoted => [Error(MissingClosingQuote), End]
    case AfterQuote | InUnquoted => [End]
    case AfterDelim => [Begin, End]
  }

  /** The callbacks on an input that ends at its first NUL or at its end. */
  ghost function Ops(delim: byte, quote: byte, state: State, input: bytes): seq<Op>
    decreases |input|
  {
    if input == [] || input[0] == NUL then Final(state)
    else
      var m := Step(delim, quote, state, input[0]);
      m.ops + (if m.stop then Final(m.next) else Ops(delim, quote, m.next, input[1..]))
  }

  // ------------------------------------------------------------ what the back ends build

  /** The field under construction and the completed ones. */
  datatype Fields = Fields(cur: bytes, done: seq<bytes>)

  function SplitOp(f: Fields, op: Op): Fields {
    match op
    case Begin => f.(cur := [])
    case Put(c) => f.(cur := f.cur + [c])
    case End => f.(done := f.done + [f.cur])
    case Error(_) => f
  }

  ghost function SplitOps(f: Fields, ops: seq<Op>): Fields
    decreases |ops|
  {
    if ops == [] then f else SplitOps(SplitOp(f, ops[0]), ops[1..])
  }

  /** One, two and three callbacks. */
  lemma SplitFirst(f: Fields, a: Op, b: Op, c: Op)
    ensures SplitOps(f, [a]) == SplitOp(f, a)
    ensures SplitOps(f, [a, b]) == SplitOp(SplitOp(f, a), b)
    ensures SplitOps(f, [a, b, c]) == SplitOp(SplitOp(SplitOp(f, a), b), c)
  {
    SplitLast(f, a);
    SplitLast(SplitOp(f, a), b);
    SplitLast(SplitOp(SplitOp(f, a), b), c);
    assert [a, b][1..] == [b] && [a, b, c][1..] == [b, c] && [b, c][1..] == [c];
    assert SplitOps(SplitOp(f, a), [b, c]) == SplitOps(SplitOp(SplitOp(f, a), b), [c]);
  }

  lemma SplitLast(f: Fields, a: Op)
    ensures SplitOps(f, [a]) == SplitOp(f, a)
  {
    assert [a][1..] == [];
  }

  /** The fields csv_split_record delivers. */
  ghost function Split(delim: byte, quote: byte, input: bytes): seq<bytes> {
    SplitOps(Fields([], []), Ops(delim, quote, BeforeField, input)).done
  }

  /** Text with a separator before every field but the first. */
  datatype Text = Text(out: bytes, count: nat)

  function JoinOp(sep: bytes, t: Text, op: Op): Text {
    match op
    case Begin => if t.count > 0 then t.(out := t.out + sep) else t
    case Put(c) => t.(out := t.out + [c])
    case End => t.(count := t.count + 1)
    case Error(_) => t
  }

  ghost function JoinOps(sep: bytes, t: Text, ops: seq<Op>): Text
    decreases |ops|
  {
    if ops == [] then t else JoinOps(sep, JoinOp(sep, t, ops[0]), ops[1..])
  }

  ghost function Join(sep: bytes, fields: seq<bytes>): bytes {
    if fields == [] then []
    else if |fields| == 1 then fields[0]
    else Join(sep, fields[..|fields| - 1]) + sep + fields[|fields| - 1]
  }

  // ------------------------------------------------------------ begin and end alternate

  /** A field is open in these states. */
  predicate Open(state: State) { state.InQuoted? || state.AfterQuote? || state.InUnquoted? }

  /** Begin and End alternate, characters come only in between, and no field is left open. */
  ghost predicate Alternate(open: bool, ops: seq<Op>)
    decreases |ops|
  {
    if ops == [] then !open
    else match ops[0]
      case Begin => !open && Alternate(true, ops[1..])
      case End => open && Alternate(false, ops[1..])
      case Put(_) => open && Alternate(open, ops[1..])
      case Error(_) => Alternate(open, ops[1..])
  }

  lemma {:induction false} OpsAlternate(delim: byte, quote: byte, state: State, input: bytes)
    ensures Alternate(Open(state), Ops(delim, quote, state, input))
    decreases |input|
  {
    if input == [] || input[0] == NUL {
      FinalAlternates(state);
    } else {
      var m := Step(delim, quote, state, input[0]);
      var rest := if m.stop then Final(m.next) else Ops(delim, quote, m.next, input[1..]);
      if m.stop {
        FinalAlternates(m.next);
      } else {
        OpsAlternate(delim, quote, m.next, input[1..]);
      }
      StepAlternates(delim, quote, state, input[0], rest);
    }
  }

  lemma FinalAlternates(state: State)
    ensures Alternate(Open(state), Final(state))
  {
    assert [Begin, End][1..] == [End] && [Error(MissingClosingQuote), End][1..] == [End] && [End][1..] == [];
    assert Alternate(false, []);
    assert Alternate(true, [End]);
  }

  lemma AlternateFirst(open: bool, op: Op, rest: seq<Op>)
    ensures Alternate(open, [op] + rest) == match op
      case Begin => !open && Alternate(true, rest)
      case End => open && Alternate(false, rest)
      case Put(_) => open && Alternate(open, rest)
      case Error(_) => Alternate(open, rest)
  {
    assert ([op] + rest)[1..] == rest;
  }

  lemma StepAlternates(delim: byte, quote: byte, state: State, c: byte, rest: seq<Op>)
    requires Alternate(Open(Step(delim, quote, state, c).next), rest)
    ensures Alternate(Open(state), Step(delim, quote, state, c).ops + rest)
  {
    var m := Step(delim, quote, state, c);
    var ops, open := m.ops, Open(state);
    hide Alternate;
    if |ops| == 0 {
      assert ops + rest == rest;
    } else if |ops| == 1 {
      assert ops == [ops[0]];
      AlternateFirst(open, ops[0], rest);
    } else if |ops| == 2 {
      assert ops + rest == [ops[0]] + ([ops[1]] + rest);
      AlternateFirst(open, ops[0], [ops[1]] + rest);
      AlternateFirst(open || ops[0].Begin?, ops[1], rest);
    } else {
      assert ops == [Error(UnexpectedCharacter), Put(quote), Put(c)] && open;
      assert ops + rest == [ops[0]] + ([ops[1]] + ([ops[2]] + rest));
      AlternateFirst(open, ops[0], [ops[1]] + ([ops[2]] + rest));
      AlternateFirst(open, ops[1], [ops[2]] + rest);
      AlternateFirst(open, ops[2], rest);
    }
  }

  // ------------------------------------------------------------ conversion is split and join

  /** How the joined text stands when these fields are done and one may be open. */
  ghost predicate Joined(sep: bytes, open: bool, f: Fields, t: Text) {
    t.count == |f.done| && t.out == (if open then Join(sep, f.done + [f.cur]) else Join(sep, f.done))
  }

  lemma {:induction false} JoinOpsIsJoin(sep: bytes, open: bool, f: Fields, t: Text, ops: seq<Op>)
    requires Alternate(open, ops) && Joined(sep, open, f, t)
    ensures JoinOps(sep, t, ops).out == Join(sep, SplitOps(f, ops).done)
    ensures JoinOps(sep, t, ops).count == |SplitOps(f, ops).done|
    decreases |ops|
  {
    if ops != [] {
      var f', t' := SplitOp(f, ops[0]), JoinOp(sep, t, ops[0]);
      assert f.done + [f.cur] != [] && (f.done + [f.cur])[..|f.done|] == f.done;
      match ops[0] {
        case Begin =>
          assert (f.done + [f'.cur])[..|f.done|] == f.done;
          assert t'.out + [] == t'.out;
          assert Joined(sep, true, f', t');
          JoinOpsIsJoin(sep, true, f', t', ops[1..]);
        case End => JoinOpsIsJoin(sep, false, f', t', ops[1..]);
        case Put(c) =>
          assert (f.done + [f'.cur])[..|f.done|] == f.done;
          assert f.done == [] ==> f.done + [f'.cur] == [f'.cur];
          assert Joined(sep, true, f', t');
          JoinOpsIsJoin(sep, true, f', t', ops[1..]);
        case Error(_) => JoinOpsIsJoin(sep, open, f', t', ops[1..]);
      }
    }
  }

  /** On every input, well formed or not, what csv_convert_record builds is the fields of
      csv_split_record joined by the separator. */
  lemma ConvertIsJoinOfSplit(delim: byte, quote: byte, sep: bytes, input: bytes)
    ensures JoinOps(sep, Text([], 0), Ops(delim, quote, BeforeField, input)).out ==
            Join(sep, Split(delim, quote, input))
    ensures JoinOps(sep, Text([], 0), Ops(delim, quote, BeforeField, input)).count == |Split(delim, quote, input)|
  {
    OpsAlternate(delim, quote, BeforeField, input);
    JoinOpsIsJoin(sep, false, Fields([], []), Text([], 0), Ops(delim, quote, BeforeField, input));
  }

  // ------------------------------------------------------------ appending

  lemma {:induction false} SplitOpsAppend(f: Fields, xs: seq<Op>, ys: seq<Op>)
    ensures SplitOps(f, xs + ys) == SplitOps(SplitOps(f, xs), ys)
    decreases |xs|
  {
    if xs == [] {
      assert xs + ys == ys;
    } else {
      assert (xs + ys)[1..] == xs[1..] + ys;
      SplitOpsAppend(SplitOp(f, xs[0]), xs[1..], ys);
    }
  }

  lemma {:induction false} JoinOpsAppend(sep: bytes, t: Text, xs: seq<Op>, ys: seq<Op>)
    ensures JoinOps(sep, t, xs + ys) == JoinOps(sep, JoinOps(sep, t, xs), ys)
    decreases |xs|
  {
    if xs == [] {
      assert xs + ys == ys;
    } else {
      assert (xs + ys)[1..] == xs[1..] + ys;
      JoinOpsAppend(sep, JoinOp(sep, t, xs[0]), xs[1..], ys);
    }
  }
}
