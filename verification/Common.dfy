/** Bytes, optional values and flattening, shared by every model in this project. */
module Common {

  type byte = b: int | 0 <= b < 256
  type bytes = seq<byte>

  datatype Option<+T> = None | Some(value: T)

  /** A plain char as an integer: negative above 127 where char is signed. */
  function PlainChar(c: byte, signed: bool): int { if signed && c >= 128 then c - 256 else c }

  const NUL: byte := 0
  const LF: byte := 10
  const CR: byte := 13

  /** All the chunks of a list, end to end. */
  ghost function Flat<T>(chunks: seq<seq<T>>): seq<T> {
    if chunks == [] then [] else chunks[0] + Flat(chunks[1..])
  }

  lemma {:induction false} FlatAppend<T>(xs: seq<seq<T>>, ys: seq<seq<T>>)
    ensures Flat(xs + ys) == Flat(xs) + Flat(ys)
  {
    if xs == [] {
      assert xs + ys == ys;
    } else {
      assert (xs + ys)[1..] == xs[1..] + ys;
      FlatAppend(xs[1..], ys);
    }
  }

  lemma FlatSnoc<T>(xs: seq<seq<T>>, y: seq<T>)
    ensures Flat(xs + [y]) == Flat(xs) + y
  {
    FlatAppend(xs, [y]);
    assert Flat([y]) == y;
  }

  lemma ConcatAssoc<T>(a: seq<T>, b: seq<T>, c: seq<T>)
    ensures a + (b + c) == a + b + c
  {}
}
