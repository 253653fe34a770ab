/** The hash table of strings: lib/strhash.c. */
module StrHash {
  import opened Common

  // ------------------------------------------------------------ my_hash

  /** An unsigned long holds values modulo this. */
  const WORD := 0x1_0000_0000_0000_0000

  /** The sdbm hash: a left fold with multiplier 65599. */
  ghost function HashOf(s: bytes, signed: bool): (h: nat)
    ensures h < WORD
  {
    if s == [] then 0 else (65599 * HashOf(s[..|s| - 1], signed) + PlainChar(s[|s| - 1], signed)) % WORD
  }

  ghost function Bucket(s: bytes, signed: bool, size: nat): (b: nat)
    requires size > 0
    ensures b < size
  {
    HashOf(s, signed) % size
  }

  lemma DropMod(x: int, y: int)
    ensures (x + y % WORD) % WORD == (x + y) % WORD
  {
    AddMultiple(x + y % WORD, y / WORD);
  }

  lemma {:induction false} AddMultiple(x: int, q: int)
    ensures (x + q * WORD) % WORD == x % WORD
    decreases if q >= 0 then q else -q
  {
    if q > 0 {
      AddMultiple(x, q - 1);
    } else if q < 0 {
      AddMultiple(x, q + 1);
    }
  }

  /** HASHC: two shifts and a subtraction, each wrapping, are a multiplication by 65599. */
  method HashC(h: nat, c: int) returns (h': nat)
    requires h < WORD
    ensures h' == (65599 * h + c) % WORD
  {
    var htmp := h * 64 % WORD;
    h' := ((c % WORD + htmp) % WORD + htmp * 1024 % WORD - h) % WORD;
    calc {
      h';
    == { DropMod(htmp * 1024 % WORD - h, c % WORD + htmp); }
      (htmp * 1024 % WORD - h + c % WORD + htmp) % WORD;
    == { DropMod(htmp * 1024 % WORD - h + htmp, c); }
      (htmp * 1024 % WORD - h + htmp + c) % WORD;
    == { DropMod(htmp - h + c, htmp * 1024); }
      (htmp * 1025 - h + c) % WORD;
    == { Shifted(h); AddMultiple(h * 64 * 1025 - h + c, -1025 * (h * 64 / WORD)); }
      (h * 64 * 1025 - h + c) % WORD;
    }
  }

  lemma Shifted(h: nat)
    ensures h * 64 % WORD * 1025 == h * 64 * 1025 + -1025 * (h * 64 / WORD) * WORD
  {
    var q := h * 64 / WORD;
    assert h * 64 == q * WORD + h * 64 % WORD;
  }

  /** One HASHC of the unrolled loop, skipped when the loop was entered at a later label. */
  method HashNext(s: bytes, signed: bool, pos: nat, h: nat, enter: nat, at: nat) returns (pos': nat, h': nat)
    requires pos <= |s| && h == HashOf(s[..pos], signed) && (at <= enter ==> pos < |s|)
    ensures pos' == (if at <= enter then pos + 1 else pos) && h' == HashOf(s[..pos'], signed)
  {
    pos', h' := pos, h;
    if at <= enter {
      h' := HashC(h, PlainChar(s[pos], signed));
      pos' := pos + 1;
      assert s[..pos'][..|s[..pos']| - 1] == s[..pos];
    }
  }

  /** The body of the unrolled loop, entered so many steps before its end. */
  method HashUnit(s: bytes, signed: bool, pos0: nat, h0: nat, enter: nat) returns (pos: nat, h: nat)
    requires 1 <= enter <= 8 && pos0 + enter <= |s| && h0 == HashOf(s[..pos0], signed)
    ensures pos == pos0 + enter && h == HashOf(s[..pos], signed)
  {
    hide HashOf;
    pos, h := HashNext(s, signed, pos0, h0, enter, 8);
    pos, h := HashNext(s, signed, pos, h, enter, 7);
    pos, h := HashNext(s, signed, pos, h, enter, 6);
    pos, h := HashNext(s, signed, pos, h, enter, 5);
    pos, h := HashNext(s, signed, pos, h, enter, 4);
    pos, h := HashNext(s, signed, pos, h, enter, 3);
    pos, h := HashNext(s, signed, pos, h, enter, 2);
    pos, h := HashNext(s, signed, pos, h, enter, 1);
  }

  /** my_hash: Duff's device enters the loop body len % 8 steps before its end, or at its start. */
  method MyHash(s: bytes, signed: bool, hsize: nat) returns (bucket: nat, code: nat)
    requires hsize > 0
    ensures bucket == Bucket(s, signed, hsize) && code == HashOf(s, signed)
  {
    hide HashOf;
    var h, pos := 0, 0;
    HashNone(signed);
    assert s[..0] == [];
    if |s| > 0 {
      var loop := (|s| + 8 - 1) / 8;
      var enter := if |s| % 8 == 0 then 8 else |s| % 8;
      while loop != 0
        invariant pos <= |s| && h == HashOf(s[..pos], signed)
        invariant 1 <= enter <= 8 && |s| - pos == (if loop == 0 then 0 else 8 * (loop - 1) + enter)
        decreases loop
      {
        pos, h := HashUnit(s, signed, pos, h, enter);
        enter := 8;
        loop := loop - 1;
      }
    }
    assert s[..pos] == s;
    code := h;
    bucket := if h >= hsize then h % hsize else h;
    Reduced(h, hsize);
  }

  lemma Reduced(h: nat, hsize: nat)
    requires hsize > 0
    ensures h < hsize ==> h % hsize == h
  {}

  lemma HashNone(signed: bool)
    ensures HashOf([], signed) == 0
  {}

  // ------------------------------------------------------------ get_table_size

  const SIZES: seq<nat> := [
    13, 127, 1021, 8191, 16381, 32749, 65497, 131101, 262147, 524309, 1048583, 2097169, 4194319, 8388617,
    16777259, 33554467, 67108879, 134217757, 268435459, 536870923, 1073741827]

  const LARGEST := 1073741827

  lemma SizesAscend(i: nat, j: nat)
    requires i < j < |SIZES|
    ensures SIZES[i] < SIZES[j]
    decreases j
  {
    if i + 1 < j {
      SizesAscend(i, j - 1);
    }
  }

  /** The smallest size above the old one; the largest when there is none. */
  method GetTableSize(oldSize: nat) returns (size: nat)
    ensures size in SIZES && (size > oldSize || (size == LARGEST && oldSize >= LARGEST))
    ensures forall j :: 0 <= j < |SIZES| && SIZES[j] > oldSize ==> size <= SIZES[j]
  {
    var i := 0;
    while i < |SIZES|
      invariant i <= |SIZES|
      invariant forall j :: 0 <= j < i ==> SIZES[j] <= oldSize
    {
      if oldSize < SIZES[i] {
        forall j | i < j < |SIZES| ensures SIZES[i] <= SIZES[j] { SizesAscend(i, j); }
        return SIZES[i];
      }
      i := i + 1;
    }
    assert SIZES[20] == LARGEST;
    size := SIZES[|SIZES| - 1];
  }
}
