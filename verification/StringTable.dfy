/** strhash_create, strhash_get, strhash_delete and strhash_destroy (lib/strhash.c). */
module StringTable {
  import opened Common
  import opened StrHash
  import opened StrTable

  const AVG_CHAIN_MAX := 2

  class HashTable {
    var index: array<Entry?>                // ht_index; its length is index_size
    var entries: nat
    var maxed: bool                         // size_maxed
    const signed: bool                      // plain char is signed
    ghost var chains: seq<seq<Entry>>
    ghost var m: map<bytes, Entry>          // what the table stands for

    /** The buckets hold the map. */
    ghost predicate Structure()
      reads this`index, this`chains, this`m, index, m.Values`next
    {
      Table(index[..], chains, signed, m) && index.Length in SIZES
    }

    ghost predicate Valid()
      reads this`index, this`entries, this`maxed, this`chains, this`m, index, m.Values`next
    {
      Structure() && entries == |m| && (maxed || entries <= AVG_CHAIN_MAX * index.Length)
    }

    /** strhash_create. */
    constructor (minTableSize: nat, signed: bool)
      ensures Valid() && m == map[] && !maxed && this.signed == signed && fresh(index)
      ensures minTableSize < LARGEST ==> index.Length > minTableSize
      ensures forall n :: n in SIZES && n > minTableSize ==> index.Length <= n
    {
      this.signed := signed;
      var size := GetTableSize(minTableSize);
      SizesPositive(size);
      var heads := new Entry?[size](_ => null);
      index, entries, maxed := heads, 0, false;
      chains, m := seq(size, _ => []), map[];
      EmptyTable(heads[..], seq(size, _ => []), signed);
    }

    /** strhash_grow: every entry is moved to its bucket in a larger index, if there is a larger size. */
    method Grow()
      requires Structure()
      modifies this`index, this`maxed, this`chains, m.Values`next
      ensures Structure()
      ensures if old(index.Length) >= LARGEST then maxed && index == old(index)
              else fresh(index) && NextSize(old(index.Length), index.Length) && maxed == old(maxed)
    {
      hide Table;
      var newSize := GetTableSize(index.Length);
      if newSize <= index.Length {
        SetMaxed();
      } else {
        MoveTo(newSize);
      }
    }

    method MoveTo(newSize: nat)
      requires Structure() && newSize in SIZES && newSize > 0
      modifies this`index, this`chains, m.Values`next
      ensures Structure() && fresh(index) && index.Length == newSize
    {
      hide Table;
      var newIndex := new Entry?[newSize](_ => null);
      ghost var chains' := MoveAll(index[..], chains, signed, m, newIndex);
      Replace(newIndex, chains');
    }

    method SetMaxed()
      requires Structure()
      modifies this`maxed
      ensures Structure() && maxed
    {
      hide Table;
      maxed := true;
    }

    /** Use another index for the same map. */
    method Replace(newIndex: array<Entry?>, ghost chains': seq<seq<Entry>>)
      requires Table(newIndex[..], chains', signed, m) && newIndex.Length in SIZES
      modifies this`index, this`chains
      ensures Structure() && index == newIndex
    {
      hide Table;
      index, chains := newIndex, chains';
    }

    ghost method StandFor(chains': seq<seq<Entry>>, m': map<bytes, Entry>)
      requires Table(index[..], chains', signed, m') && index.Length in SIZES
      modifies this`chains, this`m
      ensures Structure() && m == m'
    {
      hide Table;
      chains, m := chains', m';
    }

    method Count(n: nat)
      requires Structure()
      modifies this`entries
      ensures Structure() && entries == n
    {
      hide Table;
      entries := n;
    }

    /** The search of strhash_get. */
    method Lookup(s: bytes) returns (ent: Entry?)
      requires Structure()
      ensures ent == (if s in m then m[s] else null) && index.Length > 0
    {
      TableSize(index[..], chains, signed, m);
      hide Bucket, HashOf;
      var b, code := MyHash(s, signed, index.Length);
      InTable(index[..], chains, signed, m, b);
      ghost var prev, k;
      ent, prev, k := Find(index[b], s, chains[b]);
      FoundIff(index[..], chains, signed, m, s, k);
    }

    /** One entry more is counted, and the index grows when it is too small for them. */
    method CountOne(s: bytes)
      requires Valid() && s !in m
      modifies this`entries, this`index, this`maxed, this`chains, m.Values`next
      ensures Structure() && entries == |m| + 1 && (maxed || entries <= AVG_CHAIN_MAX * index.Length)
      ensures if old(Outgrows(s, true)) then fresh(index) && NextSize(old(index.Length), index.Length) else index == old(index)
      ensures entries <= AVG_CHAIN_MAX * old(index.Length) ==> maxed == old(maxed)
    {
      hide Table, this.Structure;
      Count(entries + 1);
      if !maxed && entries > AVG_CHAIN_MAX * index.Length {
        Grow();
      }
    }

    /** Put a new entry in front of its bucket. */
    method Link(ent: Entry)
      requires Structure() && ent.s !in m
      modifies this`chains, this`m, index, ent`next
      ensures Structure() && m == old(m)[ent.s := ent]
    {
      hide Table;
      ghost var chains' := Push(index, ent, chains, signed, m);
      StandFor(chains', m[ent.s := ent]);
    }

    /** strhash_get, with the bucket computed again when the index was replaced in between. */
    method Get(s: bytes, insertIfMissing: bool) returns (ent: Entry?)
      requires Valid()
      modifies this, index, m.Values`next
      ensures Valid() && (index == old(index) || fresh(index))
      ensures s in old(m) ==> ent == old(m)[s]
      ensures s !in old(m) && !insertIfMissing ==> ent == null
      ensures s !in old(m) && insertIfMissing ==> ent != null && fresh(ent) && ent.s == s && ent.data == None
      ensures m == if ent == null then old(m) else old(m)[s := ent]
      ensures if old(Outgrows(s, insertIfMissing)) then NextSize(old(index.Length), index.Length) else index == old(index)
    {
      hide Table, this.Structure, NextSize;
      ent := Lookup(s);
      if ent != null || !insertIfMissing {
        return;
      }
      CountOne(s);
      ent := new Entry(s);
      Link(ent);
    }

    /** strhash_destroy: takes every entry off its chain; called holds the calls of the callback. */
    method Destroy() returns (called: seq<Entry>)
      requires Structure()
      modifies index
      ensures called == Flat(old(chains)) && OnceEach(called, m)
      ensures forall b :: 0 <= b < index.Length ==> index[b] == null
    {
      TableSize(index[..], chains, signed, m);
      Starts(index[..], chains, signed, m);
      FlatOnceEach(chains, signed, m);
      hide *;
      called := [];
      FlatNone(chains);
      var i := 0;
      while i < index.Length
        invariant i <= index.Length == |chains|
        invariant forall b :: i <= b < |chains| ==> Chain(index[b], chains[b])
        invariant forall b :: 0 <= b < i ==> index[b] == null
        invariant called == Flat(chains[..i])
      {
        called := EmptyNext(i, called);
        i := i + 1;
      }
      assert chains[..i] == chains;
    }

    method EmptyNext(i: nat, called0: seq<Entry>) returns (called: seq<Entry>)
      requires i < index.Length == |chains| && called0 == Flat(chains[..i])
      requires forall b :: i <= b < |chains| ==> Chain(index[b], chains[b])
      requires forall b :: 0 <= b < i ==> index[b] == null
      modifies index
      ensures forall b :: i + 1 <= b < |chains| ==> Chain(index[b], chains[b])
      ensures forall b :: 0 <= b < i + 1 ==> index[b] == null
      ensures called == Flat(chains[..i + 1])
    {
      hide *;
      var some := Empty(i, chains[i]);
      FlatRow(chains, i);
      called := called0 + some;
    }

    /** The inner loop: empties one chain. */
    method Empty(i: nat, ghost c: seq<Entry>) returns (called: seq<Entry>)
      requires i < index.Length && Chain(index[i], c)
      modifies index
      ensures called == c && index[i] == null
      ensures forall b :: 0 <= b < index.Length && b != i ==> index[b] == old(index[b])
    {
      called := [];
      ghost var k := 0;
      while index[i] != null
        invariant k <= |c| && called == c[..k] && index[i] == (if k < |c| then c[k] else null)
        invariant forall b :: 0 <= b < index.Length && b != i ==> index[b] == old(index[b])
        decreases |c| - k
      {
        var ent := index[i];
        index[i] := ent.next;
        called := called + [ent];
        k := k + 1;
      }
    }

    /** The insertion that outgrows an index which is not yet of the largest size. */
    ghost predicate Outgrows(s: bytes, insertIfMissing: bool)
      reads this`index, this`maxed, this`m
    {
      insertIfMissing && s !in m && !maxed && |m| + 1 > AVG_CHAIN_MAX * index.Length && index.Length < LARGEST
    }

    /** strhash_get as it stands: the bucket is computed first, and the new entry is linked into the index
        of that time. The entry enters the table, and the count stays right, exactly when the index was
        not replaced in between; otherwise the map is unchanged and the entry is lost to the table. */
    method GetAsWritten(s: bytes, insertIfMissing: bool) returns (ent: Entry?)
      requires Valid()
      modifies this, index, m.Values`next
      ensures Structure() && (index == old(index) || fresh(index))
      ensures s in old(m) ==> ent == old(m)[s]
      ensures s !in old(m) && !insertIfMissing ==> ent == null
      ensures s !in old(m) && insertIfMissing ==> ent != null && fresh(ent) && ent.s == s && ent.data == None
      ensures m == if ent == null || old(Outgrows(s, insertIfMissing)) then old(m) else old(m)[s := ent]
      ensures Valid() <==> !old(Outgrows(s, insertIfMissing))
      ensures if old(Outgrows(s, insertIfMissing)) then NextSize(old(index.Length), index.Length) else index == old(index)
      ensures entries == old(entries) + if s !in old(m) && insertIfMissing then 1 else 0
      ensures |old(m)| < AVG_CHAIN_MAX * old(index.Length) ==> index == old(index) && maxed == old(maxed)
    {
      hide Table, this.Structure, NextSize;
      var bucket := index;
      ent := Lookup(s);
      if ent != null || !insertIfMissing {
        return;
      }
      CountOne(s);
      ent := new Entry(s);
      if bucket == index {
        Link(ent);
      } else {
        LinkDead(bucket, ent);
      }
    }

    /** The same two assignments, into an index no longer used. */
    method LinkDead(bucket: array<Entry?>, ent: Entry)
      requires Structure() && bucket != index && bucket.Length > 0 && ent.s !in m
      modifies bucket, ent`next
      ensures Structure()
    {
      hide Table, HashOf, this.Structure;
      var b, code := MyHash(ent.s, signed, bucket.Length);
      LinkDeadAt(bucket, b, ent);
    }

    method LinkDeadAt(bucket: array<Entry?>, b: nat, ent: Entry)
      requires Structure() && bucket != index && b < bucket.Length && ent.s !in m
      modifies bucket, ent`next
      ensures Structure()
    {
      NotHeld(index[..], chains, signed, m, ent);
      hide Table;
      ent.next := bucket[b];
      bucket[b] := ent;
    }

    /** strhash_delete; called holds the calls of the callback. */
    method Delete(s: bytes) returns (r: int, called: seq<Entry>)
      requires Valid()
      modifies this`entries, this`chains, this`m, index, m.Values`next
      ensures Valid() && m == Without(old(m), s)
      ensures if s in old(m) then r == 0 && called == [old(m)[s]] else r == -1 && called == []
    {
      hide Table, Without, this.Structure;
      WithoutIs(m, s);
      var ent := Remove(s);
      if ent == null {
        return -1, [];
      }
      Count(entries - 1);
      return 0, [ent];
    }

    /** The search of strhash_delete, and its change to the links. */
    method Remove(s: bytes) returns (ent: Entry?)
      requires Structure()
      modifies this`chains, this`m, index, m.Values`next
      ensures Structure() && m == Without(old(m), s)
      ensures ent == if s in old(m) then old(m)[s] else null
    {
      hide Table, Without, Bucket, HashOf;
      WithoutIs(m, s);
      var b, prev;
      ghost var k;
      b, ent, prev, k := Search(s);
      if ent != null {
        Unlinked(b, ent, prev, k);
      }
    }

    method Search(s: bytes) returns (b: nat, ent: Entry?, prev: Entry?, ghost k: nat)
      requires Structure()
      ensures b < |chains| == index.Length && k <= |chains[b]|
      ensures if s in m then k < |chains[b]| && ent == m[s] == chains[b][k] && ent.s == s else ent == null
      ensures k < |chains[b]| ==> prev == if k == 0 then null else chains[b][k - 1]
    {
      TableSize(index[..], chains, signed, m);
      hide Bucket, HashOf;
      var code;
      b, code := MyHash(s, signed, index.Length);
      InTable(index[..], chains, signed, m, b);
      hide Table;
      ent, prev, k := Find(index[b], s, chains[b]);
      FoundIff(index[..], chains, signed, m, s, k);
    }

    method Unlinked(b: nat, ent: Entry, prev: Entry?, ghost k: nat)
      requires Structure() && b < |chains| && k < |chains[b]| && ent == chains[b][k]
      requires prev == if k == 0 then null else chains[b][k - 1]
      modifies this`chains, this`m, index, m.Values`next
      ensures Structure() && m == Without(old(m), ent.s)
    {
      hide Table;
      Unlink(index, b, ent, prev, chains, signed, m, k);
      StandFor(chains[b := chains[b][..k] + chains[b][k + 1..]], m - {ent.s});
    }
  }

  /** The smallest of the sizes above another. */
  ghost predicate NextSize(was: nat, size: nat) {
    size in SIZES && size > was && forall n :: n in SIZES && n > was ==> size <= n
  }

  lemma SizesPositive(size: nat)
    requires size in SIZES
    ensures 0 < size <= LARGEST
  {
    var i :| 0 <= i < |SIZES| && SIZES[i] == size;
    assert SIZES[0] == 13 && SIZES[20] == LARGEST;
    if i > 0 {
      SizesAscend(0, i);
    }
    if i < 20 {
      SizesAscend(i, 20);
    }
  }

  lemma InTable(heads: seq<Entry?>, chains: seq<seq<Entry>>, signed: bool, m: map<bytes, Entry>, b: nat)
    requires Table(heads, chains, signed, m) && b < |chains|
    ensures Chain(heads[b], chains[b])
  {
    assert Homed(chains[b], b, |chains|, signed, m);
  }

  lemma NotHeld(heads: seq<Entry?>, chains: seq<seq<Entry>>, signed: bool, m: map<bytes, Entry>, e: Entry)
    requires Table(heads, chains, signed, m) && e.s !in m
    ensures e !in m.Values
  {}

  ghost function Without(m: map<bytes, Entry>, s: bytes): map<bytes, Entry> { m - {s} }

  lemma WithoutIs(m: map<bytes, Entry>, s: bytes)
    ensures s !in m ==> Without(m, s) == m
    ensures s in m ==> |Without(m, s)| == |m| - 1
  {
    if s in m {
      assert (m - {s}).Keys == m.Keys - {s};
      assert |m.Keys| == |m| && |(m - {s}).Keys| == |m - {s}|;
    } else {
      assert m - {s} == m;
    }
  }

  /** Every entry of the map is in the list, once, and nothing else is. */
  ghost predicate OnceEach(list: seq<Entry>, m: map<bytes, Entry>) {
    && (forall k :: 0 <= k < |list| ==> list[k].s in m && m[list[k].s] == list[k])
    && (forall j, k :: 0 <= j < k < |list| ==> list[j].s != list[k].s)
    && (forall s :: s in m ==> m[s] in list)
  }

  lemma FlatNone(chains: seq<seq<Entry>>)
    ensures Flat(chains[..0]) == []
  {
    assert chains[..0] == [];
  }

  lemma FlatRow(chains: seq<seq<Entry>>, i: nat)
    requires i < |chains|
    ensures Flat(chains[..i + 1]) == Flat(chains[..i]) + chains[i]
  {
    assert chains[..i + 1] == chains[..i] + [chains[i]];
    FlatSnoc(chains[..i], chains[i]);
  }

  lemma Starts(heads: seq<Entry?>, chains: seq<seq<Entry>>, signed: bool, m: map<bytes, Entry>)
    requires Table(heads, chains, signed, m)
    ensures forall b :: 0 <= b < |chains| ==> Chain(heads[b], chains[b])
    ensures Placed(chains, signed, m)
  {
    forall b | 0 <= b < |chains| ensures Chain(heads[b], chains[b]) {
      assert Homed(chains[b], b, |chains|, signed, m);
    }
  }

  /** The chains, end to end, hold every entry once. */
  lemma FlatOnceEach(chains: seq<seq<Entry>>, signed: bool, m: map<bytes, Entry>)
    requires Placed(chains, signed, m)
    ensures OnceEach(Flat(chains), m)
  {
    FlatPrefix(chains, signed, m, |chains|);
    assert chains[..|chains|] == chains;
    forall s | s in m ensures m[s] in Flat(chains) {
      assert m[s] in chains[Bucket(s, signed, |chains|)];
    }
  }

  lemma {:induction false} FlatPrefix(chains: seq<seq<Entry>>, signed: bool, m: map<bytes, Entry>, i: nat)
    requires Placed(chains, signed, m) && i <= |chains|
    ensures var list := Flat(chains[..i]);
      && (forall k :: 0 <= k < |list| ==> list[k].s in m && m[list[k].s] == list[k] && Bucket(list[k].s, signed, |chains|) < i)
      && (forall j, k :: 0 <= j < k < |list| ==> list[j].s != list[k].s)
      && (forall b, e :: 0 <= b < i && e in chains[b] ==> e in list)
    decreases i
  {
    hide Bucket, Flat, Placed;
    if i == 0 {
      FlatNone(chains);
    } else {
      FlatPrefix(chains, signed, m, i - 1);
      FlatRow(chains, i - 1);
      PlacedHome(chains, signed, m, i - 1);
    }
  }

  /** The keys [0], [1], ... below n. */
  ghost function Keys(n: nat): set<bytes>
    requires n < 256
  {
    set k: byte | 0 <= k < n :: [k]
  }

  /** A table of the smallest size with n keys. */
  ghost predicate Filled(t: HashTable, n: nat)
    requires n < 256
    reads t`index, t`entries, t`maxed, t`chains, t`m, t.index, t.m.Values`next
  {
    t.Valid() && t.m.Keys == Keys(n) && |t.m| == n && t.index.Length == 13 && !t.maxed
  }

  method AddKey(t: HashTable, n: nat)
    requires n < 26 && Filled(t, n)
    modifies t, t.index, t.m.Values`next
    ensures Filled(t, n + 1) && t.index == old(t.index) && fresh(t.m.Values - old(t.m.Values))
  {
    var s: bytes := [n];
    NewKey(t.m, n, s);
    hide Keys, t.Structure;
    Roomy(t, s);
  }

  /** Below the load bound, the insertion as written is an insertion. */
  method Roomy(t: HashTable, s: bytes)
    requires t.Valid() && s !in t.m && |t.m| < AVG_CHAIN_MAX * t.index.Length
    modifies t, t.index, t.m.Values`next
    ensures t.Valid() && t.index == old(t.index) && t.maxed == old(t.maxed) && fresh(t.m.Values - old(t.m.Values))
    ensures t.m.Keys == old(t.m.Keys) + {s} && |t.m| == |old(t.m)| + 1
  {
    hide t.Structure;
    var e := t.GetAsWritten(s, true);
    ValuesAfter(old(t.m), s, e);
  }

  lemma NewKey(m: map<bytes, Entry>, n: nat, s: bytes)
    requires n <= 26 && m.Keys == Keys(n) && s == [n]
    ensures s !in m && Keys(n) + {s} == Keys(n + 1)
  {
    assert s[0] == n && s in Keys(n + 1);
  }

  lemma ValuesAfter(m: map<bytes, Entry>, s: bytes, e: Entry)
    requires s !in m
    ensures m[s := e].Values <= m.Values + {e} && m[s := e].Keys == m.Keys + {s} && |m[s := e]| == |m| + 1
  {}

  method Fill(signed: bool) returns (t: HashTable)
    ensures fresh(t) && fresh(t.index) && fresh(t.m.Values) && Filled(t, 26)
  {
    t := new HashTable(0, signed);
    SmallestIs(t.index.Length);
    assert Keys(0) == {};
    hide Keys, t.Valid;
    var k := 0;
    while k < 26
      invariant 0 <= k <= 26 && Filled(t, k)
      invariant fresh(t) && fresh(t.index) && fresh(t.m.Values)
    {
      AddKey(t, k);
      k := k + 1;
    }
  }

  /** The 27th insertion into a new table of the smallest size is the first to be lost. */
  method LoseOne(signed: bool) returns (ent: Entry?, found: Entry?, count: nat)
    ensures ent != null && found == null && count == 27
  {
    var t := Fill(signed);
    var s: bytes := [26];
    NewKey(t.m, 26, s);
    hide Keys, t.Structure;
    ent := t.GetAsWritten(s, true);
    found := t.Lookup(s);
    count := t.entries;
  }

  lemma SmallestIs(n: nat)
    requires n in SIZES && forall k :: k in SIZES && k > 0 ==> n <= k
    ensures n == 13
  {
    assert SIZES[0] == 13 && 13 in SIZES;
    var i :| 0 <= i < |SIZES| && SIZES[i] == n;
    if i > 0 {
      SizesAscend(0, i);
    }
  }
}
