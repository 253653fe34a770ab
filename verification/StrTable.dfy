/** The bucket table of lib/strhash.c, against the finite map it stands for. */
module StrTable {
  import opened Common
  import opened StrHash

  class Entry {
    var next: Entry?
    var data: Option<int>     // the caller's pointer; None = NULL
    const s: bytes

    constructor (s: bytes)
      ensures this.s == s && data == None && next == null
    {
      this.s, data, next := s, None, null;
    }
  }

  // ------------------------------------------------------------ chains

  /** The entries reached from here, in order. */
  ghost predicate Chain(head: Entry?, c: seq<Entry>)
    reads set k: int | 0 <= k < |c| :: c[k]`next
  {
    && (if c == [] then head == null else head == c[0] && c[|c| - 1].next == null)
    && forall k {:trigger c[k].next} :: 0 <= k < |c| - 1 ==> c[k].next == c[k + 1]
  }

  /** The chain of bucket b holds entries of the map that hash to b, no key twice. */
  ghost predicate Homed(c: seq<Entry>, b: nat, size: nat, signed: bool, m: map<bytes, Entry>)
    requires size > 0
  {
    && (forall k :: 0 <= k < |c| ==> c[k].s in m && m[c[k].s] == c[k] && Bucket(c[k].s, signed, size) == b)
    && (forall j, k :: 0 <= j < k < |c| ==> c[j].s != c[k].s)
  }

  /** The chains hold the entries of the map, each in the bucket of its hash. */
  ghost predicate Placed(chains: seq<seq<Entry>>, signed: bool, m: map<bytes, Entry>) {
    && |chains| > 0
    && (forall b :: 0 <= b < |chains| ==> Homed(chains[b], b, |chains|, signed, m))
    && (forall s :: s in m ==> m[s].s == s && m[s] in chains[Bucket(s, signed, |chains|)])
  }

  ghost predicate Table(heads: seq<Entry?>, chains: seq<seq<Entry>>, signed: bool, m: map<bytes, Entry>)
    reads m.Values`next
  {
    && Placed(chains, signed, m) && |heads| == |chains|
    && forall b :: 0 <= b < |chains| ==> Homed(chains[b], b, |chains|, signed, m) && Chain(heads[b], chains[b])
  }

  lemma PlacedPush(chains: seq<seq<Entry>>, signed: bool, m: map<bytes, Entry>, e: Entry)
    requires Placed(chains, signed, m) && e.s !in m
    ensures var b := Bucket(e.s, signed, |chains|);
      Placed(chains[b := [e] + chains[b]], signed, m[e.s := e])
  {
    var b := Bucket(e.s, signed, |chains|);
    var chains', m' := chains[b := [e] + chains[b]], m[e.s := e];
    hide Bucket;
    forall i | 0 <= i < |chains| ensures Homed(chains'[i], i, |chains|, signed, m') {
      assert Homed(chains[i], i, |chains|, signed, m);
    }
    forall s | s in m' ensures m'[s].s == s && m'[s] in chains'[Bucket(s, signed, |chains|)] {
      if s == e.s {
        assert chains'[b][0] == e;
      } else {
        var i := Bucket(s, signed, |chains|);
        assert m[s] in chains[i];
        if i == b {
          assert m[s] in [e] + chains[b];
        }
      }
    }
  }

  lemma PlacedDrop(chains: seq<seq<Entry>>, signed: bool, m: map<bytes, Entry>, b: nat, k: nat)
    requires Placed(chains, signed, m) && b < |chains| && k < |chains[b]|
    ensures Placed(chains[b := chains[b][..k] + chains[b][k + 1..]], signed, m - {chains[b][k].s})
  {
    var c := chains[b];
    var chains', m' := chains[b := c[..k] + c[k + 1..]], m - {c[k].s};
    hide Bucket;
    assert Homed(c, b, |chains|, signed, m);
    forall i | 0 <= i < |chains| ensures Homed(chains'[i], i, |chains|, signed, m') {
      assert Homed(chains[i], i, |chains|, signed, m);
      HomedDrop(chains[i], c, i, b, k, |chains|, signed, m);
    }
    hide Homed;
    forall s | s in m' ensures m'[s].s == s && m'[s] in chains'[Bucket(s, signed, |chains|)] {
      HeldDrop(chains, signed, m, b, k, s);
    }
  }

  lemma HeldDrop(chains: seq<seq<Entry>>, signed: bool, m: map<bytes, Entry>, b: nat, k: nat, s: bytes)
    requires Placed(chains, signed, m) && b < |chains| && k < |chains[b]| && s in m && s != chains[b][k].s
    ensures var i := Bucket(s, signed, |chains|); var c := chains[b];
      m[s].s == s && m[s] in if i == b then c[..k] + c[k + 1..] else chains[i]
  {
    hide Bucket, Homed;
    var i, c := Bucket(s, signed, |chains|), chains[b];
    if i == b {
      var j :| 0 <= j < |c| && c[j] == m[s];
      assert (c[..k] + c[k + 1..])[if j < k then j else j - 1] == m[s];
    }
  }

  lemma HomedDrop(d: seq<Entry>, c: seq<Entry>, i: nat, b: nat, k: nat, size: nat, signed: bool, m: map<bytes, Entry>)
    requires size > 0 && k < |c| && Homed(c, b, size, signed, m) && Homed(d, i, size, signed, m) && (i == b ==> d == c)
    ensures Homed(if i == b then c[..k] + c[k + 1..] else d, i, size, signed, m - {c[k].s})
  {
    hide Bucket;
  }

  lemma TablePush(heads: seq<Entry?>, chains: seq<seq<Entry>>, signed: bool, m: map<bytes, Entry>, e: Entry)
    requires Table(heads, chains, signed, m) && e.s !in m && e.next == heads[Bucket(e.s, signed, |chains|)]
    ensures var b := Bucket(e.s, signed, |chains|);
      Table(heads[b := e], chains[b := [e] + chains[b]], signed, m[e.s := e])
  {
    hide Bucket;
    var b := Bucket(e.s, signed, |chains|);
    var heads', chains', m' := heads[b := e], chains[b := [e] + chains[b]], m[e.s := e];
    PlacedPush(chains, signed, m, e);
    forall i | 0 <= i < |chains| ensures Homed(chains'[i], i, |chains|, signed, m') && Chain(heads'[i], chains'[i]) {
      PlacedHome(chains', signed, m', i);
      assert Homed(chains[i], i, |chains|, signed, m) && Chain(heads[i], chains[i]);
      hide Chain;
      if i == b {
        ChainCons(e, chains[b]);
      }
    }
  }

  /** Link an entry in front of its chain. */
  method Push(heads: array<Entry?>, e: Entry, ghost chains: seq<seq<Entry>>, signed: bool, ghost m: map<bytes, Entry>)
    returns (ghost chains': seq<seq<Entry>>)
    requires Table(heads[..], chains, signed, m) && e.s !in m
    modifies heads, e`next
    ensures Table(heads[..], chains', signed, m[e.s := e]) && |chains'| == |chains|
    ensures var b := Bucket(e.s, signed, heads.Length); chains' == chains[b := [e] + chains[b]]
  {
    ghost var was := heads[..];
    TableSize(was, chains, signed, m);
    hide Table, Bucket, HashOf;
    var b, code := MyHash(e.s, signed, heads.Length);
    LinkFirst(heads, b, e, chains, signed, m);
    TablePush(was, chains, signed, m, e);
    chains' := chains[b := [e] + chains[b]];
  }

  /** The chains of the table survive a change to the link of an entry outside them. */
  method LinkFirst(heads: array<Entry?>, b: nat, e: Entry, ghost chains: seq<seq<Entry>>, signed: bool, ghost m: map<bytes, Entry>)
    requires Table(heads[..], chains, signed, m) && e.s !in m && b < heads.Length
    modifies heads, e`next
    ensures e.next == old(heads[b]) && heads[..] == old(heads[..])[b := e]
    ensures Table(old(heads[..]), chains, signed, m)
  {
    ghost var was := heads[..];
    e.next := heads[b];
    heads[b] := e;
    hide Bucket;
    forall b | 0 <= b < |chains| ensures Homed(chains[b], b, |chains|, signed, m) && Chain(was[b], chains[b]) {
      PlacedHome(chains, signed, m, b);
      assert forall k {:trigger chains[b][k].next} :: 0 <= k < |chains[b]| ==> chains[b][k].next == old(chains[b][k].next);
    }
  }

  lemma TableSize(heads: seq<Entry?>, chains: seq<seq<Entry>>, signed: bool, m: map<bytes, Entry>)
    requires Table(heads, chains, signed, m)
    ensures |heads| == |chains| > 0
  {}

  lemma PlacedHome(chains: seq<seq<Entry>>, signed: bool, m: map<bytes, Entry>, i: nat)
    requires Placed(chains, signed, m) && i < |chains|
    ensures Homed(chains[i], i, |chains|, signed, m)
  {}

  lemma ChainCons(e: Entry, c: seq<Entry>)
    requires Chain(e.next, c)
    ensures Chain(e, [e] + c)
  {
    assert forall k {:trigger ([e] + c)[k].next} :: 0 <= k < |c| ==> ([e] + c)[k].next == ([e] + c)[k + 1] by {
      forall k {:trigger ([e] + c)[k].next} | 0 <= k < |c| ensures ([e] + c)[k].next == ([e] + c)[k + 1] {
        if k > 0 {
          assert c[k - 1].next == c[k];
        }
      }
    }
  }

  /** Move a chain to another table, entry by entry. */
  method MoveChain(head: Entry?, ghost c: seq<Entry>, heads: array<Entry?>, ghost chains: seq<seq<Entry>>, signed: bool,
      ghost m: map<bytes, Entry>)
    returns (ghost chains': seq<seq<Entry>>, ghost m': map<bytes, Entry>)
    requires Chain(head, c) && Table(heads[..], chains, signed, m)
    requires forall k :: 0 <= k < |c| ==> c[k].s !in m
    requires forall j, k :: 0 <= j < k < |c| ==> c[j].s != c[k].s
    modifies heads, (set k | 0 <= k < |c| :: c[k])`next
    ensures Table(heads[..], chains', signed, m') && |chains'| == |chains|
    ensures Extends(m, c, |c|, m')
  {
    hide Table, Bucket, Extends;
    var ent := head;
    chains', m' := chains, m;
    ExtendNone(m, c);
    ghost var k := 0;
    while ent != null
      invariant k <= |c| && ent == (if k < |c| then c[k] else null)
      invariant forall j {:trigger c[j].next} :: k <= j < |c| ==> c[j].next == old(c[j].next)
      invariant Table(heads[..], chains', signed, m') && |chains'| == |chains| && Extends(m, c, k, m')
      decreases |c| - k
    {
      var nent := ent.next;
      ExtendOne(m, c, k, m');
      chains' := Push(heads, ent, chains', signed, m');
      m' := m'[ent.s := ent];
      ent, k := nent, k + 1;
    }
  }

  /** The map with the first k entries of the chain added. */
  ghost predicate Extends(m: map<bytes, Entry>, c: seq<Entry>, k: nat, m': map<bytes, Entry>)
    requires k <= |c|
  {
    && (forall s :: s in m ==> s in m' && m'[s] == m[s])
    && (forall j :: 0 <= j < k ==> c[j].s in m' && m'[c[j].s] == c[j])
    && (forall s :: s in m' && s !in m ==> exists j :: 0 <= j < k && c[j].s == s)
  }

  lemma ExtendNone(m: map<bytes, Entry>, c: seq<Entry>)
    ensures Extends(m, c, 0, m)
  {}

  lemma ExtendOne(m: map<bytes, Entry>, c: seq<Entry>, k: nat, m': map<bytes, Entry>)
    requires k < |c| && Extends(m, c, k, m') && c[k].s !in m
    requires forall j :: 0 <= j < k ==> c[j].s != c[k].s
    ensures c[k].s !in m' && Extends(m, c, k + 1, m'[c[k].s := c[k]])
  {
    var m'' := m'[c[k].s := c[k]];
    forall s | s in m'' && s !in m ensures exists j :: 0 <= j < k + 1 && c[j].s == s {
      if s == c[k].s {
        assert c[k].s == s;
      }
    }
  }

  /** The loop that looks a key up in its bucket. */
  method Find(head: Entry?, s: bytes, ghost c: seq<Entry>) returns (ent: Entry?, prev: Entry?, ghost k: nat)
    requires Chain(head, c)
    ensures k <= |c| && forall j :: 0 <= j < k ==> c[j].s != s
    ensures if k < |c| then ent == c[k] && ent.s == s && prev == (if k == 0 then null else c[k - 1]) else ent == null
    ensures if ent == null then forall e :: e in c ==> e.s != s else ent in c && ent.s == s
    ensures ent != null ==> if prev == null then ent == head else prev in c && prev.next == ent && prev.s != s
  {
    ent, prev, k := head, null, 0;
    while ent != null && ent.s != s
      invariant k <= |c| && forall j :: 0 <= j < k ==> c[j].s != s
      invariant ent == (if k < |c| then c[k] else null)
      invariant prev == (if k == 0 then null else c[k - 1])
      decreases |c| - k
    {
      prev, ent, k := ent, ent.next, k + 1;
    }
  }

  /** What the search finds is what the map holds. */
  lemma FoundIff(heads: seq<Entry?>, chains: seq<seq<Entry>>, signed: bool, m: map<bytes, Entry>, s: bytes, k: nat)
    requires Table(heads, chains, signed, m)
    requires var c := chains[Bucket(s, signed, |chains|)];
      k <= |c| && (forall j :: 0 <= j < k ==> c[j].s != s) && (k < |c| ==> c[k].s == s)
    ensures var c := chains[Bucket(s, signed, |chains|)]; if k < |c| then s in m && m[s] == c[k] else s !in m
  {
    var b := Bucket(s, signed, |chains|);
    assert Homed(chains[b], b, |chains|, signed, m);
    if s in m {
      assert m[s] in chains[b] && m[s].s == s;
    }
  }

  /** Rows below i have been moved. */
  ghost predicate RowsMoved(chains: seq<seq<Entry>>, i: nat, m: map<bytes, Entry>, moved: map<bytes, Entry>) {
    && (forall s :: s in moved ==> s in m && moved[s] == m[s])
    && (forall b, k :: 0 <= b < |chains| && 0 <= k < |chains[b]| ==> (chains[b][k].s in moved <==> b < i))
  }

  lemma MoveRow(chains: seq<seq<Entry>>, i: nat, signed: bool, m: map<bytes, Entry>, moved: map<bytes, Entry>, moved': map<bytes, Entry>)
    requires Placed(chains, signed, m) && i < |chains| && RowsMoved(chains, i, m, moved)
    requires Extends(moved, chains[i], |chains[i]|, moved')
    ensures RowsMoved(chains, i + 1, m, moved')
  {
    hide Bucket;
    forall s | s in moved' ensures s in m && moved'[s] == m[s] {
      assert Homed(chains[i], i, |chains|, signed, m);
      if s in moved {
        assert moved[s] == m[s];
      }
    }
    forall b, k | 0 <= b < |chains| && 0 <= k < |chains[b]| ensures chains[b][k].s in moved' <==> b < i + 1 {
      assert Homed(chains[b], b, |chains|, signed, m) && Homed(chains[i], i, |chains|, signed, m);
    }
  }

  lemma AllMoved(chains: seq<seq<Entry>>, signed: bool, m: map<bytes, Entry>, moved: map<bytes, Entry>)
    requires Placed(chains, signed, m) && RowsMoved(chains, |chains|, m, moved)
    ensures moved == m
  {
    forall s | s in m ensures s in moved {
      var b := Bucket(s, signed, |chains|);
      var k :| 0 <= k < |chains[b]| && chains[b][k] == m[s];
    }
  }

  ghost predicate Linked(heads: seq<Entry?>, chains: seq<seq<Entry>>, i: nat, signed: bool, m: map<bytes, Entry>)
    requires Placed(chains, signed, m) && |heads| == |chains|
    reads m.Values`next
  {
    forall b :: i <= b < |chains| ==> Homed(chains[b], b, |chains|, signed, m) && Chain(heads[b], chains[b])
  }

  method MoveRowTo(was: seq<Entry?>, ghost chains: seq<seq<Entry>>, i: nat, signed: bool, ghost m: map<bytes, Entry>,
      heads: array<Entry?>, ghost chains0: seq<seq<Entry>>, ghost moved0: map<bytes, Entry>)
    returns (ghost chains': seq<seq<Entry>>, ghost moved: map<bytes, Entry>)
    requires Placed(chains, signed, m) && i < |was| == |chains| && Linked(was, chains, i, signed, m)
    requires RowsMoved(chains, i, m, moved0) && Table(heads[..], chains0, signed, moved0)
    modifies heads, m.Values`next
    ensures RowsMoved(chains, i + 1, m, moved) && Table(heads[..], chains', signed, moved) && |chains'| == |chains0|
    ensures Linked(was, chains, i + 1, signed, m)
  {
    hide Bucket, Placed, Table, RowsMoved;
    RowKeys(chains, i, signed, m, moved0);
    chains', moved := MoveOneRow(was[i], chains, i, signed, m, heads, chains0, moved0);
    forall b | i + 1 <= b < |chains| ensures Homed(chains[b], b, |chains|, signed, m) && Chain(was[b], chains[b]) {
      PlacedHome(chains, signed, m, b);
      PlacedHome(chains, signed, m, i);
      assert forall k {:trigger chains[b][k].next} :: 0 <= k < |chains[b]| ==> chains[b][k].next == old(chains[b][k].next);
    }
  }

  /** One row of the old index, relinked into the new one. */
  method MoveOneRow(head: Entry?, ghost chains: seq<seq<Entry>>, i: nat, signed: bool, ghost m: map<bytes, Entry>,
      heads: array<Entry?>, ghost chains0: seq<seq<Entry>>, ghost moved0: map<bytes, Entry>)
    returns (ghost chains': seq<seq<Entry>>, ghost moved: map<bytes, Entry>)
    requires Placed(chains, signed, m) && i < |chains| && Chain(head, chains[i])
    requires RowsMoved(chains, i, m, moved0) && Table(heads[..], chains0, signed, moved0)
    modifies heads, (set k | 0 <= k < |chains[i]| :: chains[i][k])`next
    ensures RowsMoved(chains, i + 1, m, moved) && Table(heads[..], chains', signed, moved) && |chains'| == |chains0|
  {
    hide *;
    RowKeys(chains, i, signed, m, moved0);
    chains', moved := MoveChain(head, chains[i], heads, chains0, signed, moved0);
    MoveRow(chains, i, signed, m, moved0, moved);
  }

  lemma RowKeys(chains: seq<seq<Entry>>, i: nat, signed: bool, m: map<bytes, Entry>, moved: map<bytes, Entry>)
    requires Placed(chains, signed, m) && i < |chains| && RowsMoved(chains, i, m, moved)
    ensures var c := chains[i];
      && (forall k :: 0 <= k < |c| ==> c[k].s !in moved && c[k] in m.Values)
      && (forall j, k :: 0 <= j < k < |c| ==> c[j].s != c[k].s)
  {
    assert Homed(chains[i], i, |chains|, signed, m);
  }

  /** What strhash_grow does with the old and the new index. */
  method MoveAll(was: seq<Entry?>, ghost chains: seq<seq<Entry>>, signed: bool, ghost m: map<bytes, Entry>, heads: array<Entry?>)
    returns (ghost chains': seq<seq<Entry>>)
    requires Table(was, chains, signed, m) && heads.Length > 0
    requires forall b :: 0 <= b < heads.Length ==> heads[b] == null
    modifies heads, m.Values`next
    ensures Table(heads[..], chains', signed, m) && |chains'| == heads.Length
  {
    hide Table, Placed, RowsMoved, Linked;
    ghost var moved: map<bytes, Entry> := map[];
    chains' := seq(heads.Length, _ => []);
    EmptyTable(heads[..], chains', signed);
    NoneMoved(was, chains, signed, m);
    var i := 0;
    while i < |was|
      invariant i <= |was| == |chains|
      invariant Placed(chains, signed, m) && Linked(was, chains, i, signed, m)
      invariant RowsMoved(chains, i, m, moved) && Table(heads[..], chains', signed, moved) && |chains'| == heads.Length
    {
      chains', moved := MoveRowTo(was, chains, i, signed, m, heads, chains', moved);
      i := i + 1;
    }
    AllMoved(chains, signed, m, moved);
  }

  lemma NoneMoved(heads: seq<Entry?>, chains: seq<seq<Entry>>, signed: bool, m: map<bytes, Entry>)
    requires Table(heads, chains, signed, m)
    ensures Placed(chains, signed, m) && |heads| == |chains| && Linked(heads, chains, 0, signed, m)
    ensures RowsMoved(chains, 0, m, map[])
  {}

  lemma EmptyTable(heads: seq<Entry?>, chains: seq<seq<Entry>>, signed: bool)
    requires |heads| == |chains| > 0
    requires forall b :: 0 <= b < |heads| ==> heads[b] == null && chains[b] == []
    ensures Table(heads, chains, signed, map[])
  {}

  // ------------------------------------------------------------ taking an entry out

  /** Link around an entry of a chain. */
  method Skip(heads: array<Entry?>, b: nat, ent: Entry, prev: Entry?, ghost c: seq<Entry>, ghost k: nat)
    requires b < heads.Length && Chain(heads[b], c) && k < |c| && c[k] == ent
    requires prev == if k == 0 then null else c[k - 1]
    requires forall i, j :: 0 <= i < j < |c| ==> c[i] != c[j]
    modifies heads, (if prev == null then {} else {prev})`next
    ensures Chain(heads[b], c[..k] + c[k + 1..])
    ensures forall i :: 0 <= i < heads.Length && i != b ==> heads[i] == old(heads[i])
  {
    if prev != null {
      prev.next := ent.next;
    } else {
      heads[b] := ent.next;
    }
    ghost var d := c[..k] + c[k + 1..];
    forall j {:trigger d[j].next} | 0 <= j < |d| - 1 ensures d[j].next == d[j + 1] {
      if j + 1 < k {
        assert old(c[j].next) == c[j + 1];
      } else if j >= k {
        assert old(c[j + 1].next) == c[j + 2];
      } else {
        assert old(c[k].next) == c[k + 1];
      }
    }
  }

  /** Take an entry out of its bucket. */
  method Unlink(heads: array<Entry?>, b: nat, ent: Entry, prev: Entry?, ghost chains: seq<seq<Entry>>, signed: bool,
      ghost m: map<bytes, Entry>, ghost k: nat)
    requires Table(heads[..], chains, signed, m) && b < |chains| && k < |chains[b]| && ent == chains[b][k]
    requires prev == if k == 0 then null else chains[b][k - 1]
    modifies heads, m.Values`next
    ensures Table(heads[..], chains[b := chains[b][..k] + chains[b][k + 1..]], signed, m - {ent.s})
  {
    SkipIn(heads, b, ent, prev, chains, signed, m, k);
    TableDrop(heads[..], chains, signed, m, b, k);
  }

  /** Every other chain survives. */
  method SkipIn(heads: array<Entry?>, b: nat, ent: Entry, prev: Entry?, ghost chains: seq<seq<Entry>>, signed: bool,
      ghost m: map<bytes, Entry>, ghost k: nat)
    requires Table(heads[..], chains, signed, m) && b < |chains| && k < |chains[b]| && ent == chains[b][k]
    requires prev == if k == 0 then null else chains[b][k - 1]
    modifies heads, m.Values`next
    ensures Chain(heads[b], chains[b][..k] + chains[b][k + 1..])
    ensures forall i :: 0 <= i < |chains| && i != b ==> Chain(heads[i], chains[i])
  {
    hide Bucket;
    PlacedHome(chains, signed, m, b);
    Skip(heads, b, ent, prev, chains[b], k);
    forall i | 0 <= i < |chains| && i != b ensures Chain(heads[i], chains[i]) {
      PlacedHome(chains, signed, m, i);
      Apart(chains, signed, m, b, k, i);
      assert forall j {:trigger chains[i][j].next} :: 0 <= j < |chains[i]| ==> chains[i][j].next == old(chains[i][j].next);
    }
  }

  lemma Apart(chains: seq<seq<Entry>>, signed: bool, m: map<bytes, Entry>, b: nat, k: nat, i: nat)
    requires Placed(chains, signed, m) && b < |chains| && i < |chains| && i != b && k < |chains[b]|
    ensures k > 0 ==> chains[b][k - 1] !in chains[i]
  {
    PlacedHome(chains, signed, m, b);
    PlacedHome(chains, signed, m, i);
  }

  lemma TableDrop(heads: seq<Entry?>, chains: seq<seq<Entry>>, signed: bool, m: map<bytes, Entry>, b: nat, k: nat)
    requires Placed(chains, signed, m) && |heads| == |chains| && b < |chains| && k < |chains[b]|
    requires Chain(heads[b], chains[b][..k] + chains[b][k + 1..])
    requires forall i :: 0 <= i < |chains| && i != b ==> Chain(heads[i], chains[i])
    ensures Table(heads, chains[b := chains[b][..k] + chains[b][k + 1..]], signed, m - {chains[b][k].s})
  {
    hide Chain, Bucket;
    PlacedDrop(chains, signed, m, b, k);
  }
}
