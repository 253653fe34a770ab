/** The puller's tokens (xml/xml_puller.c): the queue of pending tokens, the token lent to the
    client until its next call, the free list, and the tokens the client keeps. */
module TokenPool {
  import opened Common
  import E = XmlEvents

  /** Where a token is. Its strings are live unless it is Free or Gone (returned to malloc). */
  datatype Place = Queued | Lent | Free | Building | Held | Gone

  class Node {
    var next: Node?
    var val: E.Token
    ghost var place: Place
    ghost var pos: int      // its number in the queue or on the free list

    constructor (val: E.Token)
      ensures next == null && this.val == val && place == Building
    {
      this.next, this.val, place, pos := null, val, Building, 0;
    }
  }

  /** No string to free. */
  predicate Bare(t: E.Token) {
    t.name == None && t.data == None && t.pubid == None && t.attrs == []
  }

  function Blank(kind: E.Kind): (t: E.Token)
    ensures Bare(t)
  {
    E.Token(kind, None, None, None, 0, [], E.Spot(0, 0, 0))
  }

  /** tok_head and tok_tail: the pending tokens, first in first out. */
  class Queue {
    var head: Node?
    var tail: Node?
    ghost var nodes: seq<Node>
    ghost var vals: seq<E.Token>    // what the pending tokens hold
    ghost var popped: nat

    ghost predicate Valid()
      reads this, nodes
    {
      && head == (if nodes == [] then null else nodes[0])
      && (nodes != [] ==> tail == nodes[|nodes| - 1])
      && |vals| == |nodes|
      && (forall i :: 0 <= i < |nodes| ==>
            nodes[i].place == Queued && nodes[i].pos == popped + i && nodes[i].val == vals[i])
      && (forall i {:trigger nodes[i].next} :: 0 <= i < |nodes| ==>
            nodes[i].next == if i + 1 < |nodes| then nodes[i + 1] else null)
    }

    constructor ()
      ensures Valid() && nodes == []
    {
      head, tail, nodes, vals, popped := null, null, [], [], 0;
    }

    /** token_enqueue: tok_tail may be stale when the queue is empty, and is not read then. */
    method Append(tok: Node)
      requires Valid() && tok.place == Building && tok.next == null
      modifies this, tok`pos, tok`place, (if head != null then {tail} else {})`next
      ensures Valid() && nodes == old(nodes) + [tok] && vals == old(vals) + [tok.val]
    {
      assert tok !in nodes;
      LinkLast(tok);
      tok.pos, tok.place := popped + |nodes|, Queued;
      nodes, vals := nodes + [tok], vals + [tok.val];
    }

    method LinkLast(tok: Node)
      requires Valid() && tok !in nodes && tok.next == null
      modifies this`head, this`tail, (if head != null then {tail} else {})`next
      ensures tail == tok && head == if nodes == [] then tok else nodes[0]
      ensures forall i {:trigger nodes[i].next} :: 0 <= i < |nodes| ==>
        nodes[i].next == if i + 1 < |nodes| then nodes[i + 1] else tok
    {
      if head == null {
        head := tok;
      } else {
        tail.next := tok;
      }
      tail := tok;
    }

    /** The end of XML_PullerNext: the first pending token leaves the queue. */
    method Pop() returns (tok: Node)
      requires Valid() && head != null
      modifies this, head`next, head`place
      ensures Valid() && old(nodes) == [tok] + nodes && old(vals) == [tok.val] + vals
      ensures tok.next == null && tok.place == Lent
    {
      tok := head;
      head := head.next;
      tok.next, tok.place := null, Lent;
      nodes, vals, popped := nodes[1..], vals[1..], popped + 1;
    }
  }

  /** free_list: last in first out. */
  class FreeList {
    var head: Node?
    ghost var nodes: seq<Node>

    ghost predicate Valid()
      reads this, nodes
    {
      && head == (if nodes == [] then null else nodes[0])
      && (forall i :: 0 <= i < |nodes| ==> nodes[i].place == Free && nodes[i].pos == |nodes| - i)
      && (forall i {:trigger nodes[i].next} :: 0 <= i < |nodes| ==>
            nodes[i].next == if i + 1 < |nodes| then nodes[i + 1] else null)
    }

    constructor ()
      ensures Valid() && nodes == []
    {
      head, nodes := null, [];
    }

    /** token_release: only a token without strings, or with freed ones, goes on the free list. */
    method Push(tok: Node)
      requires Valid() && tok.place != Free && Bare(tok.val)
      modifies this, tok`next, tok`pos, tok`place
      ensures Valid() && nodes == [tok] + old(nodes)
    {
      tok.next := head;
      head := tok;
      tok.pos, tok.place := |nodes| + 1, Free;
      nodes := [tok] + nodes;
    }

    method Pop(kind: E.Kind) returns (tok: Node)
      requires Valid() && head != null
      modifies this, head
      ensures Valid() && old(nodes) == [tok] + nodes
      ensures tok.next == null && tok.val == Blank(kind) && tok.place == Building
    {
      tok := head;
      head := tok.next;
      tok.next, tok.val, tok.place := null, Blank(kind), Building;
      nodes := nodes[1..];
    }
  }

  ghost function Count(n: Node?): nat { if n == null then 0 else 1 }

  class Pool {
    const queue: Queue
    const freeList: FreeList
    var toBeFreed: Node?
    ghost var building: Node?         // handed out, not yet enqueued
    ghost var held: set<Node>         // owned by the client
    ghost var mallocs: nat            // tokens obtained from malloc
    ghost var frees: nat              // tokens returned to it
    ghost var all: set<Node>          // every token ever seen

    /** Each place holds different tokens, and together they hold as many as malloc has given out: none
        has been returned yet. */
    ghost predicate Valid()
      reads this, queue, freeList, all
    {
      && (forall n :: n in queue.nodes ==> n in all)
      && (forall n :: n in freeList.nodes ==> n in all)
      && queue.Valid() && freeList.Valid()
      && (toBeFreed != null ==> toBeFreed in all && toBeFreed.place == Lent && toBeFreed.next == null)
      && (building != null ==> building in all && building.place == Building)
      && held <= all && (forall n :: n in held ==> n.place == Held)
      && mallocs == |queue.nodes| + |freeList.nodes| + Count(toBeFreed) + Count(building) + |held|
      && mallocs == |all| && frees == 0
    }

    constructor ()
      ensures Valid() && queue.vals == [] && held == {} && building == null && toBeFreed == null
      ensures fresh(queue) && fresh(freeList) && all == {}
    {
      queue := new Queue();
      freeList := new FreeList();
      toBeFreed := null;
      building, held, mallocs, frees, all := null, {}, 0, 0, {};
    }

    /** tok_head is NULL. */
    predicate Empty()
      requires Valid()
      reads this, queue, freeList, all
      ensures Empty() <==> queue.vals == []
    {
      queue.head == null
    }

    /** token_get_internal: reuse a freed token or allocate one, and wipe it. */
    method Get(kind: E.Kind) returns (tok: Node)
      requires Valid() && building == null
      modifies this`building, this`all, this`mallocs, freeList, freeList.head
      ensures Valid() && building == tok && all == old(all) + {tok}
      ensures tok == old(freeList.head) || fresh(tok)
      ensures tok.val == Blank(kind) && tok.next == null
    {
      if freeList.head != null {
        tok := Reuse(kind);
      } else {
        tok := Alloc(kind);
      }
    }

    method Reuse(kind: E.Kind) returns (tok: Node)
      requires Valid() && building == null && freeList.head != null
      modifies this`building, freeList, freeList.head
      ensures Valid() && building == tok == old(freeList.head)
      ensures tok.val == Blank(kind) && tok.next == null && tok in all
    {
      tok := freeList.Pop(kind);
      building := tok;
    }

    method Alloc(kind: E.Kind) returns (tok: Node)
      requires Valid() && building == null
      modifies this`building, this`all, this`mallocs
      ensures Valid() && building == tok && all == old(all) + {tok} && fresh(tok)
      ensures tok.val == Blank(kind) && tok.next == null
    {
      hide queue.Valid, freeList.Valid;
      tok := new Node(Blank(kind));
      all, mallocs, building := all + {tok}, mallocs + 1, tok;
    }

    /** A handler fills in the token it was given. */
    method Fill(tok: Node, val: E.Token)
      requires Valid() && building == tok
      modifies tok`val
      ensures Valid() && tok.val == val
    {
      tok.val := val;
    }

    method Release(tok: Node)
      requires Valid() && building == tok && Bare(tok.val)
      modifies this`building, freeList, tok
      ensures Valid() && building == null
    {
      freeList.Push(tok);
      building := null;
    }

    method Enqueue(tok: Node)
      requires Valid() && building == tok && tok.next == null
      modifies this`building, queue, tok`pos, tok`place, (if queue.head != null then {queue.tail} else {})`next
      ensures Valid() && building == null
      ensures queue.vals == old(queue.vals) + [tok.val]
    {
      queue.Append(tok);
      building := null;
    }

    /** XML_PullerFreeTokenData: free the strings of a token, then keep it for reuse. */
    method FreeTokenData(tok: Node)
      requires Valid() && tok == building
      modifies this`building, freeList, tok
      ensures Valid() && building == null
    {
      tok.val := Blank(tok.val.kind);
      Release(tok);
    }

    /** The client's call of XML_PullerFreeTokenData, on a token it took over. */
    method FreeHeld(tok: Node)
      requires Valid() && building == null && tok in held
      modifies this`building, this`held, freeList, tok
      ensures Valid() && building == null
      ensures held == old(held) - {tok}
    {
      building, held, tok.place := tok, held - {tok}, Building;
      FreeTokenData(tok);
    }

    /** A handler's whole use of a token that it fills and enqueues. */
    method Add(val: E.Token)
      requires Valid() && building == null
      modifies this`building, this`all, this`mallocs, queue, freeList, all - held
      ensures Valid() && building == null && fresh(all - old(all))
      ensures queue.vals == old(queue.vals) + [val]
    {
      var tok := Get(val.kind);
      Put(tok, val);
    }

    /** A token under construction is filled and enqueued. */
    method Put(tok: Node, val: E.Token)
      requires Valid() && building == tok && tok.next == null
      modifies this`building, queue, tok, (if queue.head != null then {queue.tail} else {})`next
      ensures Valid() && building == null
      ensures queue.vals == old(queue.vals) + [val]
    {
      Fill(tok, val);
      Enqueue(tok);
    }

    /** A handler's whole use of a token it gives up, with whatever strings it has by then. */
    method Abandon(val: E.Token)
      requires Valid() && building == null
      modifies this`building, this`all, this`mallocs, freeList, all - held
      ensures Valid() && building == null && fresh(all - old(all))
    {
      var tok := Get(val.kind);
      Fill(tok, val);
      FreeTokenData(tok);
    }

    /** The start of XML_PullerNext: the token lent by the last call is freed. */
    method Recycle()
      requires Valid() && building == null
      modifies this`building, this`toBeFreed, freeList, all - held
      ensures Valid() && toBeFreed == null && building == null
    {
      if toBeFreed != null {
        var tok := toBeFreed;
        toBeFreed := null;
        tok.place := Building;
        building := tok;
        FreeTokenData(tok);
      }
    }

    /** The end of XML_PullerNext: the first pending token is lent to the client. */
    method Lend() returns (tok: Node)
      requires Valid() && !Empty() && toBeFreed == null
      modifies this`toBeFreed, queue, all - held
      ensures Valid() && toBeFreed == tok && tok in all && tok !in held
      ensures old(queue.vals) == [tok.val] + queue.vals
    {
      tok := queue.Pop();
      toBeFreed := tok;
    }

    /** XML_PullerNext_m: the client takes over the token it was lent, if any. */
    method Give()
      requires Valid()
      modifies this`toBeFreed, this`held, (if toBeFreed == null then {} else {toBeFreed})`place
      ensures Valid() && toBeFreed == null
      ensures held == old(held) + (if old(toBeFreed) == null then {} else {old(toBeFreed)})
    {
      if toBeFreed != null {
        TakeOver(toBeFreed);
      }
    }

    method TakeOver(tok: Node)
      requires Valid() && tok == toBeFreed
      modifies this`toBeFreed, this`held, tok`place
      ensures Valid() && toBeFreed == null && held == old(held) + {tok}
    {
      assert tok !in queue.nodes && tok !in freeList.nodes && tok !in held;
      hide queue.Valid, freeList.Valid;
      tok.place := Held;
      held, toBeFreed := held + {tok}, null;
    }

    /** free_token_list: return a list of tokens to malloc, with their strings when they are live. */
    method FreeTokenList(first: Node?, contents: bool, ghost nodes: seq<Node>)
      requires Listed(first, nodes)
      requires forall n :: n in nodes ==> n.place != Gone && (contents <==> n.place != Free)
      modifies this`frees, nodes`place
      ensures frees == old(frees) + |nodes| && forall n :: n in nodes ==> n.place == Gone
    {
      var tok := first;
      ghost var i := 0;
      while tok != null
        invariant 0 <= i <= |nodes| && tok == (if i < |nodes| then nodes[i] else null)
        invariant forall j :: 0 <= j < i ==> nodes[j].place == Gone
        invariant forall j :: i <= j < |nodes| ==> nodes[j].place == old(nodes[j].place)
        invariant frees == old(frees) + i
        decreases |nodes| - i
      {
        var next := tok.next;
        if contents {
          assert tok.place != Free && tok.place != Gone;    // its strings are freed once
        }
        assert tok.place != Gone;                           // and so is the token
        tok.place := Gone;
        frees := frees + 1;
        tok := next;
        i := i + 1;
      }
    }

    /** No token is anywhere else. */
    lemma Covers()
      requires Valid()
      ensures forall n :: n in all ==>
        n in queue.nodes || n in freeList.nodes || n == toBeFreed || n == building || n in held
    {
      Apart();
      DistinctSize(queue.nodes);
      DistinctSize(freeList.nodes);
      hide queue.Valid, freeList.Valid, Nodes, Node1;
      FiveSets(Nodes(queue.nodes), Nodes(freeList.nodes), Node1(toBeFreed), Node1(building), held, all);
      forall n | n in all
        ensures n in queue.nodes || n in freeList.nodes || n == toBeFreed || n == building || n in held
      {
        InNodes(queue.nodes, freeList.nodes, toBeFreed, building, n);
      }
    }

    /** The places share no token. */
    lemma Apart()
      requires Valid()
      ensures Nodes(queue.nodes) !! Nodes(freeList.nodes) !! Node1(toBeFreed) !! Node1(building) !! held
      ensures Nodes(queue.nodes) <= all && Nodes(freeList.nodes) <= all
      ensures Node1(toBeFreed) <= all && Node1(building) <= all
      ensures |Node1(toBeFreed)| == Count(toBeFreed) && |Node1(building)| == Count(building)
      ensures forall i, j :: 0 <= i < j < |queue.nodes| ==> queue.nodes[i] != queue.nodes[j]
      ensures forall i, j :: 0 <= i < j < |freeList.nodes| ==> freeList.nodes[i] != freeList.nodes[j]
    {
      SetsOf(queue.nodes, toBeFreed);
      SetsOf(freeList.nodes, building);
      hide Nodes, Node1;
      FivePlaces(Nodes(queue.nodes), Nodes(freeList.nodes), Node1(toBeFreed), Node1(building), held);
    }

    /** XML_PullerFree: of all tokens ever allocated, those the client holds are left to it, and every other
        one is returned, none twice. */
    method FreeAll()
      requires Valid() && building == null
      modifies this`frees, all`place
      ensures mallocs == |all| == |held| + frees
      ensures forall n :: n in all ==> n.place == (if n in held then Held else Gone)
    {
      Covers();
      Lists();
      ghost var lent := if toBeFreed == null then [] else [toBeFreed];
      hide Listed, this.Valid;
      FreeThree(lent, queue.nodes, freeList.nodes);
    }

    method FreeThree(ghost l: seq<Node>, ghost q: seq<Node>, ghost f: seq<Node>)
      requires Listed(toBeFreed, l) && Listed(queue.head, q) && Listed(freeList.head, f)
      requires forall n :: n in l ==> n.place == Lent
      requires forall n :: n in q ==> n.place == Queued
      requires forall n :: n in f ==> n.place == Free
      modifies this`frees, l`place, q`place, f`place
      ensures frees == old(frees) + |l| + |q| + |f|
      ensures forall n :: n in l || n in q || n in f ==> n.place == Gone
    {
      hide Listed;
      FreeTokenList(toBeFreed, true, l);
      FreeTokenList(queue.head, true, q);
      FreeTokenList(freeList.head, false, f);
    }

    lemma Lists()
      requires Valid()
      ensures Listed(toBeFreed, if toBeFreed == null then [] else [toBeFreed])
      ensures Listed(queue.head, queue.nodes) && Listed(freeList.head, freeList.nodes)
      ensures forall n :: n in queue.nodes ==> n.place == Queued && n != toBeFreed && n !in freeList.nodes && n !in held
      ensures forall n :: n in freeList.nodes ==> n.place == Free && n != toBeFreed && n !in held
      ensures toBeFreed != null ==> toBeFreed.place == Lent && toBeFreed !in held
      ensures forall n :: n in held ==> n.place == Held
      ensures |queue.nodes| + |freeList.nodes| + Count(toBeFreed) + Count(building) + |held| == mallocs == |all| && frees == 0
    {}
  }

  /** A list linked by next, without repetition. */
  ghost predicate Listed(first: Node?, nodes: seq<Node>)
    reads nodes`next
  {
    && first == (if nodes == [] then null else nodes[0])
    && (forall i {:trigger nodes[i].next} :: 0 <= i < |nodes| ==>
          nodes[i].next == if i + 1 < |nodes| then nodes[i + 1] else null)
    && (forall i, j :: 0 <= i < j < |nodes| ==> nodes[i] != nodes[j])
  }

  ghost function Nodes(ns: seq<Node>): set<Node> { set n | n in ns }

  ghost function Node1(n: Node?): set<Node> { if n == null then {} else {n} }

  lemma SetsOf(ns: seq<Node>, n: Node?)
    ensures forall x :: x in Nodes(ns) ==> x in ns
    ensures forall x :: x in Node1(n) ==> x == n
    ensures |Node1(n)| == Count(n)
  {}

  lemma FivePlaces(q: set<Node>, f: set<Node>, l: set<Node>, b: set<Node>, h: set<Node>)
    requires forall n :: n in q ==> n.place == Queued
    requires forall n :: n in f ==> n.place == Free
    requires forall n :: n in l ==> n.place == Lent
    requires forall n :: n in b ==> n.place == Building
    requires forall n :: n in h ==> n.place == Held
    ensures q !! f !! l !! b !! h
  {}

  lemma InNodes(q: seq<Node>, f: seq<Node>, l: Node?, b: Node?, n: Node)
    ensures n in Nodes(q) ==> n in q
    ensures n in Nodes(f) ==> n in f
    ensures n in Node1(l) ==> n == l
    ensures n in Node1(b) ==> n == b
  {}

  /** As many tokens as there are, in different places, are all of them. */
  lemma FiveSets(q: set<Node>, f: set<Node>, l: set<Node>, b: set<Node>, h: set<Node>, all: set<Node>)
    requires q !! f !! l !! b !! h && q <= all && f <= all && l <= all && b <= all && h <= all
    requires |q| + |f| + |l| + |b| + |h| == |all|
    ensures forall n :: n in all ==> n in q || n in f || n in l || n in b || n in h
  {
    var s := q + f + l + b + h;
    assert |s| == |q + f + l + b| + |h|;
    assert |q + f + l + b| == |q + f + l| + |b|;
    assert |q + f + l| == |q + f| + |l|;
    SameSize(s, all);
  }

  /** Different nodes are as many in the set as in the list. */
  lemma {:induction false} DistinctSize(ns: seq<Node>)
    requires forall i, j :: 0 <= i < j < |ns| ==> ns[i] != ns[j]
    ensures |Nodes(ns)| == |ns|
  {
    if ns != [] {
      var k := |ns| - 1;
      DistinctSize(ns[..k]);
      assert ns == ns[..k] + [ns[k]];
      assert Nodes(ns) == Nodes(ns[..k]) + {ns[k]};
      assert ns[k] !in Nodes(ns[..k]);
    }
  }

  lemma SameSize(xs: set<Node>, ys: set<Node>)
    requires xs <= ys && |xs| == |ys|
    ensures xs == ys
  {
    assert |ys - xs| == |ys| - |xs|;
  }
}
