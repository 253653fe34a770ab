/** Nothing is lost, doubled or reordered between the callbacks and the tokens: both come to the same characters
    and events. */
module XmlTokens {
  import opened Common
  import opened XmlEvents
  import opened XmlRun

  /** One byte of data of a kind, or a token that is no data. */
  datatype Atom = Char(kind: Kind, b: byte) | Whole(tok: Token)

  predicate IsData(kind: Kind) { kind == CharData || kind == Unparsed }

  ghost function Chars(kind: Kind, text: bytes): seq<Atom> {
    if text == [] then [] else [Char(kind, text[0])] + Chars(kind, text[1..])
  }

  ghost function OfToken(t: Token): seq<Atom> {
    if IsData(t.kind) then (if t.data.Some? then Chars(t.kind, t.data.value) else []) else [Whole(t)]
  }

  ghost function OfTokens(toks: seq<Token>): seq<Atom> { if toks == [] then [] else OfToken(toks[0]) + OfTokens(toks[1..]) }

  /** What an item brings: its data, or the token it asks for. */
  ghost function OfItem(item: Item, prev: Origin): seq<Atom> {
    if item.Call? && item.cb.event.TextEvent? then Chars(item.cb.event.kind, item.cb.event.text)
    else if IsToken(item) then [Whole(TokenOf(item, prev))]
    else []
  }

  function After(item: Item, prev: Origin): Origin {
    if item.DocEnd? && item.restart then SetRowCol(prev, item.at) else prev
  }

  ghost function OfItems(items: seq<Item>, prev: Origin): seq<Atom>
    decreases |items|
  {
    if items == [] then [] else OfItem(items[0], prev) + OfItems(items[1..], After(items[0], prev))
  }

  predicate IsMark(kind: Kind) { kind == StartCData || kind == EndCData || kind == EndDoct }

  /** Data comes from the two handlers of data, and the events without an argument from the three of theirs. */
  ghost predicate KindOk(ev: Event) { (ev.TextEvent? ==> IsData(ev.kind)) && (ev.MarkEvent? ==> IsMark(ev.kind)) }

  ghost predicate Kinds(items: seq<Item>) { forall i :: 0 <= i < |items| && items[i].Call? ==> KindOk(items[i].cb.event) }

  /** No error, and nothing is left pending. */
  ghost predicate Complete(items: seq<Item>) {
    && (forall i :: 0 <= i < |items| ==> !items[i].Fail?)
    && (items != [] ==> !(items[|items| - 1].Call? && items[|items| - 1].cb.event.TextEvent?))
  }

  lemma {:induction false} CharsAppend(kind: Kind, a: bytes, b: bytes)
    ensures Chars(kind, a + b) == Chars(kind, a) + Chars(kind, b)
    decreases |a|
  {
    if a == [] {
      assert a + b == b;
    } else {
      assert (a + b)[1..] == a[1..] + b;
      CharsAppend(kind, a[1..], b);
    }
  }

  /** A run of data of one kind brings its text. */
  lemma {:induction false} OfRun(items: seq<Item>, n: nat, kind: Kind, prev: Origin)
    requires n <= |items| && forall i :: 0 <= i < n ==> IsText(items[i], kind)
    ensures OfItems(items, prev) == Chars(kind, Texts(items[..n])) + OfItems(items[n..], prev)
    decreases n
  {
    if n == 0 {
      assert items[..0] == [] && items[0..] == items;
    } else {
      assert IsText(items[0], kind);
      var text, rest := items[0].cb.event.text, items[1..];
      OfRun(rest, n - 1, kind, prev);
      assert items[..n][1..] == rest[..n - 1] && rest[n - 1..] == items[n..];
      CharsAppend(kind, text, Texts(rest[..n - 1]));
      ConcatAssoc(Chars(kind, text), Chars(kind, Texts(rest[..n - 1])), OfItems(items[n..], prev));
    }
  }

  lemma {:induction false} TextTokenData(items: seq<Item>, kind: Kind, prev: Origin)
    requires (forall i :: 0 <= i < |items| ==> IsText(items[i], kind)) && Texts(items) != []
    ensures TextToken(items, kind, prev).kind == kind && TextToken(items, kind, prev).data == Some(Texts(items))
    decreases |items|
  {
    assert IsText(items[0], kind);
    if items[0].cb.event.text == [] {
      TextTokenData(items[1..], kind, prev);
      assert Texts(items) == Texts(items[1..]);
    }
  }

  lemma OfCons(t: Token, toks: seq<Token>)
    ensures OfTokens([t] + toks) == OfToken(t) + OfTokens(toks)
  {
    assert ([t] + toks)[1..] == toks;
  }

  lemma TokenKind(item: Item, prev: Origin)
    requires IsToken(item) && Kinds([item])
    ensures !IsData(TokenOf(item, prev).kind)
  {
    assert [item][0] == item;
  }

  /** The tokens of a complete run, before their conversion, are its data and its events, in order. */
  lemma {:induction false} AllThere(items: seq<Item>, prev: Origin)
    requires Kinds(items) && Complete(items)
    ensures OfTokens(Coalesce(items, prev)) == OfItems(items, prev)
    decreases |items|
  {
    if items == [] {
    } else if items[0].Flush? {
      AllThere(items[1..], prev);
    } else if items[0].Call? && items[0].cb.event.TextEvent? {
      var n := RunLength(items, items[0].cb.event.kind);
      assert n < |items| by {
        assert n == |items| ==> IsText(items[|items| - 1], items[0].cb.event.kind);
      }
      AllThere(items[n..], prev);
      hide *;
      RunThere(items, prev, n);
    } else {
      assert Kinds([items[0]]) && Kinds(items[1..]) && Complete(items[1..]) && IsToken(items[0]);
      AllThere(items[1..], After(items[0], prev));
      hide *;
      TokenThere(items, prev);
    }
  }

  lemma RunThere(items: seq<Item>, prev: Origin, n: nat)
    requires items != [] && items[0].Call? && items[0].cb.event.TextEvent? && KindOk(items[0].cb.event)
    requires n == RunLength(items, items[0].cb.event.kind) && n < |items| && !items[n].Fail?
    requires OfTokens(Coalesce(items[n..], prev)) == OfItems(items[n..], prev)
    ensures OfTokens(Coalesce(items, prev)) == OfItems(items, prev)
  {
    var kind, rest := items[0].cb.event.kind, Coalesce(items[n..], prev);
    CoalesceText(items, prev, n);
    OfRun(items, n, kind, prev);
    hide Coalesce, OfItems, RunLength;
    if Texts(items[..n]) == [] {
      assert [] + rest == rest;
    } else {
      TextTokenData(items[..n], kind, prev);
      hide TextToken, Texts;
      OfCons(TextToken(items[..n], kind, prev), rest);
    }
  }

  lemma TokenThere(items: seq<Item>, prev: Origin)
    requires items != [] && IsToken(items[0]) && Kinds([items[0]])
    requires var next := After(items[0], prev); OfTokens(Coalesce(items[1..], next)) == OfItems(items[1..], next)
    ensures OfTokens(Coalesce(items, prev)) == OfItems(items, prev)
  {
    CoalesceToken(items, prev);
    TokenKind(items[0], prev);
    hide Coalesce, TokenOf;
    OfCons(TokenOf(items[0], prev), Coalesce(items[1..], After(items[0], prev)));
  }

  /** No token of data is empty. */
  lemma {:induction false} NoneEmpty(items: seq<Item>, prev: Origin)
    requires Kinds(items)
    ensures forall i :: 0 <= i < |Coalesce(items, prev)| && IsData(Coalesce(items, prev)[i].kind) ==>
      Coalesce(items, prev)[i].data.Some? && Coalesce(items, prev)[i].data.value != []
    decreases |items|
  {
    if items == [] || items[0].Fail? {
    } else if items[0].Flush? {
      NoneEmpty(items[1..], prev);
    } else if items[0].Call? && items[0].cb.event.TextEvent? {
      var kind := items[0].cb.event.kind;
      var n := RunLength(items, kind);
      CoalesceText(items, prev, n);
      if n < |items| && !items[n].Fail? {
        NoneEmpty(items[n..], prev);
        if Texts(items[..n]) != [] {
          TextTokenData(items[..n], kind, prev);
        }
      }
    } else {
      CoalesceToken(items, prev);
      assert Kinds([items[0]]);
      TokenKind(items[0], prev);
      NoneEmpty(items[1..], After(items[0], prev));
    }
  }

  // ------------------------------------------------------------ a whole run

  /** Assumed of Expat: each handler is called for what it is for. */
  ghost predicate Sorted(x: Expat) {
    forall d, fed, final :: var o := Parse(x, d, fed, final);
      forall i :: 0 <= i < |o.calls| ==> KindOk(o.calls[i].event)
  }

  lemma {:induction false} CallKinds(calls: seq<Callback>)
    requires forall i :: 0 <= i < |calls| ==> KindOk(calls[i].event)
    ensures Kinds(CallItems(calls))
    decreases |calls|
  {
    if calls != [] {
      CallKinds(calls[1..]);
    }
  }

  lemma KindsAppend(xs: seq<Item>, ys: seq<Item>)
    requires Kinds(xs) && Kinds(ys)
    ensures Kinds(xs + ys)
  {}

  lemma {:induction false} FedKinds(x: Expat, d: nat, fed: seq<bytes>)
    requires Sorted(x)
    ensures Kinds(FedItems(x, d, fed))
    decreases |fed|
  {
    if fed != [] {
      FedKinds(x, d, fed[..|fed| - 1]);
      CallKinds(Parse(x, d, fed, false).calls);
      hide Kinds;
      KindsAppend(FedItems(x, d, fed[..|fed| - 1]), CallItems(Parse(x, d, fed, false).calls));
    }
  }

  lemma {:induction false} DocKinds(x: Expat, docs: seq<Doc>)
    requires Sorted(x)
    ensures Kinds(DocItems(x, docs))
    decreases |docs|
  {
    if docs != [] {
      var d := |docs| - 1;
      var end := [DocEnd(PlaceOf(x, d, docs[d].fed), true)];
      DocKinds(x, docs[..d]);
      FedKinds(x, d, docs[d].fed);
      assert Kinds(end);
      hide Kinds;
      KindsAppend(DocItems(x, docs[..d]), FedItems(x, d, docs[d].fed));
      KindsAppend(DocItems(x, docs[..d]) + FedItems(x, d, docs[d].fed), end);
    }
  }

  lemma EndKinds(x: Expat, d: nat, fed: seq<bytes>, multi: bool)
    requires Sorted(x) && Parse(x, d, fed + [[]], true).ok
    ensures var end := EndItems(x, d, fed, AtEof, multi); Kinds(end) && end != [] && Complete(end)
  {
    var calls := Parse(x, d, fed + [[]], true).calls;
    CallKinds(calls);
    CallsOnly(calls);
  }

  /** A file read to its end without an error: its tokens are the data and the events of all its documents, in
      order, an END_DOCUMENT after each when several are wanted. */
  lemma WholeRun(x: Expat, docs: seq<Doc>, fed: seq<bytes>, multi: bool)
    requires Sorted(x) && Verdict(x, |docs|, fed, AtEof) == None
    ensures var items := RunItems(x, docs, fed, AtEof, multi);
      && OfTokens(Coalesce(items, FIRST)) == OfItems(items, FIRST)
      && Ends(Coalesce(items, FIRST)) == if multi then |docs| + 1 else |docs|
  {
    var d := |docs|;
    var done, own, end := DocItems(x, docs), FedItems(x, d, fed), EndItems(x, d, fed, AtEof, multi);
    var items := RunItems(x, docs, fed, AtEof, multi);
    DocKinds(x, docs);
    FedKinds(x, d, fed);
    EndKinds(x, d, fed, multi);
    DocsNoFail(x, docs);
    FedCallsOnly(x, d, fed);
    EndsOfRun(x, docs, fed, multi);
    assert items == done + own + end && items[|items| - 1] == end[|end| - 1] && Complete(items);
    hide DocItems, FedItems, EndItems, RunItems, Kinds, Complete, Sorted, Verdict;
    KindsAppend(done, own);
    KindsAppend(done + own, end);
    AllThere(items, FIRST);
    EndsThere(items, FIRST);
  }

  const FIRST: Origin := Origin(1, 1)

  /** The END_DOCUMENT tokens. */
  ghost function Ends(toks: seq<Token>): nat {
    if toks == [] then 0 else (if toks[0].kind == EndDocument then 1 else 0) + Ends(toks[1..])
  }

  /** The ends of documents. */
  ghost function DocEnds(items: seq<Item>): nat {
    if items == [] then 0 else (if items[0].DocEnd? then 1 else 0) + DocEnds(items[1..])
  }

  lemma EndsCons(t: Token, toks: seq<Token>)
    ensures Ends([t] + toks) == (if t.kind == EndDocument then 1 else 0) + Ends(toks)
  {
    assert ([t] + toks)[1..] == toks;
  }

  lemma {:induction false} DocEndsAppend(xs: seq<Item>, ys: seq<Item>)
    ensures DocEnds(xs + ys) == DocEnds(xs) + DocEnds(ys)
    decreases |xs|
  {
    if xs == [] {
      assert xs + ys == ys;
    } else {
      assert (xs + ys)[1..] == xs[1..] + ys;
      DocEndsAppend(xs[1..], ys);
    }
  }

  lemma {:induction false} NoDocEnds(items: seq<Item>)
    requires forall i :: 0 <= i < |items| ==> !items[i].DocEnd?
    ensures DocEnds(items) == 0
    decreases |items|
  {
    if items != [] {
      NoDocEnds(items[1..]);
    }
  }

  lemma {:induction false} EndsThere(items: seq<Item>, prev: Origin)
    requires Kinds(items) && Complete(items)
    ensures Ends(Coalesce(items, prev)) == DocEnds(items)
    decreases |items|
  {
    if items == [] {
    } else if items[0].Flush? {
      EndsThere(items[1..], prev);
    } else if items[0].Call? && items[0].cb.event.TextEvent? {
      var kind := items[0].cb.event.kind;
      var n := RunLength(items, kind);
      assert n < |items| by {
        assert n == |items| ==> IsText(items[|items| - 1], kind);
      }
      assert IsData(kind) && !items[n].Fail?;
      EndsThere(items[n..], prev);
      SkipText(items, n, kind);
      CoalesceText(items, prev, n);
      hide Coalesce, DocEnds, Kinds, Complete;
      if Texts(items[..n]) == [] {
        assert [] + Coalesce(items[n..], prev) == Coalesce(items[n..], prev);
      } else {
        TextTokenData(items[..n], kind, prev);
        EndsCons(TextToken(items[..n], kind, prev), Coalesce(items[n..], prev));
      }
    } else {
      var next := After(items[0], prev);
      assert Kinds([items[0]]) && Kinds(items[1..]) && Complete(items[1..]);
      EndsThere(items[1..], next);
      CoalesceToken(items, prev);
      TokenEnds(items[0], prev);
      hide Coalesce, TokenOf, Kinds, Complete;
      EndsCons(TokenOf(items[0], prev), Coalesce(items[1..], next));
    }
  }

  lemma TokenEnds(item: Item, prev: Origin)
    requires IsToken(item) && Kinds([item])
    ensures TokenOf(item, prev).kind == EndDocument <==> item.DocEnd?
  {
    assert [item][0] == item;
  }

  lemma {:induction false} SkipText(items: seq<Item>, n: nat, kind: Kind)
    requires n <= |items| && forall i :: 0 <= i < n ==> IsText(items[i], kind)
    ensures DocEnds(items[n..]) == DocEnds(items)
    decreases n
  {
    if n == 0 {
      assert items[0..] == items;
    } else {
      assert IsText(items[0], kind);
      SkipText(items[1..], n - 1, kind);
      assert items[1..][n - 1..] == items[n..];
    }
  }

  lemma {:induction false} EndsOfDocs(x: Expat, docs: seq<Doc>)
    ensures DocEnds(DocItems(x, docs)) == |docs|
    decreases |docs|
  {
    if docs != [] {
      var d := |docs| - 1;
      var end := [DocEnd(PlaceOf(x, d, docs[d].fed), true)];
      EndsOfDocs(x, docs[..d]);
      FedCallsOnly(x, d, docs[d].fed);
      NoDocEnds(FedItems(x, d, docs[d].fed));
      DocEndsAppend(DocItems(x, docs[..d]), FedItems(x, d, docs[d].fed));
      DocEndsAppend(DocItems(x, docs[..d]) + FedItems(x, d, docs[d].fed), end);
      assert end[1..] == [];
    }
  }

  lemma EndsOfRun(x: Expat, docs: seq<Doc>, fed: seq<bytes>, multi: bool)
    requires Parse(x, |docs|, fed + [[]], true).ok
    ensures DocEnds(RunItems(x, docs, fed, AtEof, multi)) == if multi then |docs| + 1 else |docs|
  {
    var d, o := |docs|, Parse(x, |docs|, fed + [[]], true);
    var last := if multi then [DocEnd(o.place, false)] else [];
    EndsOfDocs(x, docs);
    FedCallsOnly(x, d, fed);
    NoDocEnds(FedItems(x, d, fed));
    CallsOnly(o.calls);
    NoDocEnds(CallItems(o.calls) + [Flush]);
    DocEndsAppend(DocItems(x, docs), FedItems(x, d, fed));
    DocEndsAppend(CallItems(o.calls) + [Flush], last);
    assert multi ==> last[1..] == [];
    DocEndsAppend(DocItems(x, docs) + FedItems(x, d, fed), EndItems(x, d, fed, AtEof, multi));
    assert EndItems(x, d, fed, AtEof, multi) == CallItems(o.calls) + [Flush] + last;
  }
}
