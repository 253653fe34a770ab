/** Start and end elements nest: from Expat's callbacks to the tokens that xml_get_record is given. */
module XmlNesting {
  import opened Common
  import opened XmlEvents
  import opened XmlRun
  import opened XmlVariables

  // ------------------------------------------------------------ the callbacks

  /** The open elements after these items; None when an end does not match the last start, or a callback
      carries a kind that is not its own. */
  ghost function Nest(items: seq<Item>, open: seq<bytes>): Option<seq<bytes>>
    decreases |items|
  {
    if items == [] then Some(open)
    else if !items[0].Call? then Nest(items[1..], open)
    else match items[0].cb.event
      case StartEvent(name, _) => Nest(items[1..], open + [name])
      case EndEvent(name) =>
        if open != [] && open[|open| - 1] == name then Nest(items[1..], open[..|open| - 1]) else None
      case TextEvent(kind, _) => if kind.CharData? || kind.Unparsed? then Nest(items[1..], open) else None
      case MarkEvent(kind) => if kind.StartCData? || kind.EndCData? || kind.EndDoct? then Nest(items[1..], open) else None
      case _ => Nest(items[1..], open)
  }

  /** Expat's promise: the callbacks of one document nest. */
  ghost predicate Nests(x: Expat) {
    forall d, fed ::
      && Nest(FedItems(x, d, fed), []).Some?
      && Nest(FedItems(x, d, fed) + CallItems(Parse(x, d, fed + [[]], true).calls), []).Some?
  }

  lemma {:induction false} NestAppend(xs: seq<Item>, ys: seq<Item>, open: seq<bytes>)
    ensures Nest(xs + ys, open) == match Nest(xs, open) { case None => None case Some(o) => Nest(ys, o) }
    decreases |xs|
  {
    if xs == [] {
      assert xs + ys == ys;
    } else {
      assert (xs + ys)[1..] == xs[1..] + ys && (xs + ys)[0] == xs[0];
      NestAppend(xs[1..], ys, open);
      if xs[0].Call? && xs[0].cb.event.StartEvent? {
        NestAppend(xs[1..], ys, open + [xs[0].cb.event.name]);
      }
      if xs[0].Call? && xs[0].cb.event.EndEvent? && open != [] {
        NestAppend(xs[1..], ys, open[..|open| - 1]);
      }
    }
  }

  /** As many elements are open as were started and not ended. */
  lemma {:induction false} NestCounts(items: seq<Item>, open: seq<bytes>)
    requires Nest(items, open).Some?
    ensures |Nest(items, open).value| == |open| + Opens(items) - Closes(items)
    decreases |items|
  {
    if items != [] {
      var next := if items[0].Call? && items[0].cb.event.StartEvent? then open + [items[0].cb.event.name]
                  else if items[0].Call? && items[0].cb.event.EndEvent? then open[..|open| - 1] else open;
      NestCounts(items[1..], next);
    }
  }

  /** Finished documents leave no element open. */
  lemma {:induction false} DocsNest(x: Expat, stream: bytes, docs: seq<Doc>, start: int)
    requires Nests(x) && Tiled(x, stream, docs, start)
    ensures Nest(DocItems(x, docs), []) == Some([])
    decreases |docs|
  {
    if docs != [] {
      var d := |docs| - 1;
      var before, own := DocItems(x, docs[..d]), FedItems(x, d, docs[d].fed);
      var last := [DocEnd(PlaceOf(x, d, docs[d].fed), true)];
      DocsNest(x, stream, docs[..d], docs[d].start);
      assert Closed(own) && Nest(own, []).Some?;
      NestCounts(own, []);
      NestAppend(before, own, []);
      NestAppend(before + own, last, []);
      assert last[1..] == [];
      assert Nest(last[1..], []) == Some([]);
    }
  }

  /** The items of a whole run nest. */
  lemma RunNests(x: Expat, stream: bytes, docs: seq<Doc>, start: int, fed: seq<bytes>, ending: Ending, multi: bool)
    requires Nests(x) && Tiled(x, stream, docs, start)
    ensures Nest(RunItems(x, docs, fed, ending, multi), []).Some?
  {
    var done, own, end := DocItems(x, docs), FedItems(x, |docs|, fed), EndItems(x, |docs|, fed, ending, multi);
    DocsNest(x, stream, docs, start);
    EndNests(x, |docs|, fed, ending, multi);
    assert RunItems(x, docs, fed, ending, multi) == done + own + end;
    hide *;
    ConcatAssoc(done, own, end);
    NestAppend(done, own + end, []);
  }

  lemma EndNests(x: Expat, d: nat, fed: seq<bytes>, ending: Ending, multi: bool)
    requires Nests(x)
    ensures Nest(FedItems(x, d, fed) + EndItems(x, d, fed, ending, multi), []).Some?
  {
    var own, end := FedItems(x, d, fed), EndItems(x, d, fed, ending, multi);
    assert Nest(own, []).Some?;
    if ending.AtEof? {
      var calls := CallItems(Parse(x, d, fed + [[]], true).calls);
      var last := end[|calls|..];
      assert end == calls + last && forall i :: 0 <= i < |last| ==> !last[i].Call?;
      assert Nest(own + calls, []).Some?;
      hide *;
      ConcatAssoc(own, calls, last);
      NestAppend(own + calls, last, []);
      NoCalls(last, Nest(own + calls, []).value);
    } else {
      assert forall i :: 0 <= i < |end| ==> !end[i].Call?;
      hide *;
      NestAppend(own, end, []);
      NoCalls(end, Nest(own, []).value);
    }
  }

  lemma {:induction false} NoCalls(items: seq<Item>, open: seq<bytes>)
    requires forall i :: 0 <= i < |items| ==> !items[i].Call?
    ensures Nest(items, open) == Some(open)
    decreases |items|
  {
    if items != [] {
      assert !items[0].Call?;
      NoCalls(items[1..], open);
    }
  }

  // ------------------------------------------------------------ the tokens

  /** Each token is one that xml_get_record can be given, after those before it. */
  ghost predicate FitsAll(toks: seq<Token>, open: seq<bytes>)
    decreases |toks|
  {
    toks == [] || (Fits(Got(toks[0]), open) && FitsAll(toks[1..], OpenAfter(Got(toks[0]), open)))
  }

  /** The same names, converted. */
  ghost predicate Names(conv: Converter, raw: seq<bytes>, open: seq<bytes>) {
    |raw| == |open| && forall i :: 0 <= i < |raw| ==> Convert(conv, raw[i]) == Some(open[i])
  }

  function RawAfter(item: Item, raw: seq<bytes>): seq<bytes> {
    if item.Call? && item.cb.event.StartEvent? then raw + [item.cb.event.name]
    else if item.Call? && item.cb.event.EndEvent? && raw != [] then raw[..|raw| - 1]
    else raw
  }

  lemma NestStep(items: seq<Item>, raw: seq<bytes>)
    requires items != [] && Nest(items, raw).Some?
    ensures Nest(items[1..], RawAfter(items[0], raw)) == Nest(items, raw)
    ensures items[0].Call? && items[0].cb.event.EndEvent? ==> raw != [] && raw[|raw| - 1] == items[0].cb.event.name
    ensures items[0].Call? && items[0].cb.event.MarkEvent? ==> !HasName(items[0].cb.event.kind)
    ensures items[0].Call? && items[0].cb.event.TextEvent? ==> !HasName(items[0].cb.event.kind)
  {}

  lemma TokenFits(conv: Converter, item: Item, prev: Origin, raw: seq<bytes>, open: seq<bytes>)
    requires IsToken(item) && Names(conv, raw, open) && ConvertToken(conv, TokenOf(item, prev)).Some?
    requires item.Call? && item.cb.event.EndEvent? ==> raw != [] && raw[|raw| - 1] == item.cb.event.name
    requires item.Call? && item.cb.event.MarkEvent? ==> !HasName(item.cb.event.kind)
    ensures var p := Got(ConvertToken(conv, TokenOf(item, prev)).value);
      Fits(p, open) && Names(conv, RawAfter(item, raw), OpenAfter(p, open))
  {
    hide ConvertAttrs, SpotOf;
  }

  /** Data tokens open and close nothing. */
  lemma TextFits(conv: Converter, items: seq<Item>, prev: Origin, open: seq<bytes>, n: nat)
    requires items != [] && items[0].Call? && items[0].cb.event.TextEvent? && !HasName(items[0].cb.event.kind)
    requires n == RunLength(items, items[0].cb.event.kind)
    requires n < |items| && !items[n].Fail? ==> FitsAll(Converted(conv, Coalesce(items[n..], prev)), open)
    ensures FitsAll(Converted(conv, Coalesce(items, prev)), open)
  {
    var kind := items[0].cb.event.kind;
    CoalesceText(items, prev, n);
    if n < |items| && !items[n].Fail? {
      var rest := Coalesce(items[n..], prev);
      hide Coalesce;
      if Texts(items[..n]) == [] {
        assert [] + rest == rest;
      } else {
        var raw := TextToken(items[..n], kind, prev);
        TextKind(items[..n], kind, prev);
        hide TextToken, Texts, RunLength;
        ConvertedCons(conv, raw, rest);
        var t := ConvertToken(conv, raw);
        if t.Some? {
          assert ([t.value] + Converted(conv, rest))[1..] == Converted(conv, rest);
        }
      }
    }
  }

  lemma {:induction false} TextKind(items: seq<Item>, kind: Kind, prev: Origin)
    requires (forall i :: 0 <= i < |items| ==> IsText(items[i], kind)) && Texts(items) != []
    ensures TextToken(items, kind, prev).kind == kind
    decreases |items|
  {
    assert IsText(items[0], kind);
    if items[0].cb.event.text == [] {
      TextKind(items[1..], kind, prev);
    }
  }

  lemma {:induction false} NestSkips(items: seq<Item>, n: nat, kind: Kind, raw: seq<bytes>)
    requires n <= |items| && (forall i :: 0 <= i < n ==> IsText(items[i], kind)) && Nest(items, raw).Some?
    ensures Nest(items[n..], raw) == Nest(items, raw)
    decreases n
  {
    if n == 0 {
      assert items[0..] == items;
    } else {
      assert IsText(items[0], kind);
      NestStep(items, raw);
      NestSkips(items[1..], n - 1, kind, raw);
      assert items[1..][n - 1..] == items[n..];
    }
  }

  /** The tokens of nested callbacks fit, as far as they could be converted. */
  lemma {:induction false} NestedFit(conv: Converter, items: seq<Item>, prev: Origin, raw: seq<bytes>, open: seq<bytes>)
    requires Nest(items, raw).Some? && Names(conv, raw, open)
    ensures FitsAll(Converted(conv, Coalesce(items, prev)), open)
    decreases |items|
  {
    if items == [] || items[0].Fail? {
      assert Converted(conv, Coalesce(items, prev)) == [];
      return;
    }
    NestStep(items, raw);
    if items[0].Flush? {
      hide Nest, Names;
      NestedFit(conv, items[1..], prev, raw, open);
    } else if items[0].Call? && items[0].cb.event.TextEvent? {
      var n := RunLength(items, items[0].cb.event.kind);
      if n < |items| && !items[n].Fail? {
        NestSkips(items, n, items[0].cb.event.kind, raw);
        NestedFit(conv, items[n..], prev, raw, open);
      }
      hide *;
      TextFits(conv, items, prev, open, n);
    } else {
      TokenStep(conv, items, prev, raw, open);
    }
  }

  lemma {:induction false} TokenStep(conv: Converter, items: seq<Item>, prev: Origin, raw: seq<bytes>, open: seq<bytes>)
    requires Nest(items, raw).Some? && Names(conv, raw, open) && items != [] && IsToken(items[0])
    ensures FitsAll(Converted(conv, Coalesce(items, prev)), open)
    decreases |items|, 0
  {
    NestStep(items, raw);
    hide Nest, Coalesce, ConvertToken, TokenOf, Names, Fits, OpenAfter;
    var next := if items[0].DocEnd? && items[0].restart then SetRowCol(prev, items[0].at) else prev;
    var rest := Coalesce(items[1..], next);
    CoalesceToken(items, prev);
    ConvertedCons(conv, TokenOf(items[0], prev), rest);
    var t := ConvertToken(conv, TokenOf(items[0], prev));
    if t.Some? {
      TokenFits(conv, items[0], prev, raw, open);
      NestedFit(conv, items[1..], next, RawAfter(items[0], raw), OpenAfter(Got(t.value), open));
      assert ([t.value] + Converted(conv, rest))[1..] == Converted(conv, rest);
    }
  }
}
