/** Signal trapping (select/select.c): the handler against select_signal and select, one step of the main
    line at a time, with a delivery possible between any two. */
module SelectSignals {
  import opened Common

  datatype Handler = Default | Ignore | Trap | Other(n: int)

  /** Where the main line is. */
  datatype Place =
    | Idle
    // select_signal
    | Protect(signum: int, func: Handler, override: bool)
    | Install(signum: int, func: Handler, override: bool, oldset: iset<int>)
    | Judge(signum: int, func: Handler, override: bool, oldset: iset<int>, prev: Handler)
    | RollBack(signum: int, prev: Handler, oldset: iset<int>)
    | Release(signum: int, func: Handler, oldset: iset<int>, done: bool)
    | Widen(signum: int, func: Handler)
    // select
    | Wait(dosig: bool)
    | Check(dosig: bool)
    | Block
    | Clear(oldset: iset<int>)
    | Copy(oldset: iset<int>)
    | Empty(oldset: iset<int>, trapped: set<int>)
    | Unblock(oldset: iset<int>, trapped: set<int>)
    | Scan(s: int, trapped: set<int>, found: set<int>)

  /** caught.flag and caught.mask, sigrange, the dispositions, the blocked signals; and what happened:
      the answer of the last select_signal (None for the empty string), the deliveries to the handler, in
      windows that end where the mask is emptied, and the sets reported. */
  datatype Proc = Proc(
    flag: bool, mask: set<int>, min: int, max: int, actions: map<int, Handler>, blocked: iset<int>, at: Place,
    answer: Option<Handler>, delivered: seq<int>, windows: seq<seq<int>>, window: seq<int>, reports: seq<set<int>>)

  /** A delivery, a call by the awk program, or the next step of the main line. */
  datatype Event = Deliver(sig: int) | Call(first: Place) | Go(fails: bool)

  function Action(p: Proc, s: int): Handler { if s in p.actions then p.actions[s] else Default }

  ghost const EVERY: iset<int> := iset s: int | true

  function SigSet(w: seq<int>): set<int> { set s | s in w }

  predicate InRange(p: Proc, s: int) { p.min != 0 && p.min <= s <= p.max }

  /** A call starts at its first step; select_signal has refused numbers below 1 before that. */
  predicate Enters(first: Place) {
    match first
    case Protect(signum, func, _) => signum >= 1 && !func.Other?
    case Wait(_) => true
    case _ => false
  }

  /** Handlers run with every signal blocked, so a handler is one step. */
  ghost predicate Enabled(p: Proc, e: Event) {
    match e
    case Deliver(s) => Action(p, s) == Trap && s !in p.blocked
    case Call(first) => p.at == Idle && Enters(first)
    case Go(_) => p.at != Idle
  }

  /** One step; protect says whether sigprocmask is there. */
  ghost function Step(protect: bool, p: Proc, e: Event): Proc
    requires Enabled(p, e)
  {
    match e
    case Deliver(s) => p.(mask := p.mask + {s}, flag := true, delivered := p.delivered + [s], window := p.window + [s])
    case Call(first) => p.(at := first)
    case Go(fails) => Advance(protect, p, fails)
  }

  ghost function Advance(protect: bool, p: Proc, fails: bool): Proc
    requires p.at != Idle
  {
    match p.at
    case Protect(signum, func, override) =>
      p.(at := Install(signum, func, override, p.blocked), blocked := if protect then p.blocked + iset{signum} else p.blocked)
    case Install(signum, func, override, oldset) =>
      if fails then p.(at := Release(signum, func, oldset, false), answer := None)
      else p.(at := Judge(signum, func, override, oldset, Action(p, signum)), actions := p.actions[signum := func])
    case Judge(signum, func, override, oldset, prev) =>
      if !prev.Other? || override then p.(at := Release(signum, func, oldset, true), answer := Some(prev))
      else p.(at := RollBack(signum, prev, oldset), answer := None)
    case RollBack(signum, prev, oldset) =>
      p.(at := Release(signum, prev, oldset, false), actions := p.actions[signum := prev])
    case Release(signum, func, oldset, done) =>
      p.(at := if done then Widen(signum, func) else Idle, blocked := if protect then oldset else p.blocked)
    case Widen(signum, func) =>
      if func != Trap then p.(at := Idle)
      else if p.min == 0 then p.(at := Idle, min := signum, max := signum)
      else p.(at := Idle, min := if p.min > signum then signum else p.min, max := if p.max < signum then signum else p.max)
    case Wait(dosig) => p.(at := Check(dosig))
    case Check(dosig) => p.(at := if dosig && p.flag then Block else Idle)
    case Block => p.(at := Clear(p.blocked), blocked := if protect then EVERY else p.blocked)
    case Clear(oldset) => p.(at := Copy(oldset), flag := false)
    case Copy(oldset) => p.(at := Empty(oldset, p.mask))
    case Empty(oldset, trapped) =>
      p.(at := Unblock(oldset, trapped), mask := {}, windows := p.windows + [p.window], window := [])
    case Unblock(oldset, trapped) =>
      p.(at := Scan(p.min, trapped, {}), blocked := if protect then oldset else p.blocked)
    case Scan(s, trapped, found) =>
      if s > p.max then p.(at := Idle, reports := p.reports + [found])
      else p.(at := Scan(s + 1, trapped, if s in trapped then found + {s} else found))
  }

  /** The run takes the process from p to q. */
  ghost predicate Runs(protect: bool, p: Proc, es: seq<Event>, q: Proc)
    decreases |es|
  {
    if es == [] then p == q else Enabled(p, es[0]) && Runs(protect, Step(protect, p, es[0]), es[1..], q)
  }

  /** No signal trapped yet; some may be blocked, and any may have a handler of another's. */
  ghost predicate Initial(p: Proc) {
    && !p.flag && p.mask == {} && p.min == 0 && p.max == 0 && p.at == Idle
    && (forall s :: Action(p, s) != Trap)
    && p.delivered == [] && p.windows == [] && p.window == [] && p.reports == []
  }

  // ------------------------------------------------------------ what every step keeps

  /** Between Clear and Empty the flag says nothing. */
  predicate FlagMeans(at: Place) { !at.Copy? && !at.Empty? }

  /** The signal being installed may not be in the range yet. */
  predicate Installing(at: Place, s: int) {
    || (at.Judge? && at.signum == s && at.func == Trap)
    || (at.RollBack? && at.signum == s)
    || (at.Release? && at.signum == s && at.func == Trap && at.done)
    || (at.Widen? && at.signum == s && at.func == Trap)
  }

  /** Until it is released, that signal is blocked. */
  predicate Held(at: Place) { at.Install? || at.Judge? || at.RollBack? || at.Release? }

  ghost predicate Places(p: Proc) {
    match p.at
    case Install(signum, func, _, _) => signum >= 1 && signum in p.blocked && !func.Other?
    case Judge(signum, func, _, _, prev) =>
      signum >= 1 && signum in p.blocked && Action(p, signum) == func && (prev == Trap ==> InRange(p, signum))
    case RollBack(signum, prev, _) => signum >= 1 && signum in p.blocked && prev.Other?
    case Release(signum, func, _, done) => signum >= 1 && signum in p.blocked
    case Protect(signum, func, _) => signum >= 1 && !func.Other?
    case Widen(signum, _) => signum >= 1
    case Block => p.mask != {}
    case Clear(_) => p.blocked == EVERY && p.mask != {}
    case Copy(_) => p.blocked == EVERY && p.mask != {} && !p.flag
    case Empty(_, trapped) => p.blocked == EVERY && trapped == p.mask != {} && !p.flag
    case Unblock(_, trapped) => p.windows != [] && trapped == SigSet(p.windows[|p.windows| - 1]) && Covered(p, trapped)
    case Scan(s, trapped, found) =>
      && p.windows != [] && trapped == SigSet(p.windows[|p.windows| - 1]) && Covered(p, trapped)
      && found == set x | x in trapped && x < s
    case _ => true
  }

  ghost predicate Covered(p: Proc, w: set<int>) { forall s :: s in w ==> InRange(p, s) }

  /** The signals delivered are those of the windows that ended and of the open one; the mask is the open
      window; every report so far is its window. */
  ghost predicate Accounted(p: Proc) {
    && p.delivered == Flat(p.windows) + p.window
    && p.mask == SigSet(p.window)
    && |p.reports| <= |p.windows|
    && (forall i :: 0 <= i < |p.reports| ==> p.reports[i] == SigSet(p.windows[i]))
    && |p.windows| == |p.reports| + (if p.at.Unblock? || p.at.Scan? then 1 else 0)
  }

  ghost predicate TrapsInRange(p: Proc) {
    forall s :: Action(p, s) == Trap ==> InRange(p, s) || Installing(p.at, s)
  }

  ghost predicate RangeFits(p: Proc) {
    && (p.min == 0 ==> p.max == 0) && (p.min != 0 ==> 1 <= p.min <= p.max)
    && (forall s :: s in p.mask ==> InRange(p, s) || (p.at.Widen? && Installing(p.at, s)))
  }

  ghost predicate Invariant(p: Proc) {
    && Accounted(p) && Places(p)
    && (FlagMeans(p.at) ==> (p.flag <==> p.mask != {}))
    && RangeFits(p) && TrapsInRange(p)
  }

  lemma SigSetSnoc(w: seq<int>, s: int)
    ensures SigSet(w + [s]) == SigSet(w) + {s}
  {}

  lemma DeliverKeeps(p: Proc, s: int)
    requires Invariant(p) && Enabled(p, Deliver(s))
    ensures Invariant(Step(true, p, Deliver(s)))
  {
    SigSetSnoc(p.window, s);
    ConcatAssoc(Flat(p.windows), p.window, [s]);
    assert !Held(p.at) || p.at.signum != s;
  }

  lemma CallKeeps(p: Proc, first: Place)
    requires Invariant(p) && Enabled(p, Call(first))
    ensures Invariant(Step(true, p, Call(first)))
  {
    SameTraps(p, Step(true, p, Call(first)));
  }

  lemma SameTraps(p: Proc, q: Proc)
    requires TrapsInRange(p) && !InSignal(p.at) && q.actions == p.actions && q.min == p.min && q.max == p.max
    ensures TrapsInRange(q)
  {
    forall s | Action(q, s) == Trap ensures InRange(q, s) || Installing(q.at, s) {
      assert Action(p, s) == Trap;
    }
  }

  predicate InSignal(at: Place) {
    at.Protect? || at.Install? || at.Judge? || at.RollBack? || at.Release? || at.Widen?
  }

  /** select_signal, with its rollback. */
  lemma SignalKeeps(p: Proc, fails: bool)
    requires Invariant(p) && InSignal(p.at)
    ensures Invariant(Advance(true, p, fails))
  {
    SignalTraps(p, fails);
    SignalPlaces(p, fails);
    SignalRange(p, fails);
    SignalSame(p, fails);
    hide Accounted, TrapsInRange, Places, RangeFits, Advance;
    SameAccount(p, Advance(true, p, fails));
  }

  /** select_signal touches nothing that was caught or reported. */
  lemma SignalSame(p: Proc, fails: bool)
    requires InSignal(p.at)
    ensures var q := Advance(true, p, fails);
      && q.flag == p.flag && q.mask == p.mask && q.delivered == p.delivered
      && q.windows == p.windows && q.window == p.window && q.reports == p.reports && (InSignal(q.at) || q.at == Idle)
  {}

  lemma SameAccount(p: Proc, q: Proc)
    requires Accounted(p) && !p.at.Unblock? && !p.at.Scan? && !q.at.Unblock? && !q.at.Scan?
    requires q.mask == p.mask && q.delivered == p.delivered
    requires q.windows == p.windows && q.window == p.window && q.reports == p.reports
    ensures Accounted(q)
  {
    hide Flat;
  }

  lemma SignalTraps(p: Proc, fails: bool)
    requires RangeFits(p) && TrapsInRange(p) && Places(p) && InSignal(p.at)
    ensures TrapsInRange(Advance(true, p, fails))
  {
    var q := Advance(true, p, fails);
    forall s | Action(q, s) == Trap ensures InRange(q, s) || Installing(q.at, s) {
      assert Action(p, s) == Trap || s == p.at.signum;
    }
  }

  lemma SignalPlaces(p: Proc, fails: bool)
    requires TrapsInRange(p) && Places(p) && InSignal(p.at)
    ensures Places(Advance(true, p, fails))
  {
    if p.at.Install? {
      assert Action(p, p.at.signum) == Trap ==> InRange(p, p.at.signum);
    }
  }

  lemma SignalRange(p: Proc, fails: bool)
    requires RangeFits(p) && Places(p) && InSignal(p.at)
    ensures RangeFits(Advance(true, p, fails))
  {}

  predicate InSelect(at: Place) {
    at.Wait? || at.Check? || at.Block? || at.Clear? || at.Copy? || at.Empty? || at.Unblock? || at.Scan?
  }

  /** The snapshot, the reset, and the report. */
  lemma SelectKeeps(p: Proc, fails: bool)
    requires Invariant(p) && InSelect(p.at)
    ensures Invariant(Advance(true, p, fails))
  {
    SameTraps(p, Advance(true, p, fails));
    SelectAccounts(p, fails);
    SelectPlaces(p, fails);
    SelectRange(p, fails);
    SelectFlag(p, fails);
    hide Accounted, TrapsInRange, Places, RangeFits, Advance;
  }

  lemma SelectRange(p: Proc, fails: bool)
    requires RangeFits(p) && InSelect(p.at)
    ensures RangeFits(Advance(true, p, fails))
  {}

  lemma SelectFlag(p: Proc, fails: bool)
    requires Places(p) && InSelect(p.at) && (FlagMeans(p.at) ==> (p.flag <==> p.mask != {}))
    ensures var q := Advance(true, p, fails); FlagMeans(q.at) ==> (q.flag <==> q.mask != {})
  {}

  lemma SelectAccounts(p: Proc, fails: bool)
    requires Accounted(p) && Places(p) && RangeFits(p) && InSelect(p.at)
    ensures Accounted(Advance(true, p, fails))
  {
    if p.at.Empty? {
      FlatSnoc(p.windows, p.window);
      assert SigSet([]) == {};
      hide Flat;
    } else if p.at.Unblock? || p.at.Scan? {
      if p.at.Scan? && p.at.s > p.max {
        assert p.at.found == p.at.trapped;
      }
      hide Flat;
    } else {
      hide Flat, Accounted, Places, RangeFits;
      SameAccount(p, Advance(true, p, fails));
    }
  }

  lemma SelectPlaces(p: Proc, fails: bool)
    requires Accounted(p) && Places(p) && RangeFits(p) && (FlagMeans(p.at) ==> (p.flag <==> p.mask != {})) && InSelect(p.at)
    ensures Places(Advance(true, p, fails))
  {
    hide Flat;
    if p.at.Scan? && p.at.s <= p.max {
      var x := p.at.s;
      assert (set y | y in p.at.trapped && y < x + 1) ==
        (set y | y in p.at.trapped && y < x) + (if x in p.at.trapped then {x} else {});
    }
  }

  /** Every step keeps the invariant. */
  lemma StepKeeps(p: Proc, e: Event)
    requires Invariant(p) && Enabled(p, e)
    ensures Invariant(Step(true, p, e))
  {
    match e {
      case Deliver(s) => DeliverKeeps(p, s);
      case Call(first) => CallKeeps(p, first);
      case Go(fails) =>
        if InSignal(p.at) {
          SignalKeeps(p, fails);
        } else {
          SelectKeeps(p, fails);
        }
    }
  }

  lemma {:induction false} RunKeeps(p: Proc, es: seq<Event>, q: Proc)
    requires Invariant(p) && Runs(true, p, es, q)
    ensures Invariant(q)
    decreases |es|
  {
    if es != [] {
      hide Invariant, Step, Enabled;
      StepKeeps(p, es[0]);
      RunKeeps(Step(true, p, es[0]), es[1..], q);
    }
  }

  lemma InitialInvariant(p: Proc)
    requires Initial(p)
    ensures Invariant(p)
  {
    assert SigSet([]) == {};
  }

  /** Nothing is lost: between calls, the deliveries are those of the reported windows, in order, and of
      the open one; each report is the set of its window, the mask that of the open one, and the flag is
      set exactly when the mask is not empty. */
  ghost predicate NothingLost(p: Proc) {
    && p.delivered == Flat(p.windows) + p.window
    && |p.reports| == |p.windows| && (forall i :: 0 <= i < |p.reports| ==> p.reports[i] == SigSet(p.windows[i]))
    && p.mask == SigSet(p.window) && (p.flag <==> p.mask != {})
  }

  ghost predicate NeverLoses(protect: bool) {
    forall p, es, q :: Initial(p) && Runs(protect, p, es, q) && q.at == Idle ==> NothingLost(q)
  }

  /** In every interleaving, nothing is lost. */
  lemma NoneLost(p: Proc, es: seq<Event>, q: Proc)
    requires Initial(p) && Runs(true, p, es, q)
    ensures q.at == Idle ==> NothingLost(q)
    ensures q.at.Scan? ==> forall s :: s in q.at.trapped ==> q.min <= s <= q.max
  {
    InitialInvariant(p);
    RunKeeps(p, es, q);
  }

  // ------------------------------------------------------------ a call that is refused

  /** How r stands between a call of select_signal, made at p on a signal with a handler of another's and
      without the override, and its return. */
  ghost predicate Refusing(p: Proc, r: Proc) {
    && p.at.Protect? && !p.at.override
    && var n := p.at.signum;
    && r.min == p.min && r.max == p.max
    && p.delivered <= r.delivered && n !in r.delivered[|p.delivered|..]
    && match r.at
       case Protect(_, _, _) => r.at == p.at && r.actions == p.actions
       case Install(k, f, o, _) => k == n && f == p.at.func && !o && n in r.blocked && r.actions == p.actions
       case Judge(k, f, o, _, prev) =>
         k == n && f == p.at.func && !o && n in r.blocked && prev == Action(p, n) && r.actions == p.actions[n := f]
       case RollBack(k, prev, _) =>
         k == n && n in r.blocked && prev == Action(p, n) && r.actions == p.actions[n := p.at.func]
       case Release(_, _, _, done) => !done && SameActions(p, r)
       case Idle => SameActions(p, r)
       case _ => false
  }

  ghost predicate SameActions(p: Proc, r: Proc) { forall s :: Action(r, s) == Action(p, s) }

  lemma RefusedStep(p: Proc, r: Proc, e: Event)
    requires Refusing(p, r) && Action(p, p.at.signum).Other? && Enabled(r, e) && !e.Call?
    ensures Refusing(p, Step(true, r, e))
  {
    var n, q := p.at.signum, Step(true, r, e);
    if e.Deliver? {
      assert Action(r, n) == Trap ==> n in r.blocked;
      assert q.delivered[|p.delivered|..] == r.delivered[|p.delivered|..] + [e.sig];
    }
    forall s ensures r.at.RollBack? || r.at.Install? ==> e.Go? ==> q.at.Release? ==> Action(q, s) == Action(p, s) {
      assert r.at.RollBack? ==> Action(r, s) == if s == n then p.at.func else Action(p, s);
    }
  }

  /** A refused call has no effect: whatever is delivered meanwhile, no action and no range is changed, and
      the handler has not seen the signal. */
  lemma {:induction false} RefusedLeaves(p: Proc, r: Proc, es: seq<Event>, q: Proc)
    requires Refusing(p, r) && Action(p, p.at.signum).Other? && Runs(true, r, es, q)
    requires forall i :: 0 <= i < |es| ==> !es[i].Call?
    ensures Refusing(p, q)
    decreases |es|
  {
    if es != [] {
      hide Refusing, Step, Enabled;
      assert !es[0].Call?;
      RefusedStep(p, r, es[0]);
      RefusedLeaves(p, Step(true, r, es[0]), es[1..], q);
    }
  }

  /** select_signal on a signal with a handler of another's, without the override, leaves all as it was. */
  lemma RefusedCall(p: Proc, es: seq<Event>, q: Proc)
    requires p.at.Protect? && !p.at.override && Action(p, p.at.signum).Other?
    requires Runs(true, p, es, q) && q.at == Idle && forall i :: 0 <= i < |es| ==> !es[i].Call?
    ensures SameActions(p, q) && q.min == p.min && q.max == p.max
    ensures p.delivered <= q.delivered && p.at.signum !in q.delivered[|p.delivered|..]
  {
    assert Refusing(p, p);
    RefusedLeaves(p, p, es, q);
  }

  // ------------------------------------------------------------ a whole call of select_signal

  /** The call at p takes effect, if the signal can have a handler at all: nobody else's is replaced, or the
      override asks for it. */
  predicate Takes(p: Proc)
    requires p.at.Protect?
  {
    p.at.override || !Action(p, p.at.signum).Other?
  }

  /** sigaction fails, the one time it installs. */
  ghost predicate InstallFails(protect: bool, p: Proc, es: seq<Event>)
    decreases |es|
  {
    && es != [] && Enabled(p, es[0])
    && ((p.at.Install? && es[0] == Go(true)) || InstallFails(protect, Step(protect, p, es[0]), es[1..]))
  }

  /** One action is changed, and no other. */
  ghost predicate Installed(p: Proc, r: Proc, n: int, func: Handler) {
    forall s :: Action(r, s) == if s == n then func else Action(p, s)
  }

  predicate SameRange(p: Proc, r: Proc) { r.min == p.min && r.max == p.max }

  /** The range reaches as far as this signal, and no further than it must. */
  ghost predicate Widened(p: Proc, r: Proc, n: int) {
    && InRange(r, n) && (forall s :: InRange(p, s) ==> InRange(r, s))
    && (r.min == n || (p.min != 0 && r.min == p.min)) && (r.max == n || (p.min != 0 && r.max == p.max))
  }

  /** What a call of select_signal has come to. */
  ghost predicate Outcome(p: Proc, r: Proc, failed: bool)
    requires p.at.Protect?
  {
    var n, func := p.at.signum, p.at.func;
    if !failed && Takes(p) then
      && Installed(p, r, n, func) && r.answer == Some(Action(p, n))
      && if func == Trap then Widened(p, r, n) else SameRange(p, r)
    else SameActions(p, r) && SameRange(p, r) && r.answer == None
  }

  /** How r stands between a call of select_signal made at p and its return. */
  ghost predicate Calling(protect: bool, p: Proc, r: Proc, failed: bool)
    requires p.at.Protect?
  {
    var n, func := p.at.signum, p.at.func;
    && r.reports == p.reports && r.windows == p.windows && p.delivered <= r.delivered
    && (!protect ==> r.blocked == p.blocked)
    && (r.at != Idle ==> SameRange(p, r))
    && match r.at
       case Protect(_, _, _) => r.at == p.at && !failed && SameActions(p, r) && r.blocked == p.blocked
       case Install(_, _, _, _) => r.at == Install(n, func, p.at.override, p.blocked) && !failed && SameActions(p, r)
       case Judge(_, _, _, _, _) =>
         r.at == Judge(n, func, p.at.override, p.blocked, Action(p, n)) && !failed && Installed(p, r, n, func)
       case RollBack(_, _, _) =>
         r.at == RollBack(n, Action(p, n), p.blocked) && !failed && !Takes(p) && Installed(p, r, n, func) && r.answer == None
       case Release(_, _, _, done) =>
         if done then r.at == Release(n, func, p.blocked, true) && !failed && Takes(p) && Installed(p, r, n, func)
                      && r.answer == Some(Action(p, n))
         else r.at.oldset == p.blocked && (failed || !Takes(p)) && SameActions(p, r) && r.answer == None
       case Widen(_, _) =>
         && r.at == Widen(n, func) && !failed && Takes(p) && Installed(p, r, n, func) && r.answer == Some(Action(p, n))
         && r.blocked == p.blocked
       case Idle => r.blocked == p.blocked && Outcome(p, r, failed)
       case _ => false
  }

  lemma CallingStep(protect: bool, p: Proc, r: Proc, e: Event, failed: bool)
    requires p.at.Protect? && p.at.signum >= 1 && RangeFits(p)
    requires Calling(protect, p, r, failed) && Enabled(r, e) && !e.Call?
    ensures Calling(protect, p, Step(protect, r, e), failed || (r.at.Install? && e == Go(true)))
  {
    hide Calling, RangeFits, Takes;
    match e
    case Deliver(s) => DeliverCalling(protect, p, r, s, failed);
    case Go(fails) =>
      if r.at.Widen? {
        WidenCalling(protect, p, r, fails, failed);
      } else if r.at.RollBack? {
        RollBackCalling(protect, p, r, fails, failed);
      } else if r.at.Install? {
        InstallCalling(protect, p, r, fails, failed);
      } else {
        PlainCalling(protect, p, r, fails, failed);
      }
  }

  lemma InstallCalling(protect: bool, p: Proc, r: Proc, fails: bool, failed: bool)
    requires p.at.Protect? && Calling(protect, p, r, failed) && r.at.Install?
    ensures Calling(protect, p, Advance(protect, r, fails), failed || fails)
  {
    hide Takes, Outcome, InRange;
  }

  lemma PlainCalling(protect: bool, p: Proc, r: Proc, fails: bool, failed: bool)
    requires p.at.Protect? && Calling(protect, p, r, failed) && r.at != Idle
    requires !r.at.Install? && !r.at.RollBack? && !r.at.Widen?
    ensures Calling(protect, p, Advance(protect, r, fails), failed)
  {
    var q := Advance(protect, r, fails);
    assert q.actions == r.actions;
    hide Widened, InRange, RangeFits;
  }

  lemma DeliverCalling(protect: bool, p: Proc, r: Proc, s: int, failed: bool)
    requires p.at.Protect? && Calling(protect, p, r, failed) && Enabled(r, Deliver(s))
    ensures Calling(protect, p, Step(protect, r, Deliver(s)), failed)
  {
    var q := Step(protect, r, Deliver(s));
    assert forall x :: Action(q, x) == Action(r, x);
    assert Widened(p, r, p.at.signum) ==> Widened(p, q, p.at.signum);
    hide Widened, Takes;
  }

  lemma RollBackCalling(protect: bool, p: Proc, r: Proc, fails: bool, failed: bool)
    requires p.at.Protect? && Calling(protect, p, r, failed) && r.at.RollBack?
    ensures Calling(protect, p, Advance(protect, r, fails), failed)
  {
    var q := Advance(protect, r, fails);
    forall s ensures Action(q, s) == Action(p, s) {
      assert Action(r, s) == if s == p.at.signum then p.at.func else Action(p, s);
    }
    hide Takes, Widened;
  }

  lemma WidenCalling(protect: bool, p: Proc, r: Proc, fails: bool, failed: bool)
    requires p.at.Protect? && p.at.signum >= 1 && RangeFits(p) && Calling(protect, p, r, failed) && r.at.Widen?
    ensures Calling(protect, p, Advance(protect, r, fails), failed)
  {
    var q := Advance(protect, r, fails);
    assert Installed(p, q, p.at.signum, p.at.func) by {
      hide Widened, Takes, RangeFits;
    }
    hide Installed, Takes;
  }

  lemma {:induction false} CallingRun(protect: bool, p: Proc, r: Proc, es: seq<Event>, q: Proc, failed: bool)
    requires p.at.Protect? && p.at.signum >= 1 && RangeFits(p) && Calling(protect, p, r, failed)
    requires Runs(protect, r, es, q) && forall i :: 0 <= i < |es| ==> !es[i].Call?
    ensures Calling(protect, p, q, failed || InstallFails(protect, r, es))
    decreases |es|
  {
    if es != [] {
      var next, fails := Step(protect, r, es[0]), r.at.Install? && es[0] == Go(true);
      assert !es[0].Call?;
      hide Calling, Step, Enabled, RangeFits;
      CallingStep(protect, p, r, es[0], failed);
      CallingRun(protect, p, next, es[1..], q, failed || fails);
    }
  }

  /** select_signal, whatever is delivered meanwhile: when the installation succeeds, and no handler of another's
      is there or the override is given, the signal has the new action, a trapped one is in the range, and the
      answer is the action it had; otherwise no action and no range is changed, and the answer is empty. In both
      cases every other action stands, and the same signals are blocked as before. */
  lemma SignalCall(protect: bool, p: Proc, es: seq<Event>, q: Proc)
    requires p.at.Protect? && p.at.signum >= 1 && RangeFits(p)
    requires Runs(protect, p, es, q) && q.at == Idle && forall i :: 0 <= i < |es| ==> !es[i].Call?
    ensures Outcome(p, q, InstallFails(protect, p, es))
    ensures q.blocked == p.blocked && q.reports == p.reports && q.windows == p.windows && p.delivered <= q.delivered
  {
    assert Calling(protect, p, p, false);
    CallingRun(protect, p, p, es, q, false);
  }

  // ------------------------------------------------------------ a whole call of select

  /** select finds the flag set when it looks. */
  ghost predicate FindsFlag(protect: bool, p: Proc, es: seq<Event>)
    decreases |es|
  {
    && es != [] && Enabled(p, es[0])
    && ((p.at.Check? && es[0].Go? && p.flag) || FindsFlag(protect, Step(protect, p, es[0]), es[1..]))
  }

  /** How r stands between a call of select made at p and its return; looked: the flag was found set. */
  ghost predicate Selecting(protect: bool, p: Proc, r: Proc, looked: bool)
    requires p.at.Wait?
  {
    && r.actions == p.actions && SameRange(p, r) && r.answer == p.answer && p.delivered <= r.delivered
    && (!protect ==> r.blocked == p.blocked)
    && (looked ==> p.at.dosig) && (p.flag && !r.at.Copy? && !r.at.Empty? && !looked ==> r.flag)
    && (if r.at == Idle && looked then
          |r.reports| == |p.reports| + 1 && r.reports[..|p.reports|] == p.reports
          && forall s :: s in p.mask && p.min <= s <= p.max ==> s in r.reports[|p.reports|]
        else r.reports == p.reports)
    && match r.at
       case Wait(_) => r.at == p.at && !looked && r.blocked == p.blocked && p.mask <= r.mask
       case Check(_) => r.at == Check(p.at.dosig) && !looked && r.blocked == p.blocked && p.mask <= r.mask
       case Block => looked && r.blocked == p.blocked && p.mask <= r.mask
       case Clear(oldset) => looked && oldset == p.blocked && p.mask <= r.mask
       case Copy(oldset) => looked && oldset == p.blocked && p.mask <= r.mask
       case Empty(oldset, trapped) => looked && oldset == p.blocked && p.mask <= trapped
       case Unblock(oldset, trapped) => looked && oldset == p.blocked && p.mask <= trapped
       case Scan(s, trapped, found) =>
         && looked && r.blocked == p.blocked && p.mask <= trapped
         && forall x :: x in trapped && p.min <= x < s && x <= p.max ==> x in found
       case Idle => r.blocked == p.blocked && (!looked ==> !(p.at.dosig && p.flag))
       case _ => false
  }

  lemma SelectingStep(protect: bool, p: Proc, r: Proc, e: Event, looked: bool)
    requires p.at.Wait? && Selecting(protect, p, r, looked) && Enabled(r, e) && !e.Call?
    ensures Selecting(protect, p, Step(protect, r, e), looked || (p.at.dosig && r.at.Check? && e.Go? && r.flag))
  {}

  lemma {:induction false} SelectingRun(protect: bool, p: Proc, r: Proc, es: seq<Event>, q: Proc, looked: bool)
    requires p.at.Wait? && Selecting(protect, p, r, looked)
    requires Runs(protect, r, es, q) && forall i :: 0 <= i < |es| ==> !es[i].Call?
    ensures Selecting(protect, p, q, looked || (p.at.dosig && FindsFlag(protect, r, es)))
    decreases |es|
  {
    if es != [] {
      var next, finds := Step(protect, r, es[0]), p.at.dosig && r.at.Check? && es[0].Go? && r.flag;
      assert !es[0].Call?;
      hide Selecting, Step, Enabled;
      SelectingStep(protect, p, r, es[0], looked);
      SelectingRun(protect, p, next, es[1..], q, looked || finds);
    }
  }

  /** select, whatever is delivered meanwhile: it makes one report exactly when it is asked for signals and finds
      the flag set, as it does when it was set before the call; the report has every signal that was caught by
      then and is in the range. No action, no range and no blocked signal is changed. */
  lemma SelectCall(protect: bool, p: Proc, es: seq<Event>, q: Proc)
    requires p.at.Wait? && Runs(protect, p, es, q) && q.at == Idle && forall i :: 0 <= i < |es| ==> !es[i].Call?
    ensures var looks := p.at.dosig && FindsFlag(protect, p, es);
      && (p.at.dosig && p.flag ==> looks)
      && (if looks then |q.reports| == |p.reports| + 1 && q.reports[..|p.reports|] == p.reports
            && forall s :: s in p.mask && p.min <= s <= p.max ==> s in q.reports[|p.reports|]
          else q.reports == p.reports)
    ensures q.actions == p.actions && SameRange(p, q) && q.answer == p.answer && q.blocked == p.blocked
  {
    assert Selecting(protect, p, p, false);
    SelectingRun(protect, p, p, es, q, false);
  }

  // ------------------------------------------------------------ every call returns

  /** How many steps of the main line there are to go, at most. */
  function Distance(p: Proc): nat {
    var scan := if p.max < p.min then 1 else p.max - p.min + 2;
    match p.at
    case Idle => 0
    case Protect(_, _, _) => 6
    case Install(_, _, _, _) => 5
    case Judge(_, _, _, _, _) => 4
    case RollBack(_, _, _) => 3
    case Release(_, _, _, _) => 2
    case Widen(_, _) => 1
    case Wait(_) => scan + 7
    case Check(_) => scan + 6
    case Block => scan + 5
    case Clear(_) => scan + 4
    case Copy(_) => scan + 3
    case Empty(_, _) => scan + 2
    case Unblock(_, _) => scan + 1
    case Scan(s, _, _) => if p.max < s then 1 else p.max - s + 2
  }

  ghost function Steps(es: seq<Event>): nat { if es == [] then 0 else (if es[0].Go? then 1 else 0) + Steps(es[1..]) }

  lemma StepNearer(protect: bool, p: Proc, e: Event)
    requires Enabled(p, e) && !e.Call?
    ensures Distance(Step(protect, p, e)) + (if e.Go? then 1 else 0) <= Distance(p)
  {
    match e
    case Deliver(s) => DeliverNearer(protect, p, s);
    case Go(fails) =>
      if InSignal(p.at) {
        SignalNearer(protect, p, fails);
      } else {
        SelectNearer(protect, p, fails);
      }
  }

  lemma DeliverNearer(protect: bool, p: Proc, s: int)
    requires Enabled(p, Deliver(s))
    ensures Distance(Step(protect, p, Deliver(s))) == Distance(p)
  {
    hide Action;
  }

  lemma SignalNearer(protect: bool, p: Proc, fails: bool)
    requires InSignal(p.at)
    ensures Distance(Advance(protect, p, fails)) < Distance(p)
  {
    hide Action;
  }

  lemma SelectNearer(protect: bool, p: Proc, fails: bool)
    requires p.at != Idle && !InSignal(p.at)
    ensures Distance(Advance(protect, p, fails)) < Distance(p)
  {}

  /** Whatever is delivered, a call returns after so many steps. */
  lemma {:induction false} CallReturns(protect: bool, p: Proc, es: seq<Event>, q: Proc)
    requires Runs(protect, p, es, q) && forall i :: 0 <= i < |es| ==> !es[i].Call?
    ensures Steps(es) + Distance(q) <= Distance(p)
    ensures Distance(q) == 0 <==> q.at == Idle
    decreases |es|
  {
    if es != [] {
      assert !es[0].Call?;
      StepNearer(protect, p, es[0]);
      hide Step, Enabled;
      CallReturns(protect, Step(protect, p, es[0]), es[1..], q);
    }
  }

  // ------------------------------------------------------------ without sigprocmask

  ghost predicate Reaches(protect: bool, p: Proc, q: Proc) { exists es :: Runs(protect, p, es, q) }

  lemma {:induction false} RunsSnoc(protect: bool, p: Proc, es: seq<Event>, q: Proc, e: Event)
    requires Runs(protect, p, es, q) && Enabled(q, e)
    ensures Runs(protect, p, es + [e], Step(protect, q, e))
    decreases |es|
  {
    hide Step, Enabled;
    if es == [] {
      assert [] + [e] == [e] && [e][1..] == [];
      assert Runs(protect, Step(protect, q, e), [], Step(protect, q, e));
    } else {
      assert (es + [e])[0] == es[0] && (es + [e])[1..] == es[1..] + [e];
      RunsSnoc(protect, Step(protect, p, es[0]), es[1..], q, e);
    }
  }

  lemma Then(protect: bool, p: Proc, q: Proc, e: Event)
    requires Reaches(protect, p, q) && Enabled(q, e)
    ensures Reaches(protect, p, Step(protect, q, e))
  {
    var es :| Runs(protect, p, es, q);
    RunsSnoc(protect, p, es, q, e);
  }

  /** select_signal(n, "trap") on a signal with the default action, when nothing is delivered meanwhile. */
  lemma Trapping(p: Proc, q: Proc, n: int)
    requires Reaches(false, p, q) && q.at == Idle && n >= 1 && n !in q.actions && q.min <= q.max < n
    ensures Reaches(false, p,
      q.(actions := q.actions[n := Trap], min := if q.min == 0 then n else q.min, max := n, answer := Some(Default)))
  {
    hide Reaches;
    var q1 := q.(at := Protect(n, Trap, false));
    Then(false, p, q, Call(q1.at));
    var q2 := q.(at := Install(n, Trap, false, q.blocked));
    Then(false, p, q1, Go(false));
    var q3 := q.(at := Judge(n, Trap, false, q.blocked, Default), actions := q.actions[n := Trap]);
    Then(false, p, q2, Go(false));
    var q4 := q3.(at := Release(n, Trap, q.blocked, true), answer := Some(Default));
    Then(false, p, q3, Go(false));
    var q5 := q4.(at := Widen(n, Trap));
    Then(false, p, q4, Go(false));
    Then(false, p, q5, Go(false));
  }

  /** A signal that arrives between the copy of the mask and its reset is in no report. */
  lemma Missed(p: Proc, q: Proc, early: int, late: int)
    requires Reaches(false, p, q) && q.at == Wait(true) && q.flag && q.mask == {early}
    requires q.window == [early] && q.windows == [] && q.reports == []
    requires Action(q, late) == Trap && late !in q.blocked && early != late
    requires q.min == early && q.max == early + 1
    ensures exists r :: Reaches(false, p, r) && r.at == Idle && r.reports == [{early}] && r.windows == [[early, late]]
  {
    hide Reaches;
    var q1 := q.(at := Check(true));
    Then(false, p, q, Go(false));
    var q2 := q.(at := Block);
    Then(false, p, q1, Go(false));
    var q3 := q.(at := Clear(q.blocked));
    Then(false, p, q2, Go(false));
    var q4 := q.(at := Copy(q.blocked), flag := false);
    Then(false, p, q3, Go(false));
    var q5 := q4.(at := Empty(q.blocked, {early}));
    Then(false, p, q4, Go(false));
    var q6 := Step(false, q5, Deliver(late));
    Then(false, p, q5, Deliver(late));
    var q7 := q6.(at := Unblock(q.blocked, {early}), mask := {}, windows := [[early, late]], window := []);
    Then(false, p, q6, Go(false));
    assert q6.window == [early, late] && q6.windows == [];
    assert [] + [q6.window] == [[early, late]];
    var q8 := q7.(at := Scan(early, {early}, {}));
    Then(false, p, q7, Go(false));
    var q9 := q7.(at := Scan(early + 1, {early}, {early}));
    Then(false, p, q8, Go(false));
    assert {} + {early} == {early};
    var q10 := q7.(at := Scan(early + 2, {early}, {early}));
    Then(false, p, q9, Go(false));
    Then(false, p, q10, Go(false));
  }

  /** Signals 10 and 11 are trapped; 10 is delivered before a call of select, and 11 during it. */
  lemma LosingRun() returns (p: Proc, q: Proc)
    ensures Initial(p) && Reaches(false, p, q) && q.at == Idle && !NothingLost(q)
  {
    p := Proc(false, {}, 0, 0, map[], iset{}, Idle, None, [], [], [], []);
    assert Runs(false, p, [], p);
    assert Reaches(false, p, p);
    Trapping(p, p, 10);
    var p1 := p.(actions := map[10 := Trap], min := 10, max := 10, answer := Some(Default));
    Trapping(p, p1, 11);
    var p2 := p1.(actions := map[10 := Trap, 11 := Trap], max := 11);
    Then(false, p, p2, Deliver(10));
    assert {} + {10} == {10} && [] + [10] == [10];
    var p3 := p2.(mask := {10}, flag := true, delivered := [10], window := [10]);
    Then(false, p, p3, Call(Wait(true)));
    var p4 := p3.(at := Wait(true));
    Missed(p, p4, 10, 11);
    q :| Reaches(false, p, q) && q.at == Idle && q.reports == [{10}] && q.windows == [[10, 11]];
    assert 11 in SigSet(q.windows[0]) && 11 !in q.reports[0];
  }

  /** Nothing is ever lost exactly when sigprocmask is there to keep signals out of the snapshot. */
  lemma NeverLosesIff(protect: bool)
    ensures NeverLoses(protect) <==> protect
  {
    if protect {
      forall p, es, q | Initial(p) && Runs(true, p, es, q) && q.at == Idle ensures NothingLost(q) {
        NoneLost(p, es, q);
      }
    } else {
      var p, q := LosingRun();
      var es :| Runs(false, p, es, q);
    }
  }
}
