/** The asynchronous loop as a state machine over its steps and those of the
    device: which orders of execution its queue and its barriers leave open. */
module AsyncOrders {
  import opened Arith
  import opened Schedule
  import opened Async

  datatype Step = Submit | Carry(i: nat) | Reap(i: nat) | Barrier

  /** What the device has done and what is in flight. */
  datatype State = State(h: History, live: seq<Flight>)

  ghost function Start(p: Plan): State {
    State(History(p.start, [], 0, 0), [])
  }

  /** The loop submits while there is room: it reaps before the last entry of the
      queue is taken. The device may carry out any command in flight, and any
      completion may be reaped. The loop waits for all of them after each round and
      at the end. */
  ghost predicate Enabled(p: Plan, depth: nat, s: State, step: Step)
    requires p.Valid()
  {
    match step
    case Submit => s.h.submitted < |p.cmds| && s.h.submitted < s.h.barrier + p.window && |s.live| + 1 < depth
    case Carry(i) => i < |s.live| && s.live[i].k < |p.cmds| && s.live[i].k !in s.h.media.ok
    case Reap(i) => i < |s.live| && s.live[i].k in s.h.media.ok
    case Barrier => s.live == [] && (s.h.submitted == s.h.barrier + p.window || s.h.submitted == |p.cmds|)
  }

  ghost function Take(p: Plan, depth: nat, s: State, step: Step): State
    requires p.Valid() && Enabled(p, depth, s, step)
  {
    match step
    case Submit => State(s.h.(submitted := s.h.submitted + 1), s.live + [Flight(s.h.submitted, 0, 0)])
    case Carry(i) =>
      var k := s.live[i].k;
      State(s.h.(media := Apply(s.h.media, p.cmds, p.faults, k), trace := s.h.trace + [k]), s.live)
    case Reap(i) => State(s.h, Remove(s.live, i))
    case Barrier => State(s.h.(barrier := s.h.submitted), s.live)
  }

  ghost predicate Legal(p: Plan, depth: nat, sched: seq<Step>)
    requires p.Valid()
    decreases |sched|, 0
  {
    sched == [] ||
    (Legal(p, depth, sched[..|sched| - 1]) && Enabled(p, depth, After(p, depth, sched[..|sched| - 1]), sched[|sched| - 1]))
  }

  ghost function After(p: Plan, depth: nat, sched: seq<Step>): State
    requires p.Valid() && Legal(p, depth, sched)
    decreases |sched|, 1
  {
    if sched == [] then Start(p)
    else Take(p, depth, After(p, depth, sched[..|sched| - 1]), sched[|sched| - 1])
  }

  lemma NextStep(p: Plan, depth: nat, sched: seq<Step>, step: Step)
    requires p.Valid()
    ensures Legal(p, depth, sched + [step]) <==> Legal(p, depth, sched) && Enabled(p, depth, After(p, depth, sched), step)
    ensures Legal(p, depth, sched + [step]) ==>
              After(p, depth, sched + [step]) == Take(p, depth, After(p, depth, sched), step)
  {
    assert (sched + [step])[..|sched|] == sched;
  }

  // ---- every run --------------------------------------------------------------------------

  /** Rounds of `window` commands are carried out one after the other, and position
      `b` holds no command more than depth - 2 further on. */
  ghost predicate Allowed(tr: seq<nat>, window: nat, depth: nat)
    requires window > 0
  {
    forall b :: 0 <= b < |tr| ==> AllowedAt(tr, window, depth, b)
  }

  ghost predicate AllowedAt(tr: seq<nat>, window: nat, depth: nat, b: nat)
    requires window > 0 && b < |tr|
  {
    && tr[b] + 2 <= b + depth
    && forall j: nat :: j < (tr[b] / window) * window ==> j in tr[..b]
  }

  ghost predicate Good(p: Plan, depth: nat, s: State)
    requires p.Valid()
  {
    && InOrderSoFar(p, s.h, s.live) && (|s.live| < depth || s.live == [])
    && (s.h.barrier % p.window == 0 || s.h.barrier == |p.cmds|)
    && Allowed(s.h.trace, p.window, depth)
  }

  lemma {:induction false} AlwaysGood(p: Plan, depth: nat, sched: seq<Step>)
    requires p.Valid() && Legal(p, depth, sched)
    ensures Good(p, depth, After(p, depth, sched))
    decreases |sched|
  {
    if sched == [] {
      StartGood(p, depth);
    } else {
      var front, step := sched[..|sched| - 1], sched[|sched| - 1];
      AlwaysGood(p, depth, front);
      GoodStep(p, depth, After(p, depth, front), step);
    }
  }

  lemma StartGood(p: Plan, depth: nat)
    requires p.Valid()
    ensures Good(p, depth, Start(p))
  {
    assert Exec(p.start, p.cmds, p.faults, []) == p.start;
    assert 0 % p.window == 0 by { DivModUnique(0, p.window, 0, 0); }
  }

  lemma GoodStep(p: Plan, depth: nat, s: State, step: Step)
    requires p.Valid() && Good(p, depth, s) && Enabled(p, depth, s, step)
    ensures Good(p, depth, Take(p, depth, s, step))
  {
    hide InOrderSoFar, Allowed, Apply, Remove;
    match step
    case Submit => SubmitStep(p, s.h, s.live, Flight(s.h.submitted, 0, 0));
    case Carry(i) =>
      var k := s.live[i].k;
      assert InLive(s.live, k);
      ExecuteStep(p, s.h, s.live, k);
      CarryAllowed(p, depth, s, k);
    case Reap(i) =>
      ReapStep(p, s.h, s.live, i);
      RemoveLengths(s.live, i);
    case Barrier =>
      BarrierStep(p, s.h);
      if s.h.submitted != |p.cmds| { WholeRound(p, s.h); }
  }

  lemma WholeRound(p: Plan, h: History)
    requires p.Valid() && InOrderSoFar(p, h, []) && h.submitted == h.barrier + p.window && h.submitted != |p.cmds|
    requires h.barrier % p.window == 0 || h.barrier == |p.cmds|
    ensures h.submitted % p.window == 0
  {
    assert h.barrier % p.window == 0;
    SumWhole(h.barrier, p.window, p.window);
  }

  ghost function KsOf(live: seq<Flight>): (r: set<nat>)
    ensures |r| <= |live|
    ensures forall i :: 0 <= i < |live| ==> live[i].k in r
    decreases |live|
  {
    if live == [] then {} else KsOf(live[..|live| - 1]) + {live[|live| - 1].k}
  }

  ghost function Elements(tr: seq<nat>): (r: set<nat>)
    ensures |r| <= |tr|
    ensures forall x :: x in tr ==> x in r
    decreases |tr|
  {
    if tr == [] then {}
    else
      assert tr == tr[..|tr| - 1] + [tr[|tr| - 1]];
      Elements(tr[..|tr| - 1]) + {tr[|tr| - 1]}
  }

  ghost function Below(n: nat): (r: set<nat>)
    ensures |r| == n
    ensures forall x: nat :: x in r <==> x < n
  {
    if n == 0 then {} else Below(n - 1) + {n - 1}
  }

  lemma SubsetAtMost(a: set<nat>, b: set<nat>)
    requires a <= b
    ensures |a| <= |b|
  {
    assert b == a + (b - a);
  }

  lemma CarryAllowed(p: Plan, depth: nat, s: State, k: nat)
    requires p.Valid() && Good(p, depth, s) && InLive(s.live, k) && k !in s.h.media.ok
    ensures Allowed(s.h.trace + [k], p.window, depth)
  {
    var old', tr := s.h.trace, s.h.trace + [k];
    NotTooFar(p, depth, s, k);
    RoundsBefore(p, depth, s, k);
    forall b | 0 <= b < |tr| ensures AllowedAt(tr, p.window, depth, b) {
      if b < |old'| {
        assert AllowedAt(old', p.window, depth, b);
        assert tr[..b] == old'[..b];
      } else {
        assert tr[..b] == old';
      }
    }
  }

  /** Everything up to `k` has been submitted, and is carried out or in flight. */
  lemma NotTooFar(p: Plan, depth: nat, s: State, k: nat)
    requires p.Valid() && Good(p, depth, s) && InLive(s.live, k)
    ensures k + 2 <= |s.h.trace| + depth
  {
    hide KsOf, Elements, Below, InOrderSoFar, Allowed;
    forall x | x in Below(k + 1) ensures x in Elements(s.h.trace) + KsOf(s.live) {
      UpToSubmitted(p, s, k, x);
    }
    SubsetAtMost(Below(k + 1), Elements(s.h.trace) + KsOf(s.live));
    SumAtMost(Elements(s.h.trace), KsOf(s.live));
    assert |s.live| < depth by { SomeLive(s.live, k); }
  }

  lemma UpToSubmitted(p: Plan, s: State, k: nat, x: nat)
    requires p.Valid() && InOrderSoFar(p, s.h, s.live) && InLive(s.live, k) && x <= k
    ensures x in s.h.trace || InLive(s.live, x)
  {
  }

  lemma SomeLive(live: seq<Flight>, k: nat)
    requires InLive(live, k)
    ensures live != []
  {
  }

  lemma SumAtMost(a: set<nat>, b: set<nat>)
    ensures |a + b| <= |a| + |b|
  {
    assert a + b == a + (b - a);
    SubsetAtMost(b - a, b);
  }

  lemma RoundsBefore(p: Plan, depth: nat, s: State, k: nat)
    requires p.Valid() && Good(p, depth, s) && InLive(s.live, k)
    ensures forall j: nat :: j < (k / p.window) * p.window ==> j in s.h.trace
  {
    var w := p.window;
    assert s.h.barrier <= k < s.h.barrier + w && k < |p.cmds|;
    assert s.h.barrier % w == 0;
    var r := s.h.barrier / w;
    assert s.h.barrier == r * w;
    DivModUnique(k, w, r, k - s.h.barrier);
  }

  // ---- every allowed order --------------------------------------------------------------------

  /** Exactly the commands submitted and not yet carried out are in flight. */
  ghost predicate Lean(p: Plan, depth: nat, sched: seq<Step>, tr: seq<nat>, submitted: nat)
    requires p.Valid()
  {
    && Legal(p, depth, sched)
    && var s := After(p, depth, sched);
    && s.h.trace == tr && s.h.submitted == submitted <= |p.cmds|
    && |s.live| + |tr| == submitted
    && (forall k: nat :: InLive(s.live, k) <==> k < submitted && k !in tr)
    && (forall k :: k in tr ==> k < submitted)
  }

  lemma SubmitOne(p: Plan, depth: nat, sched: seq<Step>, tr: seq<nat>, submitted: nat) returns (more: seq<Step>)
    requires p.Valid() && depth >= 2 && Lean(p, depth, sched, tr, submitted)
    requires submitted < |p.cmds| && submitted + 2 <= |tr| + depth
    requires forall j: nat :: j < (submitted / p.window) * p.window ==> j in tr
    ensures Lean(p, depth, more, tr, submitted + 1)
  {
    AlwaysGood(p, depth, sched);
    var s := After(p, depth, sched);
    var w := p.window;
    more := sched;
    if submitted == s.h.barrier + w {
      NothingLeft(p, s, tr, submitted);
      NextStep(p, depth, sched, Barrier);
      more := sched + [Barrier];
    }
    var s1 := After(p, depth, more);
    NextStep(p, depth, more, Submit);
    LiveAppend(s1.live, Flight(submitted, 0, 0));
    more := more + [Submit];
  }

  /** At the end of a round everything submitted has been carried out. */
  lemma NothingLeft(p: Plan, s: State, tr: seq<nat>, submitted: nat)
    requires p.Valid() && InOrderSoFar(p, s.h, s.live) && s.h.submitted == submitted < |p.cmds|
    requires submitted == s.h.barrier + p.window && (s.h.barrier % p.window == 0 || s.h.barrier == |p.cmds|)
    requires forall j: nat :: j < (submitted / p.window) * p.window ==> j in tr
    requires forall k: nat :: InLive(s.live, k) ==> k < submitted && k !in tr
    ensures s.live == []
  {
    SumWhole(s.h.barrier, p.window, p.window);
    assert submitted == (submitted / p.window) * p.window;
    assert |s.live| > 0 ==> InLive(s.live, s.live[0].k) by { FirstLive(s.live); }
  }

  lemma FirstLive(live: seq<Flight>)
    ensures live == [] || InLive(live, live[0].k)
  {
  }

  lemma LiveAppend(live: seq<Flight>, f: Flight)
    ensures forall k: nat :: InLive(live + [f], k) <==> InLive(live, k) || k == f.k
  {
    var more := live + [f];
    forall k: nat ensures InLive(more, k) <==> InLive(live, k) || k == f.k {
      if InLive(live, k) {
        var i :| 0 <= i < |live| && live[i].k == k;
        assert more[i].k == k;
      }
      assert more[|live|] == f;
    }
  }

  lemma {:induction false} SubmitUpTo(p: Plan, depth: nat, sched: seq<Step>, tr: seq<nat>, submitted: nat, k: nat) returns (more: seq<Step>)
    requires p.Valid() && depth >= 2 && Lean(p, depth, sched, tr, submitted)
    requires k < |p.cmds| && k + 2 <= |tr| + depth
    requires forall j: nat :: j < (k / p.window) * p.window ==> j in tr
    ensures Lean(p, depth, more, tr, if k < submitted then submitted else k + 1)
    decreases k + 1 - submitted
  {
    if k < submitted {
      more := sched;
    } else {
      forall j: nat | j < (submitted / p.window) * p.window ensures j in tr {
        RoundsMonotone(submitted, k, p.window);
      }
      hide Lean;
      more := SubmitOne(p, depth, sched, tr, submitted);
      more := SubmitUpTo(p, depth, more, tr, submitted + 1, k);
    }
  }

  lemma RoundsMonotone(a: nat, b: nat, w: nat)
    requires w > 0 && a <= b
    ensures (a / w) * w <= (b / w) * w
  {
    assert a == (a / w) * w + a % w && b == (b / w) * w + b % w;
    assert (b / w + 1) * w == (b / w) * w + w;
    if a / w > b / w { MulLe(b / w + 1, a / w, w); } else { MulLe(a / w, b / w, w); }
  }

  /** Carry out a command in flight and reap it. */
  lemma CarryAndReap(p: Plan, depth: nat, sched: seq<Step>, tr: seq<nat>, submitted: nat, k: nat) returns (more: seq<Step>)
    requires p.Valid() && Lean(p, depth, sched, tr, submitted) && k < submitted && k !in tr
    ensures Lean(p, depth, more, tr + [k], submitted)
  {
    AlwaysGood(p, depth, sched);
    var s := After(p, depth, sched);
    var i :| 0 <= i < |s.live| && s.live[i].k == k;
    NextStep(p, depth, sched, Carry(i));
    var one := sched + [Carry(i)];
    ApplyFrame(s.h.media, p.cmds, p.faults, k);
    NextStep(p, depth, one, Reap(i));
    more := one + [Reap(i)];
    forall j: nat ensures InLive(Remove(s.live, i), j) <==> InLive(s.live, j) && j != k {
      InLiveRemove(s.live, i, j);
    }
    RemoveLengths(s.live, i);
    assert forall j :: j in tr + [k] <==> j in tr || j == k;
  }

  lemma {:induction false} CarryOutAll(p: Plan, depth: nat, tr: seq<nat>, b: nat) returns (sched: seq<Step>, submitted: nat)
    requires p.Valid() && depth >= 2 && Trace(p.cmds, tr) && NoDup(tr) && Allowed(tr, p.window, depth) && b <= |tr|
    ensures Lean(p, depth, sched, tr[..b], submitted)
    decreases b
  {
    if b == 0 {
      sched, submitted := [], 0;
      assert tr[..0] == [];
      assert forall k: nat :: !InLive([], k);
    } else {
      var done, k := tr[..b - 1], tr[b - 1];
      sched, submitted := CarryOutAll(p, depth, tr, b - 1);
      assert AllowedAt(tr, p.window, depth, b - 1);
      assert k !in done;
      hide Lean;
      sched := SubmitUpTo(p, depth, sched, done, submitted, k);
      submitted := if k < submitted then submitted else k + 1;
      sched := CarryAndReap(p, depth, sched, done, submitted, k);
      assert done + [k] == tr[..b];
    }
  }

  ghost predicate Finished(p: Plan, s: State) {
    s.h.submitted == |p.cmds| && s.live == []
  }

  /** A complete order of execution happens in some run of the asynchronous loop if
      and only if rounds follow each other and no command is more than depth - 2
      places early: within that, the device and the completions are free. */
  lemma OrderHappensIff(p: Plan, depth: nat, tr: seq<nat>)
    requires p.Valid() && depth >= 2 && Covers(tr, |p.cmds|)
    ensures (exists sched :: Legal(p, depth, sched) && Finished(p, After(p, depth, sched)) && After(p, depth, sched).h.trace == tr)
       <==> Allowed(tr, p.window, depth)
  {
    hide Allowed, Legal, After;
    if Allowed(tr, p.window, depth) {
      var sched := OrderHappens(p, depth, tr);
    }
    if sched :| Legal(p, depth, sched) && Finished(p, After(p, depth, sched)) && After(p, depth, sched).h.trace == tr {
      AlwaysGood(p, depth, sched);
    }
  }

  lemma OrderHappens(p: Plan, depth: nat, tr: seq<nat>) returns (sched: seq<Step>)
    requires p.Valid() && depth >= 2 && Covers(tr, |p.cmds|) && Allowed(tr, p.window, depth)
    ensures Legal(p, depth, sched) && Finished(p, After(p, depth, sched)) && After(p, depth, sched).h.trace == tr
  {
    forall b | 0 <= b < |tr| ensures tr[b] < |p.cmds| {
      assert tr[b] in tr;
    }
    var submitted;
    sched, submitted := CarryOutAll(p, depth, tr, |tr|);
    assert tr[..|tr|] == tr;
    assert submitted == |p.cmds| by {
      assert |p.cmds| > 0 ==> |p.cmds| - 1 in tr;
    }
    FirstLive(After(p, depth, sched).live);
  }

  /** Every such run leaves the device as sequential execution does. */
  lemma EveryOrderIsSequential(p: Plan, depth: nat, sched: seq<Step>)
    requires p.Valid() && Legal(p, depth, sched) && Finished(p, After(p, depth, sched))
    ensures After(p, depth, sched).h.media == Exec(p.start, p.cmds, p.faults, InOrder(|p.cmds|))
  {
    AlwaysGood(p, depth, sched);
    FinishedIsSequential(p, After(p, depth, sched).h);
  }
}
