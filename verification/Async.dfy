/** The asynchronous loop of a virtual block and the queue below it: two
    free-stacks, `rets`/`retsp` in the virtual block and `iocbs`/`outstanding` in
    the backend, used under any order of execution and completion. */
module Async {
  import opened Arith
  import opened Schedule
  import OL = OrderedLoop

  /** A submitted command: its stripe and the two entries it occupies. */
  datatype Flight = Flight(k: nat, ret: nat, iocb: nat)

  // ---- pools ------------------------------------------------------------------

  function RetsOf(live: seq<Flight>): seq<nat> {
    seq(|live|, i requires 0 <= i < |live| => live[i].ret)
  }

  function IocbsOf(live: seq<Flight>): seq<nat> {
    seq(|live|, i requires 0 <= i < |live| => live[i].iocb)
  }

  /** The free entries of a stack and those in flight are the whole pool, each
      entry once. */
  ghost predicate Partition(stack: seq<nat>, sp: nat, used: seq<nat>, depth: nat) {
    && |stack| == depth && sp == |used| <= depth
    && multiset(stack[sp..]) + multiset(used) == multiset(InOrder(depth))
  }

  lemma PartitionPop(stack: seq<nat>, sp: nat, used: seq<nat>, depth: nat)
    requires Partition(stack, sp, used, depth) && sp < depth
    ensures Partition(stack, sp + 1, used + [stack[sp]], depth)
  {
    assert stack[sp..] == [stack[sp]] + stack[sp + 1..];
  }

  lemma PartitionPush(stack: seq<nat>, sp: nat, used: seq<nat>, x: nat, rest: seq<nat>, depth: nat)
    requires Partition(stack, sp, used, depth)
    requires multiset(used) == multiset([x]) + multiset(rest) && |used| == |rest| + 1
    ensures sp > 0 && Partition(stack[sp - 1 := x], sp - 1, rest, depth)
  {
    assert stack[sp - 1 := x][sp - 1..] == [x] + stack[sp..];
  }

  /** No entry is ever both free and in flight, or in flight twice. */
  lemma PartitionDistinct(stack: seq<nat>, sp: nat, used: seq<nat>, depth: nat)
    requires Partition(stack, sp, used, depth)
    ensures NoDup(used) && forall x :: x in used ==> x !in stack[sp..]
  {
    var all := stack[sp..] + used;
    assert multiset(all) == multiset(InOrder(depth));
    forall x ensures multiset(all)[x] <= 1 {
      InOrderOnce(depth, x);
    }
    forall a, b | 0 <= a < b < |used| ensures used[a] != used[b] {
      TwiceCounts(used, a, b);
      assert multiset(all)[used[a]] >= multiset(used)[used[a]];
    }
    forall x | x in used ensures x !in stack[sp..] {
      assert multiset(all)[x] == multiset(stack[sp..])[x] + multiset(used)[x];
    }
  }

  lemma {:induction false} InOrderOnce(n: nat, x: nat)
    ensures multiset(InOrder(n))[x] <= 1
    decreases n
  {
    if n > 0 {
      InOrderOnce(n - 1, x);
      assert InOrder(n) == InOrder(n - 1) + [n - 1];
      if x == n - 1 { assert x !in InOrder(n - 1); }
    }
  }

  lemma TwiceCounts(s: seq<nat>, a: nat, b: nat)
    requires a < b < |s|
    ensures s[a] == s[b] ==> multiset(s)[s[a]] >= 2
  {
    assert s == s[..a] + [s[a]] + s[a + 1..b] + [s[b]] + s[b + 1..];
  }

  // ---- moving flights around ------------------------------------------------------

  function Remove(live: seq<Flight>, i: nat): seq<Flight>
    requires i < |live|
  {
    live[..i] + live[i + 1..]
  }

  lemma RemoveCounts(live: seq<Flight>, i: nat)
    requires i < |live|
    ensures multiset(RetsOf(live)) == multiset([live[i].ret]) + multiset(RetsOf(Remove(live, i)))
    ensures multiset(IocbsOf(live)) == multiset([live[i].iocb]) + multiset(IocbsOf(Remove(live, i)))
  {
    assert RetsOf(live) == RetsOf(live)[..i] + [live[i].ret] + RetsOf(live)[i + 1..];
    assert RetsOf(Remove(live, i)) == RetsOf(live)[..i] + RetsOf(live)[i + 1..];
    assert IocbsOf(live) == IocbsOf(live)[..i] + [live[i].iocb] + IocbsOf(live)[i + 1..];
    assert IocbsOf(Remove(live, i)) == IocbsOf(live)[..i] + IocbsOf(live)[i + 1..];
  }

  lemma RemoveLengths(live: seq<Flight>, i: nat)
    requires i < |live|
    ensures |Remove(live, i)| == |live| - 1
    ensures |RetsOf(live)| == |live| && |RetsOf(Remove(live, i))| == |live| - 1
    ensures |IocbsOf(live)| == |live| && |IocbsOf(Remove(live, i))| == |live| - 1
  {
  }

  lemma RetsOfConcat(a: seq<Flight>, b: seq<Flight>)
    ensures RetsOf(a + b) == RetsOf(a) + RetsOf(b)
    ensures IocbsOf(a + b) == IocbsOf(a) + IocbsOf(b)
  {
  }

  lemma MoveCounts(queue: seq<Flight>, events: seq<Flight>, i: nat)
    requires i < |queue|
    ensures var a, b := queue + events, Remove(queue, i) + (events + [queue[i]]);
            && |a| == |b|
            && multiset(RetsOf(a)) == multiset(RetsOf(b))
            && multiset(IocbsOf(a)) == multiset(IocbsOf(b))
  {
    RemoveCounts(queue, i);
    RetsOfConcat(queue, events);
    RetsOfConcat(Remove(queue, i), events + [queue[i]]);
    RetsOfConcat(events, [queue[i]]);
  }

  /** Reaping a completion gives both entries back to their stacks. */
  lemma ReapCoupled(live: seq<Flight>, i: nat, rets: seq<nat>, retsp: nat, depth: nat,
                    iocbs: seq<nat>, outstanding: nat, spdk: bool)
    requires i < |live| && outstanding == |live| && Partition(rets, retsp, RetsOf(live), depth)
    requires !spdk ==> Partition(iocbs, outstanding, IocbsOf(live), depth)
    ensures retsp > 0 && |rets| >= retsp && outstanding > 0 && |Remove(live, i)| == outstanding - 1
    ensures Partition(rets[retsp - 1 := live[i].ret], retsp - 1, RetsOf(Remove(live, i)), depth)
    ensures !spdk ==> |iocbs| >= outstanding
    ensures !spdk ==> Partition(iocbs[outstanding - 1 := live[i].iocb], outstanding - 1, IocbsOf(Remove(live, i)), depth)
  {
    RemoveCounts(live, i);
    RemoveLengths(live, i);
    hide RetsOf, IocbsOf, Remove;
    PartitionPush(rets, retsp, RetsOf(live), live[i].ret, RetsOf(Remove(live, i)), depth);
    if !spdk {
      PartitionPush(iocbs, outstanding, IocbsOf(live), live[i].iocb, IocbsOf(Remove(live, i)), depth);
    }
  }

  /** Reporting a completion changes nothing about which entries are in use. */
  lemma MovePartition(queue: seq<Flight>, events: seq<Flight>, i: nat, rets: seq<nat>, retsp: nat,
                      iocbs: seq<nat>, outstanding: nat, depth: nat, spdk: bool)
    requires i < |queue| && Partition(rets, retsp, RetsOf(queue + events), depth)
    requires !spdk ==> Partition(iocbs, outstanding, IocbsOf(queue + events), depth)
    ensures var live := Remove(queue, i) + (events + [queue[i]]);
            && Partition(rets, retsp, RetsOf(live), depth)
            && (!spdk ==> Partition(iocbs, outstanding, IocbsOf(live), depth))
  {
    MoveCounts(queue, events, i);
  }

  // ---- what the device has done --------------------------------------------------------

  /** The commands of one call, on a device that fails those in `faults`; a
      barrier every `window` stripes. */
  datatype Plan = Plan(cmds: seq<Cmd>, faults: set<nat>, start: Media, window: nat) {
    ghost predicate Valid() {
      window > 0 && AllValid(cmds) && OL.Separated(cmds, window) && start.ok == map[]
    }
  }

  datatype History = History(media: Media, trace: seq<nat>, submitted: nat, barrier: nat)

  ghost predicate InLive(live: seq<Flight>, k: nat) {
    exists i :: 0 <= i < |live| && live[i].k == k
  }

  ghost predicate Flying(live: seq<Flight>, lo: nat, hi: nat) {
    && (forall i :: 0 <= i < |live| ==> lo <= live[i].k < hi)
    && (forall i, j :: 0 <= i < j < |live| ==> live[i].k != live[j].k)
  }

  /** Everything before the last barrier has been carried out; commands in
      flight are all after it, at most one round of them. */
  ghost predicate InOrderSoFar(p: Plan, h: History, live: seq<Flight>)
    requires p.Valid()
  {
    && Trace(p.cmds, h.trace) && NoDup(h.trace) && Respects(p.cmds, h.trace)
    && h.media == Exec(p.start, p.cmds, p.faults, h.trace)
    && (forall k :: k in h.media.ok <==> k in h.trace)
    && h.barrier <= h.submitted <= |p.cmds| && h.submitted <= h.barrier + p.window
    && (forall k :: k in h.trace ==> k < h.submitted)
    && (forall k: nat :: k < h.barrier ==> k in h.trace)
    && (forall k: nat :: h.barrier <= k < h.submitted ==> k in h.trace || InLive(live, k))
    && Flying(live, h.barrier, h.submitted)
  }

  /** In every reachable state the commands in flight address different chunks. */
  lemma InFlightApart(p: Plan, h: History, live: seq<Flight>, i: nat, j: nat)
    requires p.Valid() && InOrderSoFar(p, h, live) && i < |live| && j < |live| && i != j
    ensures !Conflict(p.cmds, live[i].k, live[j].k)
  {
    var a, b := live[i].k, live[j].k;
    assert a != b;
    assert Conflict(p.cmds, a, b) <==> Conflict(p.cmds, b, a);
    if a < b { assert b - a < p.window; } else { assert a - b < p.window; }
  }

  /** The trace still respects conflicts when a command in flight is carried out:
      everything it conflicts with lies before the barrier. */
  lemma ExecuteTrace(p: Plan, h: History, live: seq<Flight>, k: nat)
    requires p.Valid() && InOrderSoFar(p, h, live) && h.barrier <= k < h.submitted && k !in h.trace
    ensures Trace(p.cmds, h.trace + [k]) && NoDup(h.trace + [k]) && Respects(p.cmds, h.trace + [k])
  {
    hide Conflict, Exec;
    var tr := h.trace + [k];
    forall b, i | 0 <= b < |tr| && 0 <= i < tr[b] && Conflict(p.cmds, i, tr[b]) ensures i in tr[..b] {
      if b < |h.trace| {
        assert tr[..b] == h.trace[..b];
      } else {
        assert tr[..b] == h.trace;
        assert k - i >= p.window;
      }
    }
  }

  /** The device may carry out any command in flight. */
  lemma ExecuteStep(p: Plan, h: History, live: seq<Flight>, k: nat)
    requires p.Valid() && InOrderSoFar(p, h, live)
    requires InLive(live, k) && k !in h.media.ok
    ensures k < |p.cmds| && p.cmds[k].Valid()
    ensures InOrderSoFar(p, h.(media := Apply(h.media, p.cmds, p.faults, k), trace := h.trace + [k]), live)
  {
    hide Conflict, Exec, Apply, Respects, NoDup, Trace;
    ExecuteTrace(p, h, live, k);
    ExecSnoc(p.start, p.cmds, p.faults, h.trace, k);
    ApplyFrame(h.media, p.cmds, p.faults, k);
    var tr := h.trace + [k];
    assert forall x :: x in tr <==> x in h.trace || x == k;
  }

  lemma SubmitStep(p: Plan, h: History, live: seq<Flight>, f: Flight)
    requires p.Valid() && InOrderSoFar(p, h, live)
    requires f.k == h.submitted < |p.cmds| && h.submitted < h.barrier + p.window
    ensures InOrderSoFar(p, h.(submitted := h.submitted + 1), live + [f])
  {
    var live' := live + [f];
    forall k: nat | h.barrier <= k < h.submitted + 1 ensures k in h.trace || InLive(live', k) {
      if k == h.submitted {
        assert live'[|live|].k == k;
      } else if k !in h.trace {
        var i :| 0 <= i < |live| && live[i].k == k;
        assert live'[i].k == k;
      }
    }
  }

  lemma ReapStep(p: Plan, h: History, live: seq<Flight>, i: nat)
    requires p.Valid() && InOrderSoFar(p, h, live) && i < |live| && live[i].k in h.media.ok
    ensures InOrderSoFar(p, h, Remove(live, i))
  {
    var rest := Remove(live, i);
    forall k: nat | h.barrier <= k < h.submitted ensures k in h.trace || InLive(rest, k) {
      if k !in h.trace {
        var j :| 0 <= j < |live| && live[j].k == k;
        assert rest[if j < i then j else j - 1].k == k;
      }
    }
  }

  lemma MoveStep(p: Plan, h: History, queue: seq<Flight>, events: seq<Flight>, i: nat)
    requires p.Valid() && InOrderSoFar(p, h, queue + events) && i < |queue|
    ensures InOrderSoFar(p, h, Remove(queue, i) + (events + [queue[i]]))
  {
    var a, b := queue + events, Remove(queue, i) + (events + [queue[i]]);
    forall k: nat | h.barrier <= k < h.submitted ensures k in h.trace || InLive(b, k) {
      if k !in h.trace {
        var j :| 0 <= j < |a| && a[j].k == k;
        assert b[if j < i then j else if j == i then |b| - 1 else j - 1].k == k;
      }
    }
    assert forall j :: 0 <= j < |b| ==> b[j] == a[if j < i then j else if j == |b| - 1 then i else j + 1];
  }

  lemma BarrierStep(p: Plan, h: History)
    requires p.Valid() && InOrderSoFar(p, h, [])
    ensures InOrderSoFar(p, h.(barrier := h.submitted), [])
  {
  }

  /** Once nothing is in flight any more, the device is as if the commands had
      been carried out one after the other. */
  lemma FinishedIsSequential(p: Plan, h: History)
    requires p.Valid() && InOrderSoFar(p, h, []) && h.submitted == |p.cmds|
    ensures h.media == Exec(p.start, p.cmds, p.faults, InOrder(|p.cmds|))
  {
    assert Covers(h.trace, |p.cmds|);
    RespectfulOrderIsProgramOrder(p.start, p.cmds, p.faults, h.trace, |p.cmds|);
  }

  // ---- counting failures ------------------------------------------------------------

  /** What the completions say of the commands carried out. SPDK passes the
      outcome on; the block-device backend looks at the second result word of the
      event alone, which is nonzero for the commands in `res2`. */
  function Status(ok: map<nat, bool>, res2: set<nat>, spdk: bool): (r: map<nat, bool>)
    ensures r.Keys == ok.Keys
    ensures forall k :: k in ok ==> r[k] == if spdk then ok[k] else k !in res2
  {
    map k | k in ok :: if spdk then ok[k] else k !in res2
  }

  lemma StatusNext(ok: map<nat, bool>, res2: set<nat>, spdk: bool, k: nat, b: bool)
    ensures Status(ok[k := b], res2, spdk) == Status(ok, res2, spdk)[k := if spdk then b else k !in res2]
  {
  }

  /** `nerr` is 0 exactly when every command reaped so far completed with success. */
  ghost predicate Tally(ok: map<nat, bool>, live: seq<Flight>, nerr: nat) {
    nerr == 0 <==> forall k :: k in ok && !InLive(live, k) ==> ok[k]
  }

  lemma InLiveRemove(live: seq<Flight>, i: nat, k: nat)
    requires i < |live| && forall a, b :: 0 <= a < b < |live| ==> live[a].k != live[b].k
    ensures InLive(Remove(live, i), k) <==> InLive(live, k) && k != live[i].k
  {
    var rest := Remove(live, i);
    if InLive(rest, k) {
      var j :| 0 <= j < |rest| && rest[j].k == k;
      assert live[if j < i then j else j + 1].k == k;
    }
    if InLive(live, k) && k != live[i].k {
      var j :| 0 <= j < |live| && live[j].k == k;
      assert rest[if j < i then j else j - 1].k == k;
    }
  }

  lemma TallyReap(ok: map<nat, bool>, live: seq<Flight>, i: nat, nerr: nat)
    requires i < |live| && live[i].k in ok && Tally(ok, live, nerr)
    requires forall a, b :: 0 <= a < b < |live| ==> live[a].k != live[b].k
    ensures Tally(ok, Remove(live, i), if ok[live[i].k] then nerr else nerr + 1)
  {
    forall k ensures k >= 0 ==> (InLive(Remove(live, i), k) <==> InLive(live, k) && k != live[i].k) {
      if k >= 0 { InLiveRemove(live, i, k); }
    }
  }

  lemma ReapTally(p: Plan, h: History, ok: map<nat, bool>, live: seq<Flight>, i: nat, nerr: nat)
    requires p.Valid() && InOrderSoFar(p, h, live) && i < |live| && live[i].k in ok
    requires Tally(ok, live, nerr)
    ensures Tally(ok, Remove(live, i), if ok[live[i].k] then nerr else nerr + 1)
  {
    TallyReap(ok, live, i, nerr);
  }

  lemma MoveInLive(queue: seq<Flight>, events: seq<Flight>, i: nat, k: nat)
    requires i < |queue|
    ensures InLive(queue + events, k) <==> InLive(Remove(queue, i) + (events + [queue[i]]), k)
  {
    var a, b := queue + events, Remove(queue, i) + (events + [queue[i]]);
    if InLive(a, k) {
      var j :| 0 <= j < |a| && a[j].k == k;
      assert b[if j < i then j else if j == i then |b| - 1 else j - 1].k == k;
    }
    if InLive(b, k) {
      var j :| 0 <= j < |b| && b[j].k == k;
      assert a[if j < i then j else if j == |b| - 1 then i else j + 1].k == k;
    }
  }

  lemma TallyMove(ok: map<nat, bool>, queue: seq<Flight>, events: seq<Flight>, i: nat, nerr: nat)
    requires i < |queue| && Tally(ok, queue + events, nerr)
    ensures Tally(ok, Remove(queue, i) + (events + [queue[i]]), nerr)
  {
    hide InLive, Remove;
    forall k: nat ensures InLive(queue + events, k) <==> InLive(Remove(queue, i) + (events + [queue[i]]), k) {
      MoveInLive(queue, events, i, k);
    }
  }

  /** With nothing in flight the count covers every command. */
  lemma TallyEnd(ok: map<nat, bool>, nerr: nat)
    requires Tally(ok, [], nerr)
    ensures nerr == 0 <==> forall k :: k in ok ==> ok[k]
  {
    assert forall k: nat :: !InLive([], k);
  }

  lemma QueuedIsLive(queue: seq<Flight>, events: seq<Flight>, i: nat)
    requires i < |queue|
    ensures InLive(queue + events, queue[i].k)
  {
    assert (queue + events)[i] == queue[i];
  }

  lemma TallyExecute(ok: map<nat, bool>, live: seq<Flight>, k: nat, b: bool, nerr: nat)
    requires Tally(ok, live, nerr) && InLive(live, k) && k !in ok
    ensures Tally(ok[k := b], live, nerr)
  {
  }

  lemma TallySubmit(ok: map<nat, bool>, live: seq<Flight>, f: Flight, nerr: nat)
    requires f.k !in ok && Tally(ok, live, nerr)
    ensures Tally(ok, live + [f], nerr)
  {
    var live' := live + [f];
    forall k: nat | k in ok ensures InLive(live, k) <==> InLive(live', k) {
      if InLive(live, k) {
        var j :| 0 <= j < |live| && live[j].k == k;
        assert live'[j].k == k;
      }
    }
  }

  // ---- the loop ---------------------------------------------------------------------------

  /** One call of the asynchronous loop over a queue of `depth` entries. With
      `spdk` the backend only counts; otherwise it keeps a stack of control
      blocks as well. */
  class AsyncRun {
    const plan: Plan
    const depth: nat
    const spdk: bool
    const res2: set<nat>        // completions whose second result word is nonzero
    var hist: History
    var queue: seq<Flight>      // submitted and not yet reaped
    var rets: seq<nat>
    var retsp: nat
    var iocbs: seq<nat>
    var outstanding: nat
    var nerr: nat
    ghost var refused: bool     // a submission failed though there was room
    ghost var waits: nat        // how often the loop waited for everything

    /** The two stacks move together and each partitions its pool. */
    ghost predicate Coupled(live: seq<Flight>)
      reads this
    {
      && Partition(rets, retsp, RetsOf(live), depth)
      && outstanding == |live|
      && (!spdk ==> Partition(iocbs, outstanding, IocbsOf(live), depth))
    }

    ghost function Statuses(): map<nat, bool>
      reads this
    {
      Status(hist.media.ok, res2, spdk)
    }

    /** A wait returns after as many completions as are outstanding; no more will
        come than there are commands in flight. */
    ghost predicate WaitCanReturn()
      reads this
    {
      outstanding <= |queue|
    }

    ghost predicate Valid(live: seq<Flight>)
      reads this
    {
      && plan.Valid() && depth > 0
      && Coupled(live)
      && InOrderSoFar(plan, hist, live)
      && Tally(Statuses(), live, nerr)
    }

    /** Fresh stacks, as set up when the virtual block is made asynchronous. */
    constructor (plan: Plan, depth: nat, spdk: bool, res2: set<nat>)
      requires plan.Valid() && depth > 0
      ensures this.plan == plan && this.depth == depth && this.spdk == spdk && this.res2 == res2
      ensures Valid([]) && queue == [] && nerr == 0 && retsp == 0 && hist.submitted == 0 && hist.barrier == 0
      ensures !refused && waits == 0
    {
      this.plan, this.depth, this.spdk, this.res2 := plan, depth, spdk, res2;
      hist := History(plan.start, [], 0, 0);
      queue, retsp, outstanding, nerr := [], 0, 0, 0;
      rets, iocbs := InOrder(depth), InOrder(depth);
      refused, waits := false, 0;
    }

    /** The device carries out a queued command. */
    method Execute(i: nat, ghost events: seq<Flight>)
      requires Valid(queue + events) && i < |queue| && queue[i].k !in hist.media.ok
      modifies this`hist
      ensures Valid(queue + events)
      ensures queue[i].k in hist.media.ok && queue[i].k < |plan.cmds|
      ensures hist.trace == old(hist.trace) + [queue[i].k]
      ensures hist.media == Apply(old(hist.media), plan.cmds, plan.faults, queue[i].k)
      ensures forall k :: k in old(hist.media.ok) ==> k in hist.media.ok
      ensures hist.submitted == old(hist.submitted) && hist.barrier == old(hist.barrier)
    {
      hide InOrderSoFar, Tally, Partition, RetsOf, IocbsOf, Apply, InLive;
      var k := queue[i].k;
      QueuedIsLive(queue, events, i);
      ExecuteStep(plan, hist, queue + events, k);
      ApplyFrame(hist.media, plan.cmds, plan.faults, k);
      ghost var outcome := Apply(hist.media, plan.cmds, plan.faults, k).ok[k];
      StatusNext(hist.media.ok, res2, spdk, k, outcome);
      TallyExecute(Statuses(), queue + events, k, if spdk then outcome else k !in res2, nerr);
      hist := hist.(media := Apply(hist.media, plan.cmds, plan.faults, k), trace := hist.trace + [k]);
    }

    /** io_getevents: at least `min` completions, in any order; meanwhile the
        device may carry out any queued commands. */
    method IoGetevents(min: nat, max: nat) returns (events: seq<Flight>)
      requires Valid(queue) && min <= |queue| && min <= max
      modifies this`hist, this`queue
      ensures Valid(queue + events)
      ensures min <= |events| && |queue| + |events| == |old(queue)|
      ensures forall i :: 0 <= i < |events| ==> events[i].k in hist.media.ok
      ensures hist.submitted == old(hist.submitted) && hist.barrier == old(hist.barrier)
    {
      events := [];
      assert queue + events == queue;
      var more: bool := *;
      while |queue| > 0 && |events| < max && (|events| < min || more)
        invariant Valid(queue + events) && |queue| + |events| == |old(queue)|
        invariant forall i :: 0 <= i < |events| ==> events[i].k in hist.media.ok
        invariant hist.submitted == old(hist.submitted) && hist.barrier == old(hist.barrier)
        decreases |queue|
      {
        var i: nat := *;
        if !(0 <= i < |queue|) { i := 0; }
        events := TakeOne(events, i);
        more := *;
      }
    }

    /** One more completion, of any queued command; meanwhile the device may carry
        out others. */
    method TakeOne(events: seq<Flight>, i: nat) returns (events': seq<Flight>)
      requires Valid(queue + events) && i < |queue|
      requires forall i :: 0 <= i < |events| ==> events[i].k in hist.media.ok
      modifies this`hist, this`queue
      ensures Valid(queue + events') && |events'| == |events| + 1 && |queue| + 1 == |old(queue)|
      ensures events' == events + [old(queue)[i]] && queue == Remove(old(queue), i)
      ensures forall i :: 0 <= i < |events'| ==> events'[i].k in hist.media.ok
      ensures hist.submitted == old(hist.submitted) && hist.barrier == old(hist.barrier)
    {
      hide InOrderSoFar, Tally, Partition, RetsOf, IocbsOf;
      var n: nat := *;
      Progress(if n < 0 then 0 else n, events);
      if queue[i].k !in hist.media.ok { Execute(i, events); }
      MoveStep(plan, hist, queue, events, i);
      MoveCounts(queue, events, i);
      TallyMove(Statuses(), queue, events, i, nerr);
      MovePartition(queue, events, i, rets, retsp, iocbs, outstanding, depth, spdk);
      events', queue := events + [queue[i]], Remove(queue, i);
    }

    /** The device carries out up to `n` queued commands, any of them. */
    method Progress(n: nat, ghost events: seq<Flight>)
      requires Valid(queue + events)
      modifies this`hist
      ensures Valid(queue + events)
      ensures forall k :: k in old(hist.media.ok) ==> k in hist.media.ok
      ensures hist.submitted == old(hist.submitted) && hist.barrier == old(hist.barrier)
    {
      var left := n;
      while left > 0
        invariant Valid(queue + events)
        invariant forall k :: k in old(hist.media.ok) ==> k in hist.media.ok
        invariant hist.submitted == old(hist.submitted) && hist.barrier == old(hist.barrier)
      {
        var i: nat := *;
        if 0 <= i < |queue| && queue[i].k !in hist.media.ok { Execute(i, events); }
        left := left - 1;
      }
    }

    /** The virtual block's completion callback. */
    method Callback(ret: nat, failed: bool)
      requires 0 < retsp <= |rets|
      modifies this`rets, this`retsp, this`nerr
      ensures retsp == old(retsp) - 1 && rets == old(rets)[retsp := ret]
      ensures nerr == old(nerr) + (if failed then 1 else 0)
    {
      if failed { nerr := nerr + 1; }
      retsp := retsp - 1;
      rets := rets[retsp := ret];
    }

    /** Completion in the SPDK backend: lower the count, then call back. */
    method CompleteSpdk(f: Flight, ghost live: seq<Flight>, ghost i: nat)
      requires spdk && Valid(live) && i < |live| && live[i] == f && f.k in hist.media.ok
      modifies this`rets, this`retsp, this`outstanding, this`nerr
      ensures Valid(Remove(live, i))
    {
      hide InOrderSoFar, Tally, RetsOf, IocbsOf, Remove, Partition;
      ReapCoupled(live, i, rets, retsp, depth, iocbs, outstanding, spdk);
      ReapStep(plan, hist, live, i);
      ReapTally(plan, hist, Statuses(), live, i, nerr);
      outstanding := outstanding - 1;
      Callback(f.ret, !hist.media.ok[f.k]);
    }

    /** Completion in the block-device backend: call back with the second result
        word of the event, then return the control block. */
    method CompleteLbd(f: Flight, ghost live: seq<Flight>, ghost i: nat)
      requires !spdk && Valid(live) && i < |live| && live[i] == f && f.k in hist.media.ok
      modifies this`rets, this`retsp, this`iocbs, this`outstanding, this`nerr
      ensures Valid(Remove(live, i))
    {
      hide InOrderSoFar, Tally, RetsOf, IocbsOf, Remove, Partition;
      ReapCoupled(live, i, rets, retsp, depth, iocbs, outstanding, spdk);
      ReapStep(plan, hist, live, i);
      ReapTally(plan, hist, Statuses(), live, i, nerr);
      Callback(f.ret, f.k in res2);
      outstanding := outstanding - 1;
      iocbs := iocbs[outstanding := f.iocb];
    }

    /** Reap completions until none is ready; the first poll yields at least `min`.
        Callers ask for none or for everything outstanding, so later polls have no
        minimum left to wait for. */
    method GetEvents(min: nat) returns (nevents: nat)
      requires Valid(queue) && min <= |queue|
      modifies this`hist, this`queue, this`rets, this`retsp, this`iocbs, this`outstanding, this`nerr
      ensures Valid(queue) && nevents >= min && |queue| + nevents == |old(queue)|
      ensures hist.submitted == old(hist.submitted) && hist.barrier == old(hist.barrier)
    {
      hide InOrderSoFar, Tally, Partition, RetsOf, IocbsOf, Statuses;
      nevents := 0;
      var need := min;
      while outstanding > 0
        invariant Valid(queue) && |queue| + nevents == |old(queue)|
        invariant 0 <= need <= |queue| && (nevents >= min || need == min)
        invariant hist.submitted == old(hist.submitted) && hist.barrier == old(hist.barrier)
        decreases |queue|
      {
        CoupledCounts(queue, rets, retsp, depth, iocbs, outstanding, spdk);
        var events := IoGetevents(need, depth);
        need := 0;
        if |events| == 0 {
          assert queue + events == queue;
          break;
        }
        Process(events);
        nevents := nevents + |events|;
      }
    }

    /** The completions of one poll, in the order they were reported. */
    method Process(events: seq<Flight>)
      requires Valid(queue + events)
      requires forall i :: 0 <= i < |events| ==> events[i].k in hist.media.ok
      modifies this`rets, this`retsp, this`iocbs, this`outstanding, this`nerr
      ensures Valid(queue)
    {
      hide InOrderSoFar, Tally, Partition, RetsOf, IocbsOf;
      var i := 0;
      assert events[0..] == events;
      while i < |events|
        invariant 0 <= i <= |events| && Valid(queue + events[i..])
      {
        ghost var live := queue + events[i..];
        if spdk {
          CompleteSpdk(events[i], live, |queue|);
        } else {
          CompleteLbd(events[i], live, |queue|);
        }
        assert Remove(live, |queue|) == queue + events[i + 1..];
        i := i + 1;
      }
      assert queue + events[|events|..] == queue;
    }

    /** Backend submission: EAGAIN when every entry is taken, else one entry is
        taken and the command goes to the device. A failed submission gives the
        count back in SPDK and keeps it raised in the block-device backend. */
    method BackendSubmit() returns (res: SubmitResult, iocb: nat)
      requires outstanding <= depth && (!spdk ==> |iocbs| == depth)
      modifies this`outstanding, this`refused
      ensures refused <==> old(refused) || res == Failed
      ensures res == Again <==> old(outstanding) == depth
      ensures res == Again ==> outstanding == old(outstanding)
      ensures res == Accepted ==> outstanding == old(outstanding) + 1
      ensures res != Again && !spdk ==> iocb == iocbs[old(outstanding)]
      ensures res == Failed ==> outstanding == old(outstanding) + (if spdk then 0 else 1)
    {
      iocb := 0;
      if outstanding == depth { return Again, iocb; }
      if !spdk { iocb := iocbs[outstanding]; }
      outstanding := outstanding + 1;
      var fault: bool := *;
      if fault {
        refused := true;
        if spdk { outstanding := outstanding - 1; }
        return Failed, iocb;
      }
      return Accepted, iocb;
    }

    /** Submit the next stripe with a free `ret` entry; the queue never refuses
        for being full. */
    method SubmitStripe() returns (res: SubmitResult)
      requires Valid(queue) && retsp < depth
      requires hist.submitted < |plan.cmds| && hist.submitted < hist.barrier + plan.window
      modifies this`hist, this`queue, this`retsp, this`outstanding, this`refused
      ensures res != Again && (refused <==> old(refused) || res == Failed)
      ensures res == Accepted ==>
                && Valid(queue) && |queue| == |old(queue)| + 1
                && queue[..|old(queue)|] == old(queue) && queue[|old(queue)|].k == old(hist.submitted)
                && queue[|old(queue)|].ret == old(rets)[old(retsp)]
                && (!spdk ==> queue[|old(queue)|].iocb == old(iocbs)[old(outstanding)])
                && hist == old(hist).(submitted := old(hist.submitted) + 1)
      ensures res == Failed ==>
                && queue == old(queue) && hist == old(hist)
                && retsp == |queue| + 1
                && outstanding == |queue| + (if spdk then 0 else 1)
    {
      hide InOrderSoFar, Tally, RetsOf, IocbsOf;
      CoupledCounts(queue, rets, retsp, depth, iocbs, outstanding, spdk);
      var ret := rets[retsp];
      ghost var sp0, out0 := retsp, outstanding;
      retsp := retsp + 1;
      var iocb;
      res, iocb := BackendSubmit();
      assert res != Again;
      if res == Accepted {
        var f := Flight(hist.submitted, ret, iocb);
        SubmitStep(plan, hist, queue, f);
        NotYetDone(plan, hist, queue);
        TallySubmit(Statuses(), queue, f, nerr);
        SubmitCoupled(queue, f, rets, sp0, depth, iocbs, out0, spdk);
        queue, hist := queue + [f], hist.(submitted := hist.submitted + 1);
      }
    }

    /** Poll until something completes, then until nothing more does. The device
        stays silent for any finite number of polls. */
    method GreedyReap() returns (nevents: nat)
      requires Valid(queue) && |queue| > 0
      modifies this`hist, this`queue, this`rets, this`retsp, this`iocbs, this`outstanding, this`nerr
      ensures Valid(queue) && nevents >= 1 && |queue| + nevents == |old(queue)|
      ensures hist.submitted == old(hist.submitted) && hist.barrier == old(hist.barrier)
    {
      var silent: nat := *;
      var polls := if silent < 0 then 0 else silent;
      nevents := GetEvents(0);
      while nevents == 0
        invariant Valid(queue) && |queue| + nevents == |old(queue)|
        invariant hist.submitted == old(hist.submitted) && hist.barrier == old(hist.barrier)
        invariant polls >= 0
        decreases polls, if nevents == 0 then 1 else 0
      {
        if polls == 0 {
          nevents := GetEvents(1);
        } else {
          polls := polls - 1;
          nevents := GetEvents(0);
        }
      }
      var r := GetEvents(0);
      nevents := nevents + r;
      while r != 0
        invariant Valid(queue) && |queue| + nevents == |old(queue)| && nevents >= 1
        invariant hist.submitted == old(hist.submitted) && hist.barrier == old(hist.barrier)
        decreases |queue|, r
      {
        r := GetEvents(0);
        nevents := nevents + r;
      }
    }

    /** Wait for everything in flight, and remember that no earlier command is
        pending any more. */
    method Wait()
      requires Valid(queue)
      modifies this`hist, this`queue, this`rets, this`retsp, this`iocbs, this`outstanding, this`nerr, this`waits
      ensures Valid([]) && queue == [] && retsp == 0 && outstanding == 0
      ensures hist.submitted == old(hist.submitted) && hist.barrier == hist.submitted
      ensures waits == old(waits) + 1
    {
      assert WaitCanReturn();
      var n := GetEvents(outstanding);
      assert queue == [];
      BarrierStep(plan, hist);
      hist := hist.(barrier := hist.submitted);
      waits := waits + 1;
    }

    /** The loop. With a queue of depth two or more it never meets a full queue.
        The result is -1 exactly when the backend refuses a submission; otherwise
        the loop has waited once per round and once at the end, both stacks are full
        again, every stripe has been carried out once,
        the device is as if they had been carried out one after the other, and the
        result counts the failures reported. A refused submission keeps its `ret`
        entry in either backend; in the block-device backend it stays outstanding as
        well, and a later wait asks for more completions than will ever come. */
    method IoAsync() returns (r: int)
      requires depth >= 2 && Valid([]) && queue == [] && nerr == 0 && hist.submitted == 0 && hist.barrier == 0
      requires !refused
      modifies this
      ensures if refused then r == -1 else r >= 0
      ensures Trace(plan.cmds, hist.trace)
      ensures r >= 0 ==>
                && Valid([]) && queue == [] && retsp == 0 && outstanding == 0
                && hist.media == Exec(plan.start, plan.cmds, plan.faults, InOrder(|plan.cmds|))
                && r == nerr && waits == old(waits) + |plan.cmds| / plan.window + 1
                && (forall k: nat :: k in hist.media.ok <==> k < |plan.cmds|)
                && (forall k: nat :: k in hist.trace <==> k < |plan.cmds|) && NoDup(hist.trace)
                && (r == 0 <==> forall k: nat :: k < |plan.cmds| ==> if spdk then hist.media.ok[k] else k !in res2)
      ensures r == -1 ==> retsp == |queue| + 1 && outstanding == |queue| + (if spdk then 0 else 1)
      ensures r == -1 ==> (WaitCanReturn() <==> spdk)
    {
      hide InOrderSoFar, Tally, Partition, RetsOf, IocbsOf;
      var n := plan.window;
      var stripe := 0;
      while stripe < |plan.cmds|
        invariant 0 <= stripe <= |plan.cmds| && Valid(queue) && |queue| < depth && !refused
        invariant hist.submitted == stripe && hist.barrier == stripe - stripe % n
        invariant waits == old(waits) + stripe / n
        decreases |plan.cmds| - stripe
      {
        CoupledCounts(queue, rets, retsp, depth, iocbs, outstanding, spdk);
        if retsp == depth - 1 {
          var reaped := GreedyReap();
        }
        CoupledCounts(queue, rets, retsp, depth, iocbs, outstanding, spdk);
        TraceIsFine(plan, hist, queue);
        var res := SubmitStripe();
        if res == Failed { return -1; }
        DivModStep(stripe, n);
        if (stripe + 1) % n == 0 { Wait(); }
        stripe := stripe + 1;
      }
      Wait();
      FinishedIsSequential(plan, hist);
      TallyEnd(Statuses(), nerr);
      AllCarriedOut(plan, hist);
      TraceIsFine(plan, hist, []);
      return nerr;
    }
  }

  datatype SubmitResult = Accepted | Again | Failed

  lemma CoupledCounts(live: seq<Flight>, rets: seq<nat>, retsp: nat, depth: nat, iocbs: seq<nat>, outstanding: nat, spdk: bool)
    requires Partition(rets, retsp, RetsOf(live), depth) && outstanding == |live|
    requires !spdk ==> Partition(iocbs, outstanding, IocbsOf(live), depth)
    ensures |rets| == depth && retsp == outstanding && (!spdk ==> |iocbs| == depth) && |live| <= depth
  {
  }

  /** With everything submitted and nothing in flight every command has been
      carried out. */
  lemma AllCarriedOut(p: Plan, h: History)
    requires p.Valid() && InOrderSoFar(p, h, []) && h.submitted == |p.cmds|
    ensures forall k: nat :: k in h.trace <==> k < |p.cmds|
    ensures forall k: nat :: k in h.media.ok <==> k < |p.cmds|
    ensures NoDup(h.trace)
  {
    assert forall k: nat :: !InLive([], k);
  }

  lemma TraceIsFine(p: Plan, h: History, live: seq<Flight>)
    requires p.Valid() && InOrderSoFar(p, h, live)
    ensures Trace(p.cmds, h.trace)
  {
  }

  lemma NotYetDone(p: Plan, h: History, live: seq<Flight>)
    requires p.Valid() && InOrderSoFar(p, h, live)
    ensures h.submitted !in h.media.ok
  {
  }

  /** Submitting takes one entry off each stack. */
  lemma SubmitCoupled(live: seq<Flight>, f: Flight, rets: seq<nat>, retsp: nat, depth: nat,
                      iocbs: seq<nat>, outstanding: nat, spdk: bool)
    requires outstanding == |live| && Partition(rets, retsp, RetsOf(live), depth) && retsp < depth && f.ret == rets[retsp]
    requires !spdk ==> Partition(iocbs, outstanding, IocbsOf(live), depth) && f.iocb == iocbs[outstanding]
    ensures Partition(rets, retsp + 1, RetsOf(live + [f]), depth)
    ensures !spdk ==> Partition(iocbs, outstanding + 1, IocbsOf(live + [f]), depth)
  {
    PartitionPop(rets, retsp, RetsOf(live), depth);
    assert RetsOf(live + [f]) == RetsOf(live) + [f.ret];
    if !spdk {
      PartitionPop(iocbs, outstanding, IocbsOf(live), depth);
      assert IocbsOf(live + [f]) == IocbsOf(live) + [f.iocb];
    }
  }
}
