/** The parallel write loops: `parallel for schedule(static,1) ordered`, whose
    body issues one synchronous write command and ends in an empty ordered
    region. The model interleaves the steps of all threads and of the device. */
module OrderedLoop {
  import opened Device
  import opened Schedule

  /** Where one iteration stands: not begun, command handed to the device,
      command returned, ordered region left. */
  datatype Stage = Waiting | Issued | Done | Passed

  datatype Step = Issue(k: nat) | Execute(k: nat) | Leave(k: nat)

  /** A loop over `cmds` run by a team of `team` threads on device `start`; the
      media fails the commands in `faults`. The write loops have `ordered` set. */
  datatype Program = Program(cmds: seq<Cmd>, start: Media, faults: set<nat>, team: nat, ordered: bool) {
    ghost predicate Valid() { team > 0 && AllValid(cmds) }
  }

  datatype Loop = Loop(stage: seq<Stage>, media: Media, trace: seq<nat>)

  /** Every iteration is over. */
  predicate Over(s: Loop) {
    forall k :: 0 <= k < |s.stage| ==> s.stage[k] == Passed
  }

  function Init(p: Program): Loop {
    Loop(seq(|p.cmds|, _ => Waiting), p.start, [])
  }

  /** Iteration k belongs to thread k % team, so it begins once iteration
      k - team is over; the ordered region admits iterations in loop order. */
  ghost predicate Enabled(p: Program, s: Loop, step: Step) {
    && step.k < |s.stage| == |p.cmds|
    && match step
       case Issue(k) => s.stage[k] == Waiting && (k < p.team || s.stage[k - p.team] == Passed)
       case Execute(k) => s.stage[k] == Issued
       case Leave(k) => s.stage[k] == Done && (!p.ordered || k == 0 || s.stage[k - 1] == Passed)
  }

  ghost function Take(p: Program, s: Loop, step: Step): Loop
    requires p.Valid() && Enabled(p, s, step)
  {
    match step
    case Issue(k) => s.(stage := s.stage[k := Issued])
    case Execute(k) =>
      Loop(s.stage[k := Done], Apply(s.media, p.cmds, p.faults, k), s.trace + [k])
    case Leave(k) => s.(stage := s.stage[k := Passed])
  }

  /** A schedule any team can produce, and the state it leads to. */
  ghost predicate Legal(p: Program, sched: seq<Step>)
    requires p.Valid()
    decreases |sched|, 0
  {
    sched == [] ||
    (Legal(p, sched[..|sched| - 1]) && Enabled(p, After(p, sched[..|sched| - 1]), sched[|sched| - 1]))
  }

  ghost function After(p: Program, sched: seq<Step>): Loop
    requires p.Valid() && Legal(p, sched)
    decreases |sched|, 1
  {
    if sched == [] then Init(p)
    else Take(p, After(p, sched[..|sched| - 1]), sched[|sched| - 1])
  }

  /** Commands less than `d` iterations apart never share a chunk. */
  ghost predicate Separated(cmds: seq<Cmd>, d: nat) {
    forall i, j :: 0 <= i < j < |cmds| && j - i < d ==> !Conflict(cmds, i, j)
  }

  ghost function Sequential(p: Program): Media
    requires p.Valid()
  {
    Exec(p.start, p.cmds, p.faults, InOrder(|p.cmds|))
  }

  // ---- what every step keeps ---------------------------------------------

  ghost predicate StagesOk(p: Program, s: Loop) {
    && |s.stage| == |p.cmds|
    && (forall j, k :: 0 <= j < k < |s.stage| && s.stage[k] == Passed ==> s.stage[j] == Passed)
    && (forall j, k :: 0 <= j < k < |s.stage| && k - j >= p.team && s.stage[k] != Waiting ==> s.stage[j] == Passed)
  }

  ghost predicate TraceOk(p: Program, s: Loop) {
    && |s.stage| == |p.cmds|
    && Trace(p.cmds, s.trace) && NoDup(s.trace)
    && (forall k :: 0 <= k < |s.stage| ==> (k in s.trace <==> s.stage[k] == Done || s.stage[k] == Passed))
  }

  ghost predicate Inv(p: Program, s: Loop)
    requires p.Valid()
  {
    && StagesOk(p, s)
    && TraceOk(p, s)
    && Respects(p.cmds, s.trace)
    && s.media == Exec(p.start, p.cmds, p.faults, s.trace)
  }

  lemma StagesStep(p: Program, s: Loop, step: Step)
    requires p.Valid() && p.ordered && StagesOk(p, s) && Enabled(p, s, step)
    ensures StagesOk(p, Take(p, s, step))
  {
    hide Apply;
    var k, t := step.k, Take(p, s, step);
    assert t.stage[k] != s.stage[k] && forall j :: 0 <= j < |s.stage| && j != k ==> t.stage[j] == s.stage[j];
  }

  lemma TraceStep(p: Program, s: Loop, step: Step)
    requires p.Valid() && TraceOk(p, s) && Enabled(p, s, step)
    ensures TraceOk(p, Take(p, s, step))
  {
    var s' := Take(p, s, step);
    if step.Execute? {
      assert step.k !in s.trace;
      assert forall k :: k in s'.trace <==> k in s.trace || k == step.k;
    }
  }

  lemma RespectsStep(p: Program, s: Loop, k: nat)
    requires p.Valid() && Separated(p.cmds, p.team)
    requires StagesOk(p, s) && TraceOk(p, s) && Respects(p.cmds, s.trace)
    requires Enabled(p, s, Execute(k))
    ensures Trace(p.cmds, s.trace + [k]) && Respects(p.cmds, s.trace + [k])
  {
    var tr' := s.trace + [k];
    forall b, i | 0 <= b < |tr'| && 0 <= i < tr'[b] && Conflict(p.cmds, i, tr'[b]) ensures i in tr'[..b] {
      if b < |s.trace| {
        assert tr'[..b] == s.trace[..b];
      } else {
        assert tr'[..b] == s.trace;
        assert k - i >= p.team;
        assert s.stage[i] == Passed;
      }
    }
  }

  lemma InvStep(p: Program, s: Loop, step: Step)
    requires p.Valid() && p.ordered && Separated(p.cmds, p.team) && Inv(p, s) && Enabled(p, s, step)
    ensures Inv(p, Take(p, s, step))
  {
    StagesStep(p, s, step);
    TraceStep(p, s, step);
    if step.Execute? {
      RespectsStep(p, s, step.k);
      ExecSnoc(p.start, p.cmds, p.faults, s.trace, step.k);
    }
  }

  lemma {:induction false} InvAlways(p: Program, sched: seq<Step>)
    requires p.Valid() && p.ordered && Separated(p.cmds, p.team) && Legal(p, sched)
    ensures Inv(p, After(p, sched))
    decreases |sched|
  {
    if sched != [] {
      var front := sched[..|sched| - 1];
      InvAlways(p, front);
      InvStep(p, After(p, front), sched[|sched| - 1]);
    }
  }

  // ---- the theorems --------------------------------------------------------

  /** In every interleaving a command is issued only once every earlier command
      on any of its chunks has returned and left the ordered region. */
  lemma IssuedAfterPrevious(p: Program, sched: seq<Step>, i: nat, j: nat)
    requires p.Valid() && p.ordered && Separated(p.cmds, p.team) && Legal(p, sched)
    requires i < j < |p.cmds| && Conflict(p.cmds, i, j)
    requires After(p, sched).stage[j] != Waiting
    ensures After(p, sched).stage[i] == Passed && i in After(p, sched).trace
  {
    InvAlways(p, sched);
    assert j - i >= p.team;
  }

  /** In every interleaving every command that has been carried out got the
      outcome it gets from the plain sequential loop, and a finished loop leaves
      the device exactly as the sequential loop does. */
  lemma EveryInterleavingIsSequential(p: Program, sched: seq<Step>)
    requires p.Valid() && p.ordered && Separated(p.cmds, p.team) && Legal(p, sched)
    ensures var s := After(p, sched);
            && (forall k :: k in s.trace ==>
                  && k in s.media.ok && k in Sequential(p).ok
                  && s.media.ok[k] == Sequential(p).ok[k])
            && (Over(s) ==> s.media == Sequential(p))
  {
    InvAlways(p, sched);
    var s := After(p, sched);
    forall k | k in s.trace
      ensures k in s.media.ok && k in Sequential(p).ok && s.media.ok[k] == Sequential(p).ok[k]
    {
      PartialOutcome(p.start, p.cmds, p.faults, s.trace, k);
    }
    if Over(s) {
      assert Covers(s.trace, |p.cmds|);
      RespectfulOrderIsProgramOrder(p.start, p.cmds, p.faults, s.trace, |p.cmds|);
    }
  }

  /** No interleaving gets stuck before every iteration is over. */
  lemma NeverStuck(p: Program, sched: seq<Step>) returns (step: Step)
    requires p.Valid() && p.ordered && Separated(p.cmds, p.team) && Legal(p, sched)
    requires !Over(After(p, sched))
    ensures Enabled(p, After(p, sched), step)
  {
    InvAlways(p, sched);
    var s := After(p, sched);
    var k := 0;
    while s.stage[k] == Passed
      invariant 0 <= k < |s.stage|
      invariant forall j :: 0 <= j < k ==> s.stage[j] == Passed
      decreases |s.stage| - k
    {
      k := k + 1;
    }
    step := if s.stage[k] == Waiting then Issue(k)
            else if s.stage[k] == Issued then Execute(k)
            else Leave(k);
  }

  lemma NextStep(p: Program, sched: seq<Step>, step: Step)
    requires p.Valid()
    ensures Legal(p, sched + [step]) <==> Legal(p, sched) && Enabled(p, After(p, sched), step)
    ensures Legal(p, sched + [step]) ==> After(p, sched + [step]) == Take(p, After(p, sched), step)
  {
    assert (sched + [step])[..|sched|] == sched;
  }

  // ---- which orders of execution happen ------------------------------------------------------

  /** No command is carried out before one that lies a team or more iterations
      ahead of it in the loop. */
  ghost predicate WithinTeam(tr: seq<nat>, team: nat) {
    forall b, j: nat :: 0 <= b < |tr| && j + team <= tr[b] ==> j in tr[..b]
  }

  /** In any state of an ordered loop an iteration can begin as soon as its thread
      is free, whatever the iterations of the other threads are doing. */
  lemma FreeThreadIssues(p: Program, sched: seq<Step>, k: nat)
    requires p.Valid() && Legal(p, sched) && k < |p.cmds|
    requires |After(p, sched).stage| == |p.cmds| && After(p, sched).stage[k] == Waiting
    requires k < p.team || After(p, sched).stage[k - p.team] == Passed
    ensures Legal(p, sched + [Issue(k)]) && After(p, sched + [Issue(k)]).stage == After(p, sched).stage[k := Issued]
  {
    hide Legal, After, Apply;
    NextStep(p, sched, Issue(k));
  }

  ghost function IssueFirst(t: nat): seq<Step> {
    if t == 0 then [] else IssueFirst(t - 1) + [Issue(t - 1)]
  }

  /** The whole team can have a command in flight at once. */
  lemma {:induction false} TeamInFlight(p: Program, t: nat)
    requires p.Valid() && t <= p.team && t <= |p.cmds|
    ensures Legal(p, IssueFirst(t)) && |After(p, IssueFirst(t)).stage| == |p.cmds|
    ensures forall k :: 0 <= k < |p.cmds| ==> After(p, IssueFirst(t)).stage[k] == if k < t then Issued else Waiting
    decreases t
  {
    hide Legal, After;
    if t == 0 {
      NothingYet(p);
    } else {
      TeamInFlight(p, t - 1);
      FreeThreadIssues(p, IssueFirst(t - 1), t - 1);
    }
  }

  lemma {:induction false} OrdersWithinTeam(p: Program, sched: seq<Step>)
    requires p.Valid() && p.ordered && Legal(p, sched)
    ensures StagesOk(p, After(p, sched)) && TraceOk(p, After(p, sched)) && WithinTeam(After(p, sched).trace, p.team)
    decreases |sched|
  {
    if sched != [] {
      var front, step := sched[..|sched| - 1], sched[|sched| - 1];
      OrdersWithinTeam(p, front);
      var s := After(p, front);
      StagesStep(p, s, step);
      TraceStep(p, s, step);
      if step.Execute? { OneMoreWithinTeam(p, s, step.k); }
    }
  }

  lemma OneMoreWithinTeam(p: Program, s: Loop, k: nat)
    requires StagesOk(p, s) && TraceOk(p, s) && WithinTeam(s.trace, p.team) && Enabled(p, s, Execute(k)) && p.team > 0
    ensures WithinTeam(s.trace + [k], p.team)
  {
    var tr := s.trace + [k];
    forall b, j: nat | 0 <= b < |tr| && j + p.team <= tr[b] ensures j in tr[..b] {
      if b < |s.trace| {
        assert tr[..b] == s.trace[..b];
      } else {
        assert tr[..b] == s.trace;
        assert s.stage[j] == Passed;
      }
    }
  }

  /** How many iterations from the first on are in `tr` without a gap. */
  ghost function Prefix(tr: seq<nat>, n: nat, from: nat): (r: nat)
    requires from <= n
    ensures from <= r <= n && (forall j :: from <= j < r ==> j in tr) && (r == n || r !in tr)
    decreases n - from
  {
    if from == n || from !in tr then from else Prefix(tr, n, from + 1)
  }

  /** Iterations carried out are done, and over up to the first gap. */
  ghost function StageAfter(tr: seq<nat>, passed: nat, j: nat): Stage {
    if j < passed then Passed else if j in tr then Done else Waiting
  }

  ghost predicate At(p: Program, sched: seq<Step>, tr: seq<nat>, passed: nat)
    requires p.Valid()
  {
    && Legal(p, sched) && After(p, sched).trace == tr && |After(p, sched).stage| == |p.cmds| && passed <= |p.cmds|
    && (forall j: nat :: j < passed ==> j in tr)
    && forall j :: 0 <= j < |p.cmds| ==> After(p, sched).stage[j] == StageAfter(tr, passed, j)
  }

  lemma LeaveNext(p: Program, sched: seq<Step>, tr: seq<nat>, passed: nat)
    requires p.Valid() && At(p, sched, tr, passed) && passed < |p.cmds| && passed in tr
    ensures At(p, sched + [Leave(passed)], tr, passed + 1)
  {
    hide Legal, After;
    NextStep(p, sched, Leave(passed));
    var s := After(p, sched);
    assert s.stage[passed] == Done && (passed == 0 || s.stage[passed - 1] == Passed);
  }

  lemma {:induction false} LeaveAll(p: Program, sched: seq<Step>, tr: seq<nat>, passed: nat) returns (more: seq<Step>)
    requires p.Valid() && At(p, sched, tr, passed)
    ensures At(p, more, tr, Prefix(tr, |p.cmds|, passed))
    decreases |p.cmds| - passed
  {
    hide At;
    assert passed <= |p.cmds| by { AtBound(p, sched, tr, passed); }
    if passed < |p.cmds| && passed in tr {
      LeaveNext(p, sched, tr, passed);
      more := LeaveAll(p, sched + [Leave(passed)], tr, passed + 1);
    } else {
      more := sched;
    }
  }

  lemma AtBound(p: Program, sched: seq<Step>, tr: seq<nat>, passed: nat)
    requires p.Valid() && At(p, sched, tr, passed)
    ensures passed <= |p.cmds|
  {
  }

  lemma CarryOut(p: Program, sched: seq<Step>, tr: seq<nat>, passed: nat, k: nat)
    requires p.Valid() && At(p, sched, tr, passed) && k < |p.cmds| && k !in tr
    requires k < p.team || k - p.team < passed
    ensures At(p, sched + [Issue(k)] + [Execute(k)], tr + [k], passed)
  {
    hide Legal, After, Apply;
    var one := sched + [Issue(k)];
    NextStep(p, sched, Issue(k));
    NextStep(p, one, Execute(k));
    var s, s2 := After(p, sched), After(p, one + [Execute(k)]);
    assert s.stage[k] == Waiting;
    assert k < p.team || s.stage[k - p.team] == Passed;
    forall j: nat | j < passed ensures j in tr + [k] {
      assert j in tr;
    }
    forall j | 0 <= j < |p.cmds| ensures s2.stage[j] == StageAfter(tr + [k], passed, j) {
      assert s.stage[j] == StageAfter(tr, passed, j);
      assert j in tr + [k] <==> j in tr || j == k;
    }
  }

  /** A schedule that carries out the first `b` commands of `tr`. */
  lemma {:induction false} CarryOutAll(p: Program, tr: seq<nat>, b: nat) returns (sched: seq<Step>)
    requires p.Valid() && Trace(p.cmds, tr) && NoDup(tr) && WithinTeam(tr, p.team) && b <= |tr|
    ensures At(p, sched, tr[..b], Prefix(tr[..b], |p.cmds|, 0))
    decreases b
  {
    if b == 0 {
      NothingYet(p);
      sched := [];
      assert tr[..0] == [];
    } else {
      var done, k := tr[..b - 1], tr[b - 1];
      sched := CarryOutAll(p, tr, b - 1);
      var passed := Prefix(done, |p.cmds|, 0);
      NextIsFree(p, tr, b - 1);
      hide At;
      CarryOut(p, sched, done, passed, k);
      assert done + [k] == tr[..b];
      sched := LeaveAll(p, sched + [Issue(k)] + [Execute(k)], done + [k], passed);
      PrefixGrows(done, k, |p.cmds|, 0);
    }
  }

  lemma NextIsFree(p: Program, tr: seq<nat>, b: nat)
    requires p.Valid() && Trace(p.cmds, tr) && NoDup(tr) && WithinTeam(tr, p.team) && b < |tr|
    ensures tr[b] < |p.cmds| && tr[b] !in tr[..b]
    ensures tr[b] < p.team || tr[b] - p.team < Prefix(tr[..b], |p.cmds|, 0)
  {
    var r := Prefix(tr[..b], |p.cmds|, 0);
    assert forall j: nat :: j + p.team <= tr[b] ==> j in tr[..b];
  }

  /** Counting from the old gap on finds the new one. */
  lemma {:induction false} PrefixGrows(tr: seq<nat>, k: nat, n: nat, from: nat)
    requires from <= n
    ensures Prefix(tr + [k], n, Prefix(tr, n, from)) == Prefix(tr + [k], n, from)
    decreases n - from
  {
    if from < n && from in tr {
      PrefixGrows(tr, k, n, from + 1);
      assert from in tr + [k];
    }
  }

  /** A complete order of execution happens in some run of the ordered loop that
      finishes if and only if it carries out no command before one a team or more
      iterations ahead of it: up to that the threads overlap freely. */
  lemma OrderHappensIff(p: Program, tr: seq<nat>)
    requires p.Valid() && p.ordered && Covers(tr, |p.cmds|)
    ensures (exists sched :: Legal(p, sched) && Over(After(p, sched)) && After(p, sched).trace == tr)
       <==> WithinTeam(tr, p.team)
  {
    hide WithinTeam, Legal, After;
    if WithinTeam(tr, p.team) {
      assert Trace(p.cmds, tr) by { CoversTrace(p.cmds, tr); }
      var sched := CarryOutAll(p, tr, |tr|);
      assert tr[..|tr|] == tr;
      assert Over(After(p, sched));
    }
    if sched :| Legal(p, sched) && Over(After(p, sched)) && After(p, sched).trace == tr {
      OrdersWithinTeam(p, sched);
    }
  }

  lemma CoversTrace(cmds: seq<Cmd>, tr: seq<nat>)
    requires Covers(tr, |cmds|)
    ensures Trace(cmds, tr)
  {
    forall b | 0 <= b < |tr| ensures tr[b] < |cmds| {
      assert tr[b] in tr;
    }
  }

  /** Three free chunks, four one-sector commands dealt round-robin, two threads. */
  ghost function Racy(x: Sector, ordered: bool): (p: Program)
    ensures p.Valid()
  {
    var free := Chunk(Free, 2, []);
    var cmds := [Cmd([SecAddr(0, 0)], [x]), Cmd([SecAddr(1, 0)], [x]), Cmd([SecAddr(2, 0)], [x]), Cmd([SecAddr(0, 1)], [x])];
    Program(cmds, Media([free, free, free], map[]), {}, 2, ordered)
  }

  ghost function RacySchedule(): seq<Step> {
    [Issue(1)] + [Execute(1)] + [Leave(1)] + [Issue(3)] + [Execute(3)]
  }

  lemma RacySeparated(x: Sector)
    ensures Separated(Racy(x, false).cmds, 2)
  {
  }

  lemma WriteSingle(st: Store, a: SecAddr, x: Sector)
    ensures WriteAll(st, [a], [x]) == WriteOne(st, a, x)
  {
    assert [a][1..] == [] && [x][1..] == [];
  }

  lemma NothingYet(p: Program)
    requires p.Valid()
    ensures Legal(p, []) && After(p, []) == Init(p)
  {
  }

  lemma RacyOutcome(x: Sector)
    ensures var p := Racy(x, false);
            Apply(Apply(p.start, p.cmds, {}, 1), p.cmds, {}, 3).ok == map[1 := true, 3 := false]
  {
    var p := Racy(x, false);
    WriteSingle(p.start.st, SecAddr(1, 0), x);
    WriteSingle(Apply(p.start, p.cmds, {}, 1).st, SecAddr(0, 1), x);
  }

  /** Static scheduling alone does not keep a chunk's writes in order: without
      the ordered region the second thread reaches the second write of chunk 0
      before the first thread has begun, and the device refuses it. */
  lemma WithoutOrderedRegion(x: Sector)
    ensures Separated(Racy(x, false).cmds, 2) && Legal(Racy(x, false), RacySchedule())
    ensures After(Racy(x, false), RacySchedule()).media.ok == map[1 := true, 3 := false]
  {
    hide Apply, Legal, After, Separated;
    RacySeparated(x);
    RacyOutcome(x);
    var p, two := Racy(x, false), [Issue(1)] + [Execute(1)];
    NothingYet(p);
    assert [] + [Issue(1)] == [Issue(1)];
    NextStep(p, [], Issue(1));
    NextStep(p, [Issue(1)], Execute(1));
    NextStep(p, two, Leave(1));
    NextStep(p, two + [Leave(1)], Issue(3));
    NextStep(p, two + [Leave(1)] + [Issue(3)], Execute(3));
  }

  /** With the region that schedule cannot happen. */
  lemma WithOrderedRegion(x: Sector)
    ensures !Legal(Racy(x, true), RacySchedule())
  {
    var p, two := Racy(x, true), [Issue(1)] + [Execute(1)];
    NextStep(p, [], Issue(1));
    NextStep(p, [Issue(1)], Execute(1));
    NextStep(p, two, Leave(1));
    NextStep(p, two + [Leave(1)], Issue(3));
    NextStep(p, two + [Leave(1)] + [Issue(3)], Execute(3));
  }

  /** The region lets commands on different chunks overlap: both threads have their
      first command in flight, and the device carries out the second one first. */
  lemma OrderedRegionOverlaps(x: Sector)
    ensures var p := Racy(x, true);
            && Legal(p, [Issue(0)] + [Issue(1)])
            && After(p, [Issue(0)] + [Issue(1)]).stage == [Issued, Issued, Waiting, Waiting]
            && Legal(p, [Issue(0)] + [Issue(1)] + [Execute(1)] + [Execute(0)])
            && After(p, [Issue(0)] + [Issue(1)] + [Execute(1)] + [Execute(0)]).trace == [1, 0]
  {
    hide Apply, Legal, After;
    var p, two := Racy(x, true), [Issue(0)] + [Issue(1)];
    NothingYet(p);
    assert [] + [Issue(0)] == [Issue(0)];
    NextStep(p, [], Issue(0));
    NextStep(p, [Issue(0)], Issue(1));
    NextStep(p, two, Execute(1));
    NextStep(p, two + [Execute(1)], Execute(0));
  }

  /** And a whole run in that order, 1 0 3 2, happens. */
  lemma OverlappedRunHappens(x: Sector)
    ensures exists sched :: Legal(Racy(x, true), sched) && Over(After(Racy(x, true), sched))
                            && After(Racy(x, true), sched).trace == [1, 0, 3, 2]
  {
    var tr: seq<nat> := [1, 0, 3, 2];
    assert Covers(tr, 4) by {
      assert tr[0] in tr && tr[1] in tr && tr[2] in tr && tr[3] in tr;
    }
    assert WithinTeam(tr, 2) by {
      assert tr[..2] == [1, 0] && tr[..3] == [1, 0, 3];
    }
    OrderHappensIff(Racy(x, true), tr);
  }
}
