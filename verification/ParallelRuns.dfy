/** The parallel write loops of both device generations do, in every
    interleaving and under every pattern of media faults, what the write methods
    of the virtual block promise. */
module ParallelRuns {
  import opened Arith
  import opened Device
  import opened Striping
  import opened Schedule
  import opened OrderedLoop
  import opened ParallelWrite
  import opened Vblk

  /** The error count the loop reduces over its first `k` iterations. */
  function Nerr(ok: map<nat, bool>, k: nat): nat {
    if k == 0 then 0 else Nerr(ok, k - 1) + if k - 1 in ok && ok[k - 1] then 0 else 1
  }

  lemma {:induction false} NerrLater(ok: map<nat, bool>, k: nat, j: nat, b: bool)
    requires k <= j
    ensures Nerr(ok[j := b], k) == Nerr(ok, k)
    decreases k
  {
    if k > 0 { NerrLater(ok, k - 1, j, b); }
  }

  predicate Faulted(faults: set<nat>, k: nat) {
    exists j :: j in faults && j < k
  }

  lemma FaultedNext(faults: set<nat>, k: nat)
    ensures Faulted(faults, k + 1) <==> Faulted(faults, k) || k in faults
  {
    if k in faults { assert k < k + 1; }
    if Faulted(faults, k) {
      var j :| j in faults && j < k;
      assert j < k + 1;
    }
  }

  /** The loop, one command after the other, keeps the bookkeeping invariant of
      the write methods. */
  lemma {:induction false} SequentialLoop(st: Store, faults: set<nat>, blks: seq<nat>, w: nat, u0: nat, m: nat, per: nat,
                                          data: seq<Sector>, k: nat)
    requires |blks| > 0 && w > 0 && per > 0 && |data| == m * w && k <= CommandCount(m, per)
    ensures Covered(w, m, per, k) <= |data|
    ensures var r := Exec(Media(st, map[]), StripedCmds(blks, w, u0, m, per, data), faults, InOrder(k));
            WriteLoop(st, r.st, blks, w, u0 * w, data, Covered(w, m, per, k), Nerr(r.ok, k), Faulted(faults, k))
    decreases k
  {
    hide Exec, InOrder, WriteLoop, StripedCmd, Apply, Covered, Faulted;
    var cmds := StripedCmds(blks, w, u0, m, per, data);
    var start := Media(st, map[]);
    if k == 0 {
      LoopBegins(st, faults, cmds, blks, w, u0, m, per, data);
    } else {
      SequentialLoop(st, faults, blks, w, u0, m, per, data, k - 1);
      var r0 := Exec(start, cmds, faults, InOrder(k - 1));
      ExecNext(start, cmds, faults, k);
      CommandStep(st, r0, faults, blks, w, u0, m, per, data, k - 1);
    }
  }

  lemma LoopBegins(st: Store, faults: set<nat>, cmds: seq<Cmd>, blks: seq<nat>, w: nat, u0: nat, m: nat, per: nat, data: seq<Sector>)
    requires |blks| > 0 && w > 0 && AllValid(cmds)
    ensures Covered(w, m, per, 0) == 0 && !Faulted(faults, 0)
    ensures Exec(Media(st, map[]), cmds, faults, InOrder(0)) == Media(st, map[])
    ensures WriteLoop(st, st, blks, w, u0 * w, data, 0, 0, false)
  {
    WriteLoopInit(st, blks, w, u0 * w, data);
  }

  lemma CommandStep(st: Store, r0: Media, faults: set<nat>, blks: seq<nat>, w: nat, u0: nat, m: nat, per: nat,
                    data: seq<Sector>, k: nat)
    requires |blks| > 0 && w > 0 && per > 0 && |data| == m * w && k < CommandCount(m, per)
    requires Covered(w, m, per, k) <= |data|
    requires WriteLoop(st, r0.st, blks, w, u0 * w, data, Covered(w, m, per, k), Nerr(r0.ok, k), Faulted(faults, k))
    ensures Covered(w, m, per, k + 1) <= |data|
    ensures var r := Apply(r0, StripedCmds(blks, w, u0, m, per, data), faults, k);
            WriteLoop(st, r.st, blks, w, u0 * w, data, Covered(w, m, per, k + 1), Nerr(r.ok, k + 1), Faulted(faults, k + 1))
  {
    hide WriteLoop, Covered, Faulted, Range, WriteAll;
    var cmds := StripedCmds(blks, w, u0, m, per, data);
    var lo, hi := Covered(w, m, per, k), Covered(w, m, per, k + 1);
    CoveredBounds(w, m, per, k);
    assert cmds[k] == Cmd(Range(blks, w, u0 * w + lo, hi - lo), data[lo..hi]);
    var r := Apply(r0, cmds, faults, k);
    NerrLater(r0.ok, k, k, r.ok[k]);
    FaultedNext(faults, k);
    assert data[lo..lo + (hi - lo)] == data[lo..hi];
    WriteLoopStep(st, r0.st, r.st, blks, w, u0 * w, data, lo, hi - lo, Nerr(r0.ok, k), Faulted(faults, k), !r.ok[k], k in faults);
  }

  /** What the write methods promise of the loop that wrote `data` at `s`. */
  ghost predicate WroteAll(st: Store, r: Media, faulted: bool, blks: seq<nat>, w: nat, s: nat, data: seq<Sector>, ncmds: nat)
    requires |blks| > 0 && w > 0
  {
    var all := WriteAll(st, Range(blks, w, s, |data|), data);
    && (Nerr(r.ok, ncmds) == 0 <==> !faulted && all.Some?)
    && (Nerr(r.ok, ncmds) == 0 ==> r.st == all.value)
    && OthersSame(st, r.st, blks) && Kept(st, r.st)
  }

  lemma SequentialWroteAll(st: Store, blks: seq<nat>, w: nat, u0: nat, m: nat, per: nat, data: seq<Sector>, faults: set<nat>)
    requires |blks| > 0 && w > 0 && per > 0 && |data| == m * w
    ensures var cmds := StripedCmds(blks, w, u0, m, per, data);
            WroteAll(st, Exec(Media(st, map[]), cmds, faults, InOrder(|cmds|)), Faulted(faults, |cmds|), blks, w, u0 * w, data, |cmds|)
  {
    hide WriteLoop, StripedCmd, Exec, InOrder, WriteAll, Range, OthersSame, Kept, Faulted, Nerr;
    var cmds := StripedCmds(blks, w, u0, m, per, data);
    var n := |cmds|;
    SequentialLoop(st, faults, blks, w, u0, m, per, data, n);
    CommandCountIs(m, per, n);
    assert Covered(w, m, per, n) == |data|;
    var r := Exec(Media(st, map[]), cmds, faults, InOrder(n));
    WriteLoopEnd(st, r.st, blks, w, u0 * w, data, Nerr(r.ok, n), Faulted(faults, n));
  }

  lemma FinishedLoopWroteAll(st: Store, blks: seq<nat>, w: nat, u0: nat, m: nat, per: nat, data: seq<Sector>,
                             faults: set<nat>, team: nat, sched: seq<Step>)
    requires |blks| > 0 && Distinct(blks) && w > 0 && per > 0 && |data| == m * w
    requires |blks| % per == 0 && 0 < team <= |blks| / per
    requires Legal(Program(StripedCmds(blks, w, u0, m, per, data), Media(st, map[]), faults, team, true), sched)
    ensures var s := After(Program(StripedCmds(blks, w, u0, m, per, data), Media(st, map[]), faults, team, true), sched);
            Over(s) ==>
              WroteAll(st, s.media, Faulted(faults, |s.stage|), blks, w, u0 * w, data, |s.stage|)
  {
    hide WroteAll, StripedCmds, Exec, Over, Faulted, Legal, After;
    var cmds := StripedCmds(blks, w, u0, m, per, data);
    var p := Program(cmds, Media(st, map[]), faults, team, true);
    StripedSeparated(blks, w, u0, m, per, data, team);
    InvAlways(p, sched);
    SequentialWroteAll(st, blks, w, u0, m, per, data, faults);
    EveryInterleavingIsSequential(p, sched);
  }

  /** The 2.0 loop, one command per write unit, run by any team up to NTHREADS, the
      smaller of the number of chunks and the number of units. */
  lemma ParallelWriteS20(st: Store, blks: seq<nat>, w: nat, u0: nat, m: nat, data: seq<Sector>,
                         faults: set<nat>, team: nat, sched: seq<Step>)
    requires |blks| > 0 && Distinct(blks) && w > 0 && |data| == m * w
    requires 0 < team <= |blks| && team <= m
    requires Legal(Program(StripedCmds(blks, w, u0, m, 1, data), Media(st, map[]), faults, team, true), sched)
    ensures var s := After(Program(StripedCmds(blks, w, u0, m, 1, data), Media(st, map[]), faults, team, true), sched);
            Over(s) ==>
              WroteAll(st, s.media, Faulted(faults, |s.stage|), blks, w, u0 * w, data, |s.stage|)
  {
    FinishedLoopWroteAll(st, blks, w, u0, m, 1, data, faults, team, sched);
  }

  /** The 1.2 loop: as many super pages in a command as divide the block count
      and stay within the write limit `max`, run by any team up to NTHREADS, one
      thread for each command that the blocks take in a round. */
  lemma ParallelWriteS12(st: Store, blks: seq<nat>, sp: nat, u0: nat, m: nat, max: nat, data: seq<Sector>,
                         faults: set<nat>, team: nat, sched: seq<Step>)
    requires |blks| > 0 && Distinct(blks) && sp > 0 && |data| == m * sp && max >= 1
    requires team == 1 || 0 < team <= |blks| / GreatestDivisor(|blks|, max)
    requires Legal(Program(StripedCmds(blks, sp, u0, m, GreatestDivisor(|blks|, max), data), Media(st, map[]), faults, team, true), sched)
    ensures var s := After(Program(StripedCmds(blks, sp, u0, m, GreatestDivisor(|blks|, max), data), Media(st, map[]), faults, team, true), sched);
            Over(s) ==>
              WroteAll(st, s.media, Faulted(faults, |s.stage|), blks, sp, u0 * sp, data, |s.stage|)
  {
    var per := GreatestDivisor(|blks|, max);
    DivisorNotAbove(|blks|, per);
    assert 1 <= |blks| / per by { AtLeastOnce(|blks|, per); }
    FinishedLoopWroteAll(st, blks, sp, u0, m, per, data, faults, team, sched);
  }

  lemma AtLeastOnce(n: nat, d: nat)
    requires 0 < d <= n
    ensures n / d >= 1
  {
    assert n == (n / d) * d + n % d;
  }

  lemma DivisorNotAbove(n: nat, d: nat)
    requires n > 0 && d > 0 && n % d == 0
    ensures d <= n
  {
    if n < d { DivModUnique(n, d, 0, n); }
  }

  // ---- retrying a failed append --------------------------------------------------------------

  /** An accepted command addresses no sector below a write pointer. */
  lemma {:induction false} NotBelowWp(st: Store, addrs: seq<SecAddr>, data: seq<Sector>, i: nat)
    requires |addrs| == |data| && WriteAll(st, addrs, data).Some? && i < |addrs|
    ensures addrs[i].chunk < |st| && addrs[i].sectr >= st[addrs[i].chunk].Wp()
    decreases |addrs|
  {
    if i > 0 {
      NotBelowWp(WriteOne(st, addrs[0], data[0]).value, addrs[1..], data[1..], i - 1);
    }
  }

  /** After an accepted command its sectors lie below their write pointers. */
  lemma BelowWpAfter(st: Store, addrs: seq<SecAddr>, data: seq<Sector>, i: nat)
    requires |addrs| == |data| && WriteAll(st, addrs, data).Some? && i < |addrs|
    ensures addrs[i].chunk < |st| && addrs[i].sectr < WriteAll(st, addrs, data).value[addrs[i].chunk].Wp()
  {
    NotBelowWp(st, addrs, data, i);
    WriteAllReadsBack(st, addrs, data, i);
  }

  /** The first `n` commands in program order: if none was accepted the device is
      unchanged, and any that was has moved a write pointer past its sectors. */
  lemma {:induction false} AcceptedMoves(st: Store, cmds: seq<Cmd>, faults: set<nat>, n: nat, k: nat, i: nat)
    requires AllValid(cmds) && k < n <= |cmds| && i < |cmds[k].addrs|
    requires var r := Exec(Media(st, map[]), cmds, faults, InOrder(n)); k in r.ok && r.ok[k]
    ensures var r, a := Exec(Media(st, map[]), cmds, faults, InOrder(n)), cmds[k].addrs[i];
            a.chunk < |st| == |r.st| && a.sectr < r.st[a.chunk].Wp()
    decreases n
  {
    hide Exec, InOrder;
    var m0 := Exec(Media(st, map[]), cmds, faults, InOrder(n - 1));
    ExecNext(Media(st, map[]), cmds, faults, n);
    SameSize(st, cmds, faults, n - 1);
    if k == n - 1 {
      BelowWpAfter(m0.st, cmds[k].addrs, cmds[k].data, i);
    } else {
      AcceptedMoves(st, cmds, faults, n - 1, k, i);
      var last := cmds[n - 1];
      if WriteAll(m0.st, last.addrs, last.data).Some? {
        WriteAllGrows(m0.st, last.addrs, last.data, cmds[k].addrs[i].chunk);
      }
    }
  }

  lemma {:induction false} SameSize(st: Store, cmds: seq<Cmd>, faults: set<nat>, n: nat)
    requires AllValid(cmds) && n <= |cmds|
    ensures |Exec(Media(st, map[]), cmds, faults, InOrder(n)).st| == |st|
    decreases n
  {
    hide InOrder;
    if n > 0 {
      SameSize(st, cmds, faults, n - 1);
      ExecNext(Media(st, map[]), cmds, faults, n);
    } else {
      assert InOrder(0) == [];
    }
  }

  ghost predicate NoneAccepted(ok: map<nat, bool>, n: nat) {
    forall k :: 0 <= k < n && k in ok ==> !ok[k]
  }

  lemma {:induction false} NoneAcceptedUnchanged(st: Store, cmds: seq<Cmd>, faults: set<nat>, n: nat)
    requires AllValid(cmds) && n <= |cmds|
    requires NoneAccepted(Exec(Media(st, map[]), cmds, faults, InOrder(n)).ok, n)
    ensures Exec(Media(st, map[]), cmds, faults, InOrder(n)).st == st
    decreases n
  {
    hide InOrder;
    if n == 0 {
      assert InOrder(0) == [];
    } else {
      var m0 := Exec(Media(st, map[]), cmds, faults, InOrder(n - 1));
      ExecNext(Media(st, map[]), cmds, faults, n);
      ApplyFrame(m0, cmds, faults, n - 1);
      assert n - 1 in Apply(m0, cmds, faults, n - 1).ok;
      forall k | 0 <= k < n - 1 && k in m0.ok ensures !m0.ok[k] {
        assert k in Apply(m0, cmds, faults, n - 1).ok;
      }
      NoneAcceptedUnchanged(st, cmds, faults, n - 1);
    }
  }

  /** Retrying an append that failed, whatever failed of it: on a virtual block that
      holds `log` and has room, the same transfer is accepted afterwards if and only
      if the failed call left the device unchanged, which is when none of its
      commands had been accepted. After anything else the cursor stands below write
      pointers, and only an erase helps. */
  lemma RetryAppendIff(st: Store, blks: seq<nat>, w: nat, cap: nat, log: seq<Sector>, u0: nat, m: nat, per: nat, data: seq<Sector>, faults: set<nat>)
    requires Holds(st, blks, w, cap, log) && per > 0
    requires |log| == u0 * w && |data| == m * w && |log| + |data| <= |blks| * cap
    ensures |blks| > 0 && w > 0
    ensures var cmds := StripedCmds(blks, w, u0, m, per, data);
            var r := Exec(Media(st, map[]), cmds, faults, InOrder(|cmds|));
            var again := WriteAll(r.st, Range(blks, w, |log|, |data|), data);
            && (again.Some? <==> r.st == st)
            && (r.st == st <==> NoneAccepted(r.ok, |cmds|))
  {
    hide Exec, InOrder, WriteAll, Holds, NoneAccepted;
    LoopStart(st, blks, w, cap, log);
    var cmds := StripedCmds(blks, w, u0, m, per, data);
    var r := Exec(Media(st, map[]), cmds, faults, InOrder(|cmds|));
    if NoneAccepted(r.ok, |cmds|) {
      NoneAcceptedUnchanged(st, cmds, faults, |cmds|);
      AppendMany(st, blks, w, cap, log, data);
    } else {
      var k := AcceptedOne(r.ok, |cmds|);
      FirstSector(blks, w, u0, m, per, data, k);
      AcceptedMoves(st, cmds, faults, |cmds|, k, 0);
      var j := Covered(w, m, per, k);
      if WriteAll(r.st, Range(blks, w, |log|, |data|), data).Some? {
        NotBelowWp(r.st, Range(blks, w, |log|, |data|), data, j);
      }
      AppendMany(st, blks, w, cap, log, data);
      NotBelowWp(st, Range(blks, w, |log|, |data|), data, j);
    }
  }

  lemma AcceptedOne(ok: map<nat, bool>, n: nat) returns (k: nat)
    requires !NoneAccepted(ok, n)
    ensures k < n && k in ok && ok[k]
  {
    k :| 0 <= k < n && k in ok && ok[k];
  }

  /** Command `k` starts at its place in the transfer. */
  lemma FirstSector(blks: seq<nat>, w: nat, u0: nat, m: nat, per: nat, data: seq<Sector>, k: nat)
    requires |blks| > 0 && w > 0 && per > 0 && |data| == m * w && k < CommandCount(m, per)
    ensures var cmd, j := StripedCmds(blks, w, u0, m, per, data)[k], Covered(w, m, per, k);
            |cmd.addrs| > 0 && j < |data| && cmd.addrs[0] == Range(blks, w, u0 * w, |data|)[j]
  {
    hide Resolve;
    CommandCountIs(m, per, k);
    CoveredBounds(w, m, per, k);
    assert (k + 1) * per == k * per + per;
    var a, b := Min(k * per, m), Min((k + 1) * per, m);
    MulLe(a + 1, b, w);
    assert (a + 1) * w == a * w + w;
  }
}
