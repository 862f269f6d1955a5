/** The commands of the asynchronous write loop, and when an asynchronous append
    does what a synchronous one does. */
module AsyncWrite {
  import opened Arith
  import opened Device
  import opened Striping
  import opened Layouts
  import opened Schedule
  import opened OrderedLoop
  import opened ParallelWrite
  import Async

  function AsyncCmd(blks: seq<nat>, w: nat, bgn: nat, m: nat, data: seq<Sector>, k: nat): (r: Cmd)
    requires |blks| > 0 && w > 0 && |data| == m * w && k < m
    ensures r.Valid() && |r.addrs| == w
  {
    MulLe(k + 1, m, w);
    assert (k + 1) * w == k * w + w;
    Cmd(seq(w, i requires 0 <= i < w => AsyncSector(blks, w, bgn, k, i)), data[k * w..k * w + w])
  }

  function AsyncSector(blks: seq<nat>, w: nat, bgn: nat, k: nat, i: nat): SecAddr
    requires |blks| > 0 && w > 0
  {
    var a := AsyncAddr(|blks|, w, bgn, k, i);
    SecAddr(blks[a.chunk], a.sectr)
  }

  /** One command per stripe of WS_OPT sectors. */
  function AsyncCmds(blks: seq<nat>, w: nat, bgn: nat, m: nat, data: seq<Sector>): (r: seq<Cmd>)
    requires |blks| > 0 && w > 0 && |data| == m * w
    ensures |r| == m && AllValid(r)
  {
    seq(m, k requires 0 <= k < m => AsyncCmd(blks, w, bgn, m, data, k))
  }

  lemma AsyncChunk(blks: seq<nat>, w: nat, bgn: nat, k: nat, i: nat)
    requires |blks| > 0 && w > 0
    ensures 0 <= (bgn / w + k) % |blks| < |blks|
    ensures AsyncSector(blks, w, bgn, k, i).chunk == blks[(bgn / w + k) % |blks|]
  {
    ModShift(bgn / w, k, |blks|);
  }

  lemma DifferentStripes(u: nat, i: nat, j: nat, n: nat)
    requires n > 0 && i < j < i + n
    ensures (u + i) % n != (u + j) % n
  {
    if (u + i) % n == (u + j) % n { CongruentClose(u + i, u + j, n); }
  }

  lemma AsyncCmdChunk(blks: seq<nat>, w: nat, bgn: nat, m: nat, data: seq<Sector>, k: nat, i: nat)
    requires |blks| > 0 && w > 0 && |data| == m * w && k < m
    requires i < |AsyncCmd(blks, w, bgn, m, data, k).addrs|
    ensures 0 <= (bgn / w + k) % |blks| < |blks|
    ensures AsyncCmd(blks, w, bgn, m, data, k).addrs[i].chunk == blks[(bgn / w + k) % |blks|]
  {
    hide AsyncSector;
    AsyncChunk(blks, w, bgn, k, i);
  }

  /** Stripes less than one round apart go to different chunks. */
  lemma StripesApart(blks: seq<nat>, w: nat, bgn: nat, m: nat, data: seq<Sector>, i: nat, j: nat, x: nat, y: nat)
    requires |blks| > 0 && Distinct(blks) && w > 0 && |data| == m * w && i < j < m && j - i < |blks|
    requires x < |AsyncCmd(blks, w, bgn, m, data, i).addrs| && y < |AsyncCmd(blks, w, bgn, m, data, j).addrs|
    ensures AsyncCmd(blks, w, bgn, m, data, i).addrs[x].chunk != AsyncCmd(blks, w, bgn, m, data, j).addrs[y].chunk
  {
    hide AsyncCmd;
    AsyncCmdChunk(blks, w, bgn, m, data, i, x);
    AsyncCmdChunk(blks, w, bgn, m, data, j, y);
    DifferentStripes(bgn / w, i, j, |blks|);
  }

  lemma ApartNoConflict(cmds: seq<Cmd>, i: nat, j: nat)
    requires i < |cmds| && j < |cmds|
    requires forall x, y :: 0 <= x < |cmds[i].addrs| && 0 <= y < |cmds[j].addrs| ==>
               cmds[i].addrs[x].chunk != cmds[j].addrs[y].chunk
    ensures !Conflict(cmds, i, j)
  {
  }

  /** Stripes of one round go to different chunks. */
  lemma AsyncSeparated(blks: seq<nat>, w: nat, bgn: nat, m: nat, data: seq<Sector>)
    requires |blks| > 0 && Distinct(blks) && w > 0 && |data| == m * w
    ensures Separated(AsyncCmds(blks, w, bgn, m, data), |blks|)
  {
    hide AsyncCmd, Conflict, Distinct;
    var cmds, n := AsyncCmds(blks, w, bgn, m, data), |blks|;
    forall i, j | 0 <= i < j < |cmds| && j - i < n ensures !Conflict(cmds, i, j) {
      forall x, y | 0 <= x < |cmds[i].addrs| && 0 <= y < |cmds[j].addrs|
        ensures cmds[i].addrs[x].chunk != cmds[j].addrs[y].chunk
      {
        StripesApart(blks, w, bgn, m, data, i, j, x, y);
      }
      ApartNoConflict(cmds, i, j);
    }
  }

  /** The loop starts at unit 0 or stays within the first round. */
  predicate StartsFresh(n: nat, u: nat, m: nat) {
    u == 0 || u + m <= n
  }

  lemma AsyncTileAt(blks: seq<nat>, w: nat, u: nat, m: nat, data: seq<Sector>, k: nat, base: nat, at: nat)
    requires |blks| > 0 && w > 0 && |data| == m * w && k < m && StartsFresh(|blks|, u, m)
    requires base == u * w && at == base + k * w
    ensures AsyncCmd(blks, w, base, m, data, k).addrs == Range(blks, w, at, w)
  {
    DivModUnique(base, w, u, 0);
    RightRound(|blks|, u, k);
    var cmd := AsyncCmd(blks, w, base, m, data, k);
    hide AsyncSector, Resolve;
    forall i | 0 <= i < w ensures cmd.addrs[i] == Range(blks, w, at, w)[i] {
      AsyncSectorMatches(blks, w, base, k, i, at + i);
    }
  }

  lemma AsyncSectorMatches(blks: seq<nat>, w: nat, bgn: nat, k: nat, i: nat, s: nat)
    requires |blks| > 0 && w > 0 && bgn % w == 0 && i < w && s == bgn + k * w + i
    requires (bgn / w + k) / |blks| == k / |blks|
    ensures AsyncSector(blks, w, bgn, k, i) == Resolve(blks, w, s)
  {
    hide AsyncAddr, Place;
    StripeMatches(|blks|, w, bgn, k, i);
  }

  lemma {:induction false} AsyncPayload(blks: seq<nat>, w: nat, bgn: nat, m: nat, data: seq<Sector>, k: nat)
    requires |blks| > 0 && w > 0 && |data| == m * w && k <= m
    ensures k * w <= |data| && Payload(AsyncCmds(blks, w, bgn, m, data), k) == data[..k * w]
    decreases k
  {
    hide AsyncSector;
    MulLe(k, m, w);
    if k > 0 {
      assert AsyncCmds(blks, w, bgn, m, data)[k - 1].data == data[(k - 1) * w..(k - 1) * w + w];
      AsyncPayload(blks, w, bgn, m, data, k - 1);
      assert (k - 1) * w + w == k * w;
      assert data[..(k - 1) * w] + data[(k - 1) * w..k * w] == data[..k * w];
    }
  }

  lemma AsyncTiles(blks: seq<nat>, w: nat, u: nat, m: nat, data: seq<Sector>, base: nat)
    requires |blks| > 0 && w > 0 && |data| == m * w && StartsFresh(|blks|, u, m) && base == u * w
    ensures var cmds := AsyncCmds(blks, w, base, m, data);
            Tiles(cmds, blks, w, base) && Payload(cmds, |cmds|) == data
  {
    var cmds := AsyncCmds(blks, w, base, m, data);
    hide AsyncSector, Resolve;
    forall k | 0 <= k < |cmds| ensures TileAt(cmds, blks, w, base, k) {
      AsyncPayload(blks, w, base, m, data, k);
      AsyncTileAt(blks, w, u, m, data, k, base, base + k * w);
      assert cmds[k] == AsyncCmd(blks, w, base, m, data, k);
    }
    AsyncPayload(blks, w, base, m, data, m);
    assert data[..m * w] == data;
  }

  // ---- write pointers only grow ----------------------------------------------------

  lemma {:induction false} ExecGrows(m: Media, cmds: seq<Cmd>, faults: set<nat>, k: nat, c: nat)
    requires AllValid(cmds) && k <= |cmds| && c < |m.st|
    ensures var r := Exec(m, cmds, faults, InOrder(k));
            |r.st| == |m.st| && r.st[c].Wp() >= m.st[c].Wp()
    decreases k
  {
    if k > 0 {
      ExecGrows(m, cmds, faults, k - 1, c);
      ExecNext(m, cmds, faults, k);
      var r := Exec(m, cmds, faults, InOrder(k - 1));
      if WriteAll(r.st, cmds[k - 1].addrs, cmds[k - 1].data).Some? {
        WriteAllGrows(r.st, cmds[k - 1].addrs, cmds[k - 1].data, c);
      }
    }
  }

  /** The outcome of command `k` is fixed once it has been carried out. */
  lemma {:induction false} OutcomeStays(m: Media, cmds: seq<Cmd>, faults: set<nat>, k: nat, n: nat)
    requires AllValid(cmds) && k < n <= |cmds|
    ensures var now, end := Exec(m, cmds, faults, InOrder(k)), Exec(m, cmds, faults, InOrder(n));
            k in end.ok && end.ok[k] == Apply(now, cmds, faults, k).ok[k]
    decreases n
  {
    ExecNext(m, cmds, faults, n);
    if k < n - 1 {
      OutcomeStays(m, cmds, faults, k, n - 1);
      ApplyFrame(Exec(m, cmds, faults, InOrder(n - 1)), cmds, faults, n - 1);
    }
  }

  lemma RewindRejected(st: Store, cmd: Cmd, c: nat)
    requires cmd.Valid() && |cmd.addrs| > 0 && cmd.addrs[0] == SecAddr(c, 0)
    requires c < |st| && st[c].Wp() > 0
    ensures WriteAll(st, cmd.addrs, cmd.data).None?
  {
  }

  /** The stripe that goes back to the start of an already written chunk. */
  lemma BadStripe(blks: seq<nat>, w: nat, u: nat, m: nat, data: seq<Sector>, base: nat) returns (bad: nat, c: nat)
    requires |blks| > 0 && w > 0 && |data| == m * w && m > 0 && !StartsFresh(|blks|, u, m) && base == u * w
    ensures bad < m && c < |blks| && c < u
    ensures AsyncCmd(blks, w, base, m, data, bad).addrs[0] == SecAddr(blks[c], 0)
  {
    var n := |blks|;
    DivModUnique(base, w, u, 0);
    if u >= n {
      bad, c := 0, u % n;
      DivModUnique(0, n, 0, 0);
    } else {
      bad, c := n - u, 0;
      DivModUnique(n - u, n, 0, n - u);
      DivModUnique(n, n, 1, 0);
    }
    ModShift(u, bad, n);
    assert AsyncAddr(n, w, base, bad, 0) == SecAddr(c, 0);
  }

  lemma WrittenAlready(n: nat, w: nat, c: nat, u: nat)
    requires n > 0 && w > 0 && c < n && c < u
    ensures WpAt(n, w, c, u * w) > 0
  {
    hide CountUnits, WpAt;
    WpAtUnits(n, w, c, u);
    CountedOnce(n, c, u);
    MulAtLeast(CountUnits(n, c, u), w);
  }

  lemma {:induction false} CountedOnce(n: nat, c: nat, u: nat)
    requires n > 0 && c < n && c < u
    ensures CountUnits(n, c, u) >= 1
  {
    CountUnitsClosed(n, c, u);
    if u < n { DivModUnique(u, n, 0, u); } else { MulAtLeast(u / n, n); }
  }

  /** Faults that concern none of the first `n` commands change nothing. */
  lemma {:induction false} ExecFaultFree(m: Media, cmds: seq<Cmd>, faults: set<nat>, n: nat)
    requires AllValid(cmds) && n <= |cmds| && forall k :: k in faults ==> k >= n
    ensures Exec(m, cmds, faults, InOrder(n)) == Exec(m, cmds, {}, InOrder(n))
    decreases n
  {
    if n > 0 {
      ExecFaultFree(m, cmds, faults, n - 1);
      ExecNext(m, cmds, faults, n);
      ExecNext(m, cmds, {}, n);
    }
  }

  /** A stripe that goes back into a written chunk is refused. */
  lemma BadStripeFails(st: Store, blks: seq<nat>, w: nat, cap: nat, log: seq<Sector>, u: nat, m: nat, data: seq<Sector>, faults: set<nat>)
    requires Holds(st, blks, w, cap, log) && |log| == u * w && |data| == m * w && m > 0
    requires !StartsFresh(|blks|, u, m)
    ensures !AllOk(Exec(Media(st, map[]), AsyncCmds(blks, w, |log|, m, data), faults, InOrder(m)).ok, m)
  {
    hide InOrder, Range;
    var cmds := AsyncCmds(blks, w, |log|, m, data);
    var start := Media(st, map[]);
    var bad, c := BadStripe(blks, w, u, m, data, |log|);
    assert cmds[bad] == AsyncCmd(blks, w, |log|, m, data, bad);
    assert ChunkHolds(st[blks[c]], |blks|, w, cap, c, |log|);
    WrittenAlready(|blks|, w, c, u);
    ExecGrows(start, cmds, faults, bad, blks[c]);
    RewindRejected(Exec(start, cmds, faults, InOrder(bad)).st, cmds[bad], blks[c]);
    OutcomeStays(start, cmds, faults, bad, m);
  }

  /** An asynchronous append at the write cursor, with room for it, on a device
      that fails the stripes in `faults`: every stripe is accepted exactly when no
      stripe of the append is failed and the append starts at unit 0 or stays
      within the first round, and then the virtual block holds the log with the
      data appended, as after a synchronous write. Completion order does not
      matter by `Async.AsyncRun.IoAsync`. */
  lemma AsyncAppendIff(st: Store, blks: seq<nat>, w: nat, cap: nat, log: seq<Sector>, u: nat, m: nat, data: seq<Sector>, faults: set<nat>)
    requires Holds(st, blks, w, cap, log) && |log| == u * w && |data| == m * w && m > 0
    requires |log| + |data| <= |blks| * cap
    ensures var cmds := AsyncCmds(blks, w, |log|, m, data);
            var r := Exec(Media(st, map[]), cmds, faults, InOrder(m));
            && (AllOk(r.ok, m) <==> StartsFresh(|blks|, u, m) && forall k :: k in faults ==> k >= m)
            && (AllOk(r.ok, m) ==> Holds(r.st, blks, w, cap, log + data) && OthersSame(st, r.st, blks))
  {
    hide Holds, OthersSame, Exec, InOrder, AsyncCmds;
    assert |blks| > 0 && w > 0 by { HoldsShape(st, blks, w, cap, log); }
    var cmds := AsyncCmds(blks, w, |log|, m, data);
    var start := Media(st, map[]);
    if !StartsFresh(|blks|, u, m) {
      BadStripeFails(st, blks, w, cap, log, u, m, data, faults);
    } else if k :| k in faults && k < m {
      FaultFails(start, cmds, faults, k, m);
    } else {
      ExecFaultFree(start, cmds, faults, m);
      AsyncTiles(blks, w, u, m, data, |log|);
      TiledLoopAppends(st, cmds, blks, w, cap, log, m);
    }
  }

  lemma FaultFails(start: Media, cmds: seq<Cmd>, faults: set<nat>, k: nat, n: nat)
    requires AllValid(cmds) && k < n <= |cmds| && k in faults
    ensures !AllOk(Exec(start, cmds, faults, InOrder(n)).ok, n)
  {
    hide Exec, InOrder;
    OutcomeStays(start, cmds, faults, k, n);
  }

  /** An asynchronous append from end to end: commands through a queue of `depth`
      entries of either backend, executed and completed in any order. Unless the
      backend refuses a submission, the data is on the virtual block exactly when
      the device fails no stripe of it and it starts at unit 0 or stays within the
      first round. Through SPDK that is when success is reported; the block-device
      backend reports success exactly when no completion has its second result word
      set, which is the same only where the device sets it for every failure. */
  method AsyncAppend(st: Store, blks: seq<nat>, w: nat, cap: nat, ghost log: seq<Sector>, u: nat, m: nat, data: seq<Sector>,
                     faults: set<nat>, depth: nat, spdk: bool, res2: set<nat>)
    returns (r: int, st': Store, ghost failed: set<nat>)
    requires Holds(st, blks, w, cap, log) && |log| == u * w && |data| == m * w && m > 0
    requires |log| + |data| <= |blks| * cap && depth >= 2
    ensures r >= -1
    ensures r >= 0 ==> (failed == {} <==> StartsFresh(|blks|, u, m) && forall k :: k in faults ==> k >= m)
    ensures r >= 0 && failed == {} ==> Holds(st', blks, w, cap, log + data) && OthersSame(st, st', blks)
    ensures r >= 0 && spdk ==> (r == 0 <==> failed == {})
    ensures r >= 0 && !spdk ==> (r == 0 <==> forall k: nat :: k < m ==> k !in res2)
  {
    hide Holds, OthersSame, AsyncCmds, Exec, InOrder;
    assert |blks| > 0 && w > 0 && Distinct(blks) by { HoldsShape(st, blks, w, cap, log); }
    var cmds := AsyncCmds(blks, w, u * w, m, data);
    AsyncSeparated(blks, w, u * w, m, data);
    var plan := Async.Plan(cmds, faults, Media(st, map[]), |blks|);
    var run := new Async.AsyncRun(plan, depth, spdk, res2);
    r := run.IoAsync();
    st' := run.hist.media.st;
    AsyncAppendIff(st, blks, w, cap, log, u, m, data, faults);
    failed := FailedOf(run.hist.media.ok, m);
  }

  /** The commands among the first `m` without a success. */
  ghost function FailedOf(ok: map<nat, bool>, m: nat): (r: set<nat>)
    ensures r == {} <==> AllOk(ok, m)
  {
    var r := set k: nat | 0 <= k < m && !(k in ok && ok[k]);
    assert forall k: nat :: k < m && !(k in ok && ok[k]) ==> k in r;
    r
  }

  lemma HoldsShape(st: Store, blks: seq<nat>, w: nat, cap: nat, log: seq<Sector>)
    requires Holds(st, blks, w, cap, log)
    ensures |blks| > 0 && w > 0 && Distinct(blks)
  {
  }
}
