/** The commands the write loops issue, and what every interleaving of those
    loops does to the device. */
module ParallelWrite {
  import opened Arith
  import opened Device
  import opened Striping
  import opened Schedule
  import opened OrderedLoop

  function Min(a: nat, b: nat): nat { if a < b then a else b }

  /** Sectors covered by the first `k` commands of `per` units each, out of `m`
      units of `w` sectors. */
  function Covered(w: nat, m: nat, per: nat, k: nat): nat {
    Min(k * per, m) * w
  }

  /** Command `k` of the loop that writes `data`, `m` units, from unit `u0` on:
      `per` units, or what is left of them. The 2.0 loop has per = 1, the 1.2
      loop has per = CMD_NSPAGES. */
  function StripedCmd(blks: seq<nat>, w: nat, u0: nat, m: nat, per: nat, data: seq<Sector>, k: nat): (r: Cmd)
    requires |blks| > 0 && w > 0 && |data| == m * w
    ensures r.Valid()
  {
    var lo, hi := Covered(w, m, per, k), Covered(w, m, per, k + 1);
    CoveredBounds(w, m, per, k);
    Cmd(Range(blks, w, u0 * w + lo, hi - lo), data[lo..hi])
  }

  lemma CoveredBounds(w: nat, m: nat, per: nat, k: nat)
    ensures Covered(w, m, per, k) <= Covered(w, m, per, k + 1) <= m * w
  {
    assert (k + 1) * per == k * per + per;
    MulLe(Min(k * per, m), Min((k + 1) * per, m), w);
    MulLe(Min((k + 1) * per, m), m, w);
  }

  function StripedCmds(blks: seq<nat>, w: nat, u0: nat, m: nat, per: nat, data: seq<Sector>): (r: seq<Cmd>)
    requires |blks| > 0 && w > 0 && per > 0 && |data| == m * w
    ensures |r| == CommandCount(m, per) && AllValid(r)
  {
    seq(CommandCount(m, per), k requires 0 <= k => StripedCmd(blks, w, u0, m, per, data, k))
  }

  /** Every command has `per` units but the last, which has the rest, and there are
      no more of them than that takes. */
  lemma StripedSizes(blks: seq<nat>, w: nat, u0: nat, m: nat, per: nat, data: seq<Sector>, k: nat)
    requires |blks| > 0 && w > 0 && per > 0 && |data| == m * w && k < |StripedCmds(blks, w, u0, m, per, data)|
    ensures var cmds := StripedCmds(blks, w, u0, m, per, data);
            && k * per < m && (k == |cmds| - 1 <==> m <= (k + 1) * per)
            && |cmds[k].addrs| == (if (k + 1) * per <= m then per else m - k * per) * w
  {
    CommandCountIs(m, per, k);
    CommandCountIs(m, per, k + 1);
    CoveredBounds(w, m, per, k);
    assert (k + 1) * per == k * per + per;
    var a, b := Min(k * per, m), Min((k + 1) * per, m);
    assert (b - a) * w == b * w - a * w;
  }

  // ---- commands close together use different chunks ------------------------

  /** Every sector of command `k` belongs to one of its `per` units. */
  lemma SectorUnit(w: nat, u0: nat, m: nat, per: nat, k: nat, i: nat) returns (u: nat)
    requires w > 0 && per > 0 && k * per < m
    requires i < Covered(w, m, per, k + 1) - Covered(w, m, per, k)
    ensures u == (u0 * w + Covered(w, m, per, k) + i) / w
    ensures u0 + k * per <= u < u0 + (k + 1) * per
  {
    var a, b := k * per, Min((k + 1) * per, m);
    assert Covered(w, m, per, k) == a * w;
    assert i < (b - a) * w by { assert (b - a) * w == b * w - a * w; }
    DivBelow(i, b - a, w);
    ModAddMultiple(i, u0 + a, w);
    assert (u0 + a) * w == u0 * w + a * w;
    u := u0 + a + i / w;
    assert (k + 1) * per == k * per + per;
  }

  lemma UnitsFarApart(u0: nat, per: nat, n: nat, i: nat, j: nat, a: nat, b: nat)
    requires per > 0 && n % per == 0 && n > 0
    requires i < j && j - i < n / per
    requires u0 + i * per <= a < u0 + (i + 1) * per
    requires u0 + j * per <= b < u0 + (j + 1) * per
    ensures a % n != b % n
  {
    var g := n / per;
    assert g * per == n;
    MulLe(i + 1, j, per);
    MulLe(j + 1 - i, g, per);
    assert (j + 1 - i) * per == (j + 1) * per - i * per;
    assert a < b < a + n;
    if a % n == b % n { CongruentClose(a, b, n); }
  }

  /** Commands fewer than nblks / per iterations apart share no chunk. */
  lemma StripedSeparated(blks: seq<nat>, w: nat, u0: nat, m: nat, per: nat, data: seq<Sector>, team: nat)
    requires |blks| > 0 && Distinct(blks) && w > 0 && per > 0 && |data| == m * w
    requires |blks| % per == 0 && team <= |blks| / per
    ensures Separated(StripedCmds(blks, w, u0, m, per, data), team)
  {
    var cmds := StripedCmds(blks, w, u0, m, per, data);
    forall i, j | 0 <= i < j < |cmds| && j - i < team ensures !Conflict(cmds, i, j) {
      CommandCountIs(m, per, i);
      CommandCountIs(m, per, j);
      forall x, y | 0 <= x < |cmds[i].addrs| && 0 <= y < |cmds[j].addrs|
        ensures cmds[i].addrs[x].chunk != cmds[j].addrs[y].chunk
      {
        ApartChunks(blks, w, u0, m, per, data, i, j, x, y);
      }
    }
  }

  lemma ApartChunks(blks: seq<nat>, w: nat, u0: nat, m: nat, per: nat, data: seq<Sector>, i: nat, j: nat, x: nat, y: nat)
    requires |blks| > 0 && Distinct(blks) && w > 0 && per > 0 && |data| == m * w
    requires |blks| % per == 0 && i < j && j - i < |blks| / per
    requires i * per < m && j * per < m
    requires x < |StripedCmd(blks, w, u0, m, per, data, i).addrs|
    requires y < |StripedCmd(blks, w, u0, m, per, data, j).addrs|
    ensures StripedCmd(blks, w, u0, m, per, data, i).addrs[x].chunk
         != StripedCmd(blks, w, u0, m, per, data, j).addrs[y].chunk
  {
    var a := SectorUnit(w, u0, m, per, i, x);
    var b := SectorUnit(w, u0, m, per, j, y);
    ResolveChunk(blks, w, u0 * w + Covered(w, m, per, i) + x);
    ResolveChunk(blks, w, u0 * w + Covered(w, m, per, j) + y);
    UnitsFarApart(u0, per, |blks|, i, j, a, b);
  }

  // ---- what the loop writes ------------------------------------------------

  /** Commands 0..k were carried out and accepted. */
  ghost predicate AllOk(ok: map<nat, bool>, k: nat) {
    forall j :: 0 <= j < k ==> j in ok && ok[j]
  }

  /** The loop has carried out `k` commands, all accepted, and the virtual block
      now holds `log`. */
  ghost predicate LoopAt(st: Store, r: Media, blks: seq<nat>, w: nat, cap: nat, log: seq<Sector>, k: nat) {
    Holds(r.st, blks, w, cap, log) && AllOk(r.ok, k) && OthersSame(st, r.st, blks)
  }

  lemma OneMoreCommand(st: Store, r0: Media, cmds: seq<Cmd>, blks: seq<nat>, w: nat, cap: nat, log: seq<Sector>, k: nat)
    requires LoopAt(st, r0, blks, w, cap, log, k) && k < |cmds|
    requires cmds[k].addrs == Range(blks, w, |log|, |cmds[k].data|)
    requires |log| + |cmds[k].data| <= |blks| * cap
    ensures LoopAt(st, Apply(r0, cmds, {}, k), blks, w, cap, log + cmds[k].data, k + 1)
  {
    AppendMany(r0.st, blks, w, cap, log, cmds[k].data);
    WriteAllFrame(r0.st, cmds[k].addrs, cmds[k].data);
    RangeFootprint(blks, w, |log|, |cmds[k].data|);
    ApplyFrame(r0, cmds, {}, k);
  }

  /** What the first `k` commands carry, end to end. */
  ghost function Payload(cmds: seq<Cmd>, k: nat): seq<Sector>
    requires k <= |cmds|
  {
    if k == 0 then [] else Payload(cmds, k - 1) + cmds[k - 1].data
  }

  /** Each command addresses the logical sectors right after those of the
      commands before it, the first one starting at `base`. */
  ghost predicate Tiles(cmds: seq<Cmd>, blks: seq<nat>, w: nat, base: nat)
    requires |blks| > 0 && w > 0
  {
    forall k :: 0 <= k < |cmds| ==> TileAt(cmds, blks, w, base, k)
  }

  ghost predicate TileAt(cmds: seq<Cmd>, blks: seq<nat>, w: nat, base: nat, k: nat)
    requires |blks| > 0 && w > 0 && k < |cmds|
  {
    cmds[k].addrs == Range(blks, w, base + |Payload(cmds, k)|, |cmds[k].data|)
  }

  lemma LoopStart(st: Store, blks: seq<nat>, w: nat, cap: nat, log: seq<Sector>)
    requires Holds(st, blks, w, cap, log)
    ensures |blks| > 0 && w > 0 && LoopAt(st, Media(st, map[]), blks, w, cap, log, 0)
  {
  }

  lemma TileIs(cmds: seq<Cmd>, blks: seq<nat>, w: nat, base: nat, k: nat)
    requires |blks| > 0 && w > 0 && Tiles(cmds, blks, w, base) && k < |cmds|
    ensures cmds[k].addrs == Range(blks, w, base + |Payload(cmds, k)|, |cmds[k].data|)
  {
    assert TileAt(cmds, blks, w, base, k);
  }

  lemma ExecNone(m: Media, cmds: seq<Cmd>)
    requires AllValid(cmds)
    ensures Exec(m, cmds, {}, InOrder(0)) == m
  {
  }

  lemma {:induction false} PayloadMonotone(cmds: seq<Cmd>, k: nat)
    requires k <= |cmds|
    ensures |Payload(cmds, k)| <= |Payload(cmds, |cmds|)|
    decreases |cmds| - k
  {
    if k < |cmds| { PayloadMonotone(cmds, k + 1); }
  }

  /** One step of the sequential loop below. */
  lemma TiledStep(st: Store, r0: Media, cmds: seq<Cmd>, blks: seq<nat>, w: nat, cap: nat, log: seq<Sector>, k: nat)
    requires |blks| > 0 && w > 0 && AllValid(cmds) && k < |cmds| && Tiles(cmds, blks, w, |log|)
    requires |log| + |Payload(cmds, |cmds|)| <= |blks| * cap
    requires LoopAt(st, r0, blks, w, cap, log + Payload(cmds, k), k)
    ensures LoopAt(st, Apply(r0, cmds, {}, k), blks, w, cap, log + Payload(cmds, k + 1), k + 1)
  {
    hide LoopAt, Apply, Range, Tiles;
    PayloadMonotone(cmds, k + 1);
    TileIs(cmds, blks, w, |log|, k);
    OneMoreCommand(st, r0, cmds, blks, w, cap, log + Payload(cmds, k), k);
    assert log + Payload(cmds, k) + cmds[k].data == log + Payload(cmds, k + 1);
  }

  /** A sequential loop over commands that tile the sectors after the log has
      every command accepted and appends their payload. */
  lemma {:induction false} TiledLoopAppends(st: Store, cmds: seq<Cmd>, blks: seq<nat>, w: nat, cap: nat, log: seq<Sector>, k: nat)
    requires Holds(st, blks, w, cap, log) && AllValid(cmds) && k <= |cmds|
    requires Tiles(cmds, blks, w, |log|)
    requires |log| + |Payload(cmds, |cmds|)| <= |blks| * cap
    ensures LoopAt(st, Exec(Media(st, map[]), cmds, {}, InOrder(k)), blks, w, cap, log + Payload(cmds, k), k)
    decreases k
  {
    hide Holds, LoopAt, Apply, Exec, Tiles, InOrder;
    var start := Media(st, map[]);
    LoopStart(st, blks, w, cap, log);
    if k == 0 {
      ExecNone(start, cmds);
      assert log + [] == log;
    } else {
      TiledLoopAppends(st, cmds, blks, w, cap, log, k - 1);
      TiledStep(st, Exec(start, cmds, {}, InOrder(k - 1)), cmds, blks, w, cap, log, k - 1);
      ExecNext(start, cmds, {}, k);
    }
  }

  lemma {:induction false} StripedPayload(blks: seq<nat>, w: nat, u0: nat, m: nat, per: nat, data: seq<Sector>, k: nat)
    requires |blks| > 0 && w > 0 && per > 0 && |data| == m * w && k <= CommandCount(m, per)
    ensures Covered(w, m, per, k) <= |data|
    ensures Payload(StripedCmds(blks, w, u0, m, per, data), k) == data[..Covered(w, m, per, k)]
    decreases k
  {
    if k > 0 {
      StripedPayload(blks, w, u0, m, per, data, k - 1);
      CoveredBounds(w, m, per, k - 1);
      var lo, hi := Covered(w, m, per, k - 1), Covered(w, m, per, k);
      assert data[..lo] + data[lo..hi] == data[..hi];
      assert StripedCmds(blks, w, u0, m, per, data)[k - 1] == StripedCmd(blks, w, u0, m, per, data, k - 1);
    }
  }

  lemma StripedTiles(blks: seq<nat>, w: nat, u0: nat, m: nat, per: nat, data: seq<Sector>, base: nat)
    requires |blks| > 0 && w > 0 && per > 0 && |data| == m * w && base == u0 * w
    ensures Tiles(StripedCmds(blks, w, u0, m, per, data), blks, w, base)
    ensures var cmds := StripedCmds(blks, w, u0, m, per, data); Payload(cmds, |cmds|) == data
  {
    var cmds := StripedCmds(blks, w, u0, m, per, data);
    forall k | 0 <= k < |cmds|
      ensures TileAt(cmds, blks, w, base, k)
    {
      StripedPayload(blks, w, u0, m, per, data, k);
      CoveredBounds(w, m, per, k);
      assert cmds[k] == StripedCmd(blks, w, u0, m, per, data, k);
    }
    assert Payload(cmds, |cmds|) == data by {
      StripedPayload(blks, w, u0, m, per, data, |cmds|);
      CommandCountIs(m, per, |cmds|);
      assert data[..Covered(w, m, per, |cmds|)] == data;
    }
  }

  /** The write loop of a virtual block that holds `log`, run by any team of at
      most nblks / per threads and interleaved in any way: every command lands
      at its chunk's write pointer, and when the loop is over the virtual block
      holds `log + data` and no other chunk has changed. */
  lemma ParallelWriteAppends(st: Store, blks: seq<nat>, w: nat, cap: nat, log: seq<Sector>,
                             u0: nat, m: nat, per: nat, data: seq<Sector>, team: nat, sched: seq<Step>)
    requires Holds(st, blks, w, cap, log) && per > 0
    requires |log| == u0 * w && |data| == m * w && |log| + |data| <= |blks| * cap
    requires |blks| % per == 0 && 0 < team <= |blks| / per
    requires Legal(Program(StripedCmds(blks, w, u0, m, per, data), Media(st, map[]), {}, team, true), sched)
    ensures var s := After(Program(StripedCmds(blks, w, u0, m, per, data), Media(st, map[]), {}, team, true), sched);
            && (forall k :: k in s.trace ==> k in s.media.ok && s.media.ok[k])
            && (Over(s) ==>
                  && Holds(s.media.st, blks, w, cap, log + data)
                  && OthersSame(st, s.media.st, blks))
  {
    var cmds := StripedCmds(blks, w, u0, m, per, data);
    var p := Program(cmds, Media(st, map[]), {}, team, true);
    StripedSeparated(blks, w, u0, m, per, data, team);
    EveryInterleavingIsSequential(p, sched);
    InvAlways(p, sched);
    StripedTiles(blks, w, u0, m, per, data, |log|);
    TiledLoopAppends(st, cmds, blks, w, cap, log, |cmds|);
    var s := After(p, sched);
    forall k | k in s.trace ensures k in s.media.ok && s.media.ok[k] {
      assert k in s.trace && k < |cmds|;
    }
  }

  /** The commands of the parallel loop are those the write methods issue. */
  lemma StripedArePieces(blks: seq<nat>, w: nat, u0: nat, m: nat, per: nat, data: seq<Sector>)
    requires |blks| > 0 && w > 0 && per > 0 && |data| == m * w && per * w > 0
    ensures var cmds := StripedCmds(blks, w, u0, m, per, data);
            && |cmds| == |CutAll(blks, w, u0 * w, m * w, per * w)|
            && forall k :: 0 <= k < |cmds| ==> cmds[k].addrs == CutAll(blks, w, u0 * w, m * w, per * w)[k]
  {
    var cmds := StripedCmds(blks, w, u0, m, per, data);
    hide Range;
    SameCount(m, per, w);
    forall k | 0 <= k < |cmds| ensures cmds[k].addrs == PieceAddrs(blks, w, u0 * w, m * w, per * w, k) {
      CommandCountIs(m, per, k);
      SamePiece(w, m, per, k);
    }
  }

  lemma SamePiece(w: nat, m: nat, per: nat, k: nat)
    requires w > 0 && per > 0 && k * per < m
    ensures Covered(w, m, per, k) == k * (per * w)
    ensures Covered(w, m, per, k + 1) - Covered(w, m, per, k) == PieceLen(m * w, per * w, k)
  {
    var a := k * per;
    assert k * (per * w) == a * w;
    assert (k + 1) * per == a + per;
    RestScaled(a, per, m, w);
    MulLe(a, m, w);
  }

  lemma RestScaled(a: nat, per: nat, m: nat, w: nat)
    requires w > 0 && a < m
    ensures Min(a + per, m) * w - a * w == if a * w + per * w <= m * w then per * w else m * w - a * w
  {
    assert (a + per) * w == a * w + per * w;
    assert (m + 1) * w == m * w + w;
    if a + per <= m { MulLe(a + per, m, w); } else { MulLe(m + 1, a + per, w); }
  }
}
