/** The parallel read loops of both device generations do, in every interleaving
    and for any team, what the read methods of the virtual block promise. */
module ParallelRead {
  import opened Arith
  import opened Device
  import opened Striping
  import opened Schedule
  import opened OrderedLoop
  import opened ParallelWrite
  import opened ReadBuffer
  import opened Vblk
  import opened ParallelRuns

  predicate PieceFails(st: Store, dulbe: bool, faults: set<nat>, blks: seq<nat>, w: nat, s: nat, total: nat, c: nat, k: nat)
    requires |blks| > 0 && w > 0
  {
    k in faults || !Readable(st, dulbe, PieceAddrs(blks, w, s, total, c, k))
  }

  function Pieces(st: Store, dulbe: bool, predef: Sector, faults: set<nat>, blks: seq<nat>, w: nat, s: nat, total: nat, c: nat): (r: seq<seq<Sector>>)
    requires |blks| > 0 && w > 0 && c > 0
    ensures |r| == CommandCount(total, c)
    ensures forall k :: 0 <= k < |r| ==>
              r[k] == if PieceFails(st, dulbe, faults, blks, w, s, total, c, k) then []
                      else DeliverAll(st, predef, PieceAddrs(blks, w, s, total, c, k))
  {
    seq(CommandCount(total, c), k requires 0 <= k =>
      if PieceFails(st, dulbe, faults, blks, w, s, total, c, k) then []
      else DeliverAll(st, predef, PieceAddrs(blks, w, s, total, c, k)))
  }

  function Failing(st: Store, dulbe: bool, faults: set<nat>, blks: seq<nat>, w: nat, s: nat, total: nat, c: nat): (r: set<nat>)
    requires |blks| > 0 && w > 0 && c > 0
    ensures forall k: nat :: k < CommandCount(total, c) ==> (k in r <==> PieceFails(st, dulbe, faults, blks, w, s, total, c, k))
  {
    set k: nat | 0 <= k < CommandCount(total, c) && PieceFails(st, dulbe, faults, blks, w, s, total, c, k)
  }

  // ---- the pieces and the whole ------------------------------------------------------------

  lemma PieceEndsIn(total: nat, c: nat, k: nat)
    requires c > 0 && k < CommandCount(total, c)
    ensures k * c < total && k * c + PieceLen(total, c, k) <= total
  {
    CommandCountIs(total, c, k);
  }

  lemma PiecesFit(st: Store, dulbe: bool, predef: Sector, faults: set<nat>, blks: seq<nat>, w: nat, s: nat, total: nat, c: nat, buf: seq<Sector>)
    requires |blks| > 0 && w > 0 && c > 0 && total <= |buf|
    ensures Fits(buf, c, Pieces(st, dulbe, predef, faults, blks, w, s, total, c))
    ensures forall k :: 0 <= k < CommandCount(total, c) ==>
              k * c + |Pieces(st, dulbe, predef, faults, blks, w, s, total, c)[k]| <= total
  {
    hide PieceFails, Pieces, PieceLen;
    var pieces := Pieces(st, dulbe, predef, faults, blks, w, s, total, c);
    forall k | 0 <= k < |pieces| ensures PieceFits(buf, c, pieces, k) && k * c + |pieces[k]| <= total {
      PieceEndsIn(total, c, k);
    }
  }

  lemma AllCovered(total: nat, c: nat)
    requires c > 0
    ensures total <= CommandCount(total, c) * c
  {
    CommandCountIs(total, c, CommandCount(total, c));
  }

  /** The range can be read exactly when every piece of it can. */
  lemma ReadableInPieces(st: Store, dulbe: bool, blks: seq<nat>, w: nat, s: nat, total: nat, c: nat)
    requires |blks| > 0 && w > 0 && c > 0
    ensures Readable(st, dulbe, Range(blks, w, s, total)) <==>
              forall k: nat :: k < CommandCount(total, c) ==> Readable(st, dulbe, PieceAddrs(blks, w, s, total, c, k))
  {
    hide CanRead, Resolve;
    var all := Range(blks, w, s, total);
    if Readable(st, dulbe, all) {
      forall k: nat | k < CommandCount(total, c) ensures Readable(st, dulbe, PieceAddrs(blks, w, s, total, c, k)) {
        PieceEndsIn(total, c, k);
        forall i | 0 <= i < PieceLen(total, c, k) ensures CanRead(st, dulbe, PieceAddrs(blks, w, s, total, c, k)[i]) {
          assert all[k * c + i] == Resolve(blks, w, s + k * c + i);
        }
      }
    }
    if forall k: nat :: k < CommandCount(total, c) ==> Readable(st, dulbe, PieceAddrs(blks, w, s, total, c, k)) {
      forall j | 0 <= j < total ensures CanRead(st, dulbe, all[j]) {
        var k, i := PieceOf(total, c, j);
        assert PieceAddrs(blks, w, s, total, c, k)[i] == Resolve(blks, w, s + j);
      }
    }
  }

  lemma PieceOf(total: nat, c: nat, j: nat) returns (k: nat, i: nat)
    requires c > 0 && j < total
    ensures j == k * c + i && i < c && i < PieceLen(total, c, k) && k < CommandCount(total, c)
  {
    k, i := j / c, j % c;
    assert j == k * c + i;
    CommandCountIs(total, c, k);
  }

  /** If no piece fails the pieces make up the whole delivery. */
  lemma PiecesCut(st: Store, dulbe: bool, predef: Sector, faults: set<nat>, blks: seq<nat>, w: nat, s: nat, total: nat, c: nat)
    requires |blks| > 0 && w > 0 && c > 0
    requires forall k: nat :: k < CommandCount(total, c) ==> !PieceFails(st, dulbe, faults, blks, w, s, total, c, k)
    ensures Cuts(DeliverAll(st, predef, Range(blks, w, s, total)), c, Pieces(st, dulbe, predef, faults, blks, w, s, total, c))
  {
    hide PieceFails, Pieces, DeliverAll, Range, CommandCount, SectorOf;
    var whole, pieces := DeliverAll(st, predef, Range(blks, w, s, total)), Pieces(st, dulbe, predef, faults, blks, w, s, total, c);
    DeliverLength(st, predef, Range(blks, w, s, total));
    AllCovered(total, c);
    forall k: nat, i: nat | k < |pieces| && i < c && k * c + i < |whole| ensures SectorOf(whole, c, pieces, k, i) {
      PieceSectorOf(st, predef, blks, w, s, total, c, pieces, k, i, k * c + i);
    }
  }

  lemma PieceSectorOf(st: Store, predef: Sector, blks: seq<nat>, w: nat, s: nat, total: nat, c: nat, pieces: seq<seq<Sector>>,
                      k: nat, i: nat, j: nat)
    requires |blks| > 0 && w > 0 && k < |pieces| && i < c && j == k * c + i && j < total
    requires pieces[k] == DeliverAll(st, predef, PieceAddrs(blks, w, s, total, c, k))
    ensures |DeliverAll(st, predef, Range(blks, w, s, total))| == total
    ensures SectorOf(DeliverAll(st, predef, Range(blks, w, s, total)), c, pieces, k, i)
  {
    hide Resolve, Deliver;
    assert i < PieceLen(total, c, k);
    assert PieceAddrs(blks, w, s, total, c, k)[i] == Resolve(blks, w, s + k * c + i);
    assert Range(blks, w, s, total)[j] == Resolve(blks, w, s + j);
  }

  // ---- every interleaving -----------------------------------------------------------------------

  /** What the read methods promise of the loop that read `total` sectors from `s`
      on into `buf`. */
  ghost predicate ReadAll(st: Store, r: Media, faulted: bool, dulbe: bool, predef: Sector, blks: seq<nat>, w: nat, s: nat,
                          total: nat, buf: seq<Sector>, out: seq<Sector>, ncmds: nat)
    requires |blks| > 0 && w > 0
  {
    && r.st == st && total <= |buf|
    && (Nerr(r.ok, ncmds) == 0 <==> !faulted && Readable(st, dulbe, Range(blks, w, s, total)))
    && (Nerr(r.ok, ncmds) == 0 ==> out == DeliverAll(st, predef, Range(blks, w, s, total)) + buf[total..])
  }

  lemma {:induction false} NerrNone(ok: map<nat, bool>, n: nat)
    ensures Nerr(ok, n) == 0 <==> forall k :: 0 <= k < n ==> k in ok && ok[k]
    decreases n
  {
    if n > 0 { NerrNone(ok, n - 1); }
  }

  lemma ReadErrors(st: Store, dulbe: bool, faults: set<nat>, blks: seq<nat>, w: nat, s: nat, total: nat, c: nat, ok: map<nat, bool>)
    requires |blks| > 0 && w > 0 && c > 0
    requires forall k: nat :: k < CommandCount(total, c) ==>
               k in ok && ok[k] == !PieceFails(st, dulbe, faults, blks, w, s, total, c, k)
    ensures Nerr(ok, CommandCount(total, c)) == 0 <==>
              !Faulted(faults, CommandCount(total, c)) && Readable(st, dulbe, Range(blks, w, s, total))
    ensures Nerr(ok, CommandCount(total, c)) == 0 <==>
              forall k: nat :: k < CommandCount(total, c) ==> !PieceFails(st, dulbe, faults, blks, w, s, total, c, k)
  {
    hide Readable, PieceAddrs, Nerr, CommandCount;
    var n := CommandCount(total, c);
    NerrNone(ok, n);
    ReadableInPieces(st, dulbe, blks, w, s, total, c);
    if !Faulted(faults, n) && Readable(st, dulbe, Range(blks, w, s, total)) {
      forall k: nat | k < n ensures !PieceFails(st, dulbe, faults, blks, w, s, total, c, k) {
        assert Readable(st, dulbe, PieceAddrs(blks, w, s, total, c, k));
      }
    }
    if forall k: nat :: k < n ==> !PieceFails(st, dulbe, faults, blks, w, s, total, c, k) {
      forall k: nat | k < n ensures k !in faults && Readable(st, dulbe, PieceAddrs(blks, w, s, total, c, k)) {
        assert !PieceFails(st, dulbe, faults, blks, w, s, total, c, k);
      }
    }
  }

  /** A read loop of `total` sectors in commands of `c`, run by any team, with an
      ordered region (1.2) or without one (2.0), interleaved in any way and with any
      faults: when it is over the device is unchanged, the error count is 0 exactly
      when no command faulted and everything asked for can be read, and then the
      buffer holds it in order. The 2.0 loop has `total` = ReadTotal(m, c), the 1.2
      loop has c = CMD_NSPAGES super pages and `total` the request. */
  lemma ParallelReadDelivers(st: Store, dulbe: bool, predef: Sector, faults: set<nat>, blks: seq<nat>, w: nat, s: nat, total: nat, c: nat,
                             buf: seq<Sector>, team: nat, ordered: bool, sched: seq<Step>)
    requires |blks| > 0 && w > 0 && c > 0 && total <= |buf| && team > 0
    requires Legal(Program(ReadCmds(CommandCount(total, c)), Media(st, map[]), Failing(st, dulbe, faults, blks, w, s, total, c), team, ordered), sched)
    ensures var p := Program(ReadCmds(CommandCount(total, c)), Media(st, map[]), Failing(st, dulbe, faults, blks, w, s, total, c), team, ordered);
            var l, pieces := After(p, sched), Pieces(st, dulbe, predef, faults, blks, w, s, total, c);
            Over(l) ==>
              && Fits(buf, c, pieces) && (forall b :: 0 <= b < |l.trace| ==> l.trace[b] < |pieces|)
              && ReadAll(st, l.media, Faulted(faults, |pieces|), dulbe, predef, blks, w, s, total, buf, Fill(buf, c, pieces, l.trace), |pieces|)
  {
    var n := CommandCount(total, c);
    var failing := Failing(st, dulbe, faults, blks, w, s, total, c);
    var p := Program(ReadCmds(n), Media(st, map[]), failing, team, ordered);
    ReadLoopAlways(st, n, failing, team, ordered, sched);
    var l := After(p, sched);
    if Over(l) {
      OverCovers(p, l);
      LoopDelivers(st, dulbe, predef, faults, blks, w, s, total, c, buf, l.trace);
    }
  }

  lemma OverCovers(p: Program, s: Loop)
    requires TraceOk(p, s) && Over(s)
    ensures forall k: nat :: k in s.trace <==> k < |p.cmds|
  {
    forall k | k in s.trace ensures k < |p.cmds| {
      var b :| 0 <= b < |s.trace| && s.trace[b] == k;
    }
  }

  lemma LoopDelivers(st: Store, dulbe: bool, predef: Sector, faults: set<nat>, blks: seq<nat>, w: nat, s: nat, total: nat, c: nat,
                     buf: seq<Sector>, tr: seq<nat>)
    requires |blks| > 0 && w > 0 && c > 0 && total <= |buf|
    requires Trace(ReadCmds(CommandCount(total, c)), tr) && forall k: nat :: k in tr <==> k < CommandCount(total, c)
    ensures var pieces := Pieces(st, dulbe, predef, faults, blks, w, s, total, c);
            var r := Exec(Media(st, map[]), ReadCmds(|pieces|), Failing(st, dulbe, faults, blks, w, s, total, c), tr);
            && Fits(buf, c, pieces) && (forall b :: 0 <= b < |tr| ==> tr[b] < |pieces|)
            && ReadAll(st, r, Faulted(faults, |pieces|), dulbe, predef, blks, w, s, total, buf, Fill(buf, c, pieces, tr), |pieces|)
  {
    hide Exec, ReadCmds, Pieces, Failing, PieceFails, Fill, Readable, DeliverAll, Range, Fits, Cuts, Nerr, CommandCount, Faulted;
    var n := CommandCount(total, c);
    var failing := Failing(st, dulbe, faults, blks, w, s, total, c);
    var r := Exec(Media(st, map[]), ReadCmds(n), failing, tr);
    ReadOutcomes(st, n, failing, tr);
    ReadErrors(st, dulbe, faults, blks, w, s, total, c, r.ok);
    PiecesFit(st, dulbe, predef, faults, blks, w, s, total, c, buf);
    if Nerr(r.ok, n) == 0 {
      PiecesCut(st, dulbe, predef, faults, blks, w, s, total, c);
      DeliverLength(st, predef, Range(blks, w, s, total));
      FillWhole(buf, c, Pieces(st, dulbe, predef, faults, blks, w, s, total, c), tr, DeliverAll(st, predef, Range(blks, w, s, total)));
    }
  }
}
