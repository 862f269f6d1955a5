/** The asynchronous loop in the read direction: it goes through the same queue
    and computes the same addresses as the write direction, so it too ignores the
    starting round. */
module AsyncRead {
  import opened Arith
  import opened Device
  import opened Striping
  import opened Layouts
  import opened Schedule
  import opened OrderedLoop
  import opened AsyncWrite
  import opened ReadBuffer
  import opened Vblk
  import Async

  /** Sector `j` of the caller's buffer: sector j % w of stripe j / w. */
  function BufferSector(blks: seq<nat>, w: nat, bgn: nat, j: nat): SecAddr
    requires |blks| > 0 && w > 0
  {
    AsyncSector(blks, w, bgn, j / w, j % w)
  }

  /** What the loop asks for, in buffer order. */
  function AsyncRange(blks: seq<nat>, w: nat, bgn: nat, m: nat): (r: seq<SecAddr>)
    requires |blks| > 0 && w > 0
    ensures |r| == m * w
  {
    seq(m * w, j requires 0 <= j < m * w => BufferSector(blks, w, bgn, j))
  }

  function StripeAddrs(blks: seq<nat>, w: nat, bgn: nat, k: nat): seq<SecAddr>
    requires |blks| > 0 && w > 0
  {
    seq(w, i requires 0 <= i < w => AsyncSector(blks, w, bgn, k, i))
  }

  // ---- through the queue ---------------------------------------------------------------

  /** The read of stripe `k` fails. */
  predicate StripeFails(st: Store, blks: seq<nat>, w: nat, bgn: nat, dulbe: bool, faults: set<nat>, k: nat)
    requires |blks| > 0 && w > 0
  {
    k in faults || !Readable(st, dulbe, StripeAddrs(blks, w, bgn, k))
  }

  /** What the read of stripe `k` puts into its part of the buffer. */
  function StripePiece(st: Store, blks: seq<nat>, w: nat, bgn: nat, dulbe: bool, predef: Sector, faults: set<nat>, k: nat): (r: seq<Sector>)
    requires |blks| > 0 && w > 0
    ensures |r| <= w
  {
    if StripeFails(st, blks, w, bgn, dulbe, faults, k) then [] else DeliverAll(st, predef, StripeAddrs(blks, w, bgn, k))
  }

  function StripePieces(st: Store, blks: seq<nat>, w: nat, bgn: nat, m: nat, dulbe: bool, predef: Sector, faults: set<nat>): (r: seq<seq<Sector>>)
    requires |blks| > 0 && w > 0
    ensures |r| == m && forall k :: 0 <= k < m ==> r[k] == StripePiece(st, blks, w, bgn, dulbe, predef, faults, k)
  {
    seq(m, k requires 0 <= k => StripePiece(st, blks, w, bgn, dulbe, predef, faults, k))
  }

  lemma PiecesFit(st: Store, blks: seq<nat>, w: nat, bgn: nat, m: nat, dulbe: bool, predef: Sector, faults: set<nat>, buf: seq<Sector>)
    requires |blks| > 0 && w > 0 && m * w <= |buf|
    ensures Fits(buf, w, StripePieces(st, blks, w, bgn, m, dulbe, predef, faults))
  {
    hide StripePiece;
    var pieces := StripePieces(st, blks, w, bgn, m, dulbe, predef, faults);
    forall k | 0 <= k < m ensures PieceFits(buf, w, pieces, k) {
      PieceEnds(k, m, |pieces[k]|, w);
    }
  }

  /** Sector `i` of part `k` of the buffer: delivered, or as before where the stripe
      failed. */
  ghost predicate PartIs(out: seq<Sector>, buf: seq<Sector>, st: Store, blks: seq<nat>, w: nat, bgn: nat, dulbe: bool, predef: Sector,
                         faults: set<nat>, k: nat, i: nat)
    requires |blks| > 0 && w > 0
  {
    && k * w + i < |out| == |buf|
    && out[k * w + i] == if StripeFails(st, blks, w, bgn, dulbe, faults, k) then buf[k * w + i]
                         else Deliver(st, predef, AsyncSector(blks, w, bgn, k, i))
  }

  /** In any order in which every stripe is carried out. */
  lemma FilledParts(st: Store, blks: seq<nat>, w: nat, bgn: nat, m: nat, dulbe: bool, predef: Sector, faults: set<nat>,
                    buf: seq<Sector>, tr: seq<nat>, k: nat, i: nat)
    requires |blks| > 0 && w > 0 && m * w <= |buf| && k < m && i < w
    requires Fits(buf, w, StripePieces(st, blks, w, bgn, m, dulbe, predef, faults))
    requires (forall b :: 0 <= b < |tr| ==> tr[b] < m) && forall k: nat :: k in tr <==> k < m
    ensures PartIs(Fill(buf, w, StripePieces(st, blks, w, bgn, m, dulbe, predef, faults), tr), buf,
                   st, blks, w, bgn, dulbe, predef, faults, k, i)
  {
    hide StripeFails, AsyncSector, Deliver, StripePiece, StripePieces, Fill, Fits;
    var pieces, j := StripePieces(st, blks, w, bgn, m, dulbe, predef, faults), k * w + i;
    PieceEnds(k, m, i + 1, w);
    FillAt(buf, w, pieces, tr, k, i, j);
    PieceSector(st, blks, w, bgn, dulbe, predef, faults, k, i);
  }

  lemma PieceSector(st: Store, blks: seq<nat>, w: nat, bgn: nat, dulbe: bool, predef: Sector, faults: set<nat>, k: nat, i: nat)
    requires |blks| > 0 && w > 0 && i < w
    ensures var piece := StripePiece(st, blks, w, bgn, dulbe, predef, faults, k);
            if StripeFails(st, blks, w, bgn, dulbe, faults, k) then piece == []
            else i < |piece| && piece[i] == Deliver(st, predef, AsyncSector(blks, w, bgn, k, i))
  {
    hide StripeFails, AsyncSector, Deliver;
  }

  predicate NoneFails(st: Store, blks: seq<nat>, w: nat, bgn: nat, m: nat, dulbe: bool, faults: set<nat>)
    requires |blks| > 0 && w > 0
  {
    forall k :: 0 <= k < m ==> !StripeFails(st, blks, w, bgn, dulbe, faults, k)
  }

  function FailingStripes(st: Store, blks: seq<nat>, w: nat, bgn: nat, m: nat, dulbe: bool, faults: set<nat>): (r: set<nat>)
    requires |blks| > 0 && w > 0
    ensures forall k: nat :: k < m ==> (k in r <==> StripeFails(st, blks, w, bgn, dulbe, faults, k))
    ensures NoneFails(st, blks, w, bgn, m, dulbe, faults) <==> forall k: nat :: k < m ==> k !in r
  {
    set k: nat | 0 <= k < m && StripeFails(st, blks, w, bgn, dulbe, faults, k)
  }

  /** The buffer once every stripe has been carried out: every part whose stripe did
      not fail holds what the device has there, everything else is as before. */
  ghost predicate Delivered(out: seq<Sector>, buf: seq<Sector>, st: Store, blks: seq<nat>, w: nat, bgn: nat, m: nat, dulbe: bool,
                            predef: Sector, faults: set<nat>)
    requires |blks| > 0 && w > 0
  {
    && m * w <= |out| == |buf|
    && (forall k: nat, i: nat :: k < m && i < w ==>
          PartIs(out, buf, st, blks, w, bgn, dulbe, predef, faults, k, i))
    && (forall j :: m * w <= j < |buf| ==> out[j] == buf[j])
  }

  /** That is so whatever the order was. */
  lemma AnyOrderDelivers(st: Store, blks: seq<nat>, w: nat, bgn: nat, m: nat, dulbe: bool, predef: Sector, faults: set<nat>,
                         buf: seq<Sector>, tr: seq<nat>)
    requires |blks| > 0 && w > 0 && m * w <= |buf|
    requires Fits(buf, w, StripePieces(st, blks, w, bgn, m, dulbe, predef, faults))
    requires (forall b :: 0 <= b < |tr| ==> tr[b] < m) && forall k: nat :: k in tr <==> k < m
    ensures Delivered(Fill(buf, w, StripePieces(st, blks, w, bgn, m, dulbe, predef, faults), tr), buf,
                      st, blks, w, bgn, m, dulbe, predef, faults)
  {
    hide PartIs, Fits, StripePiece, StripePieces, Fill;
    var pieces := StripePieces(st, blks, w, bgn, m, dulbe, predef, faults);
    var out := Fill(buf, w, pieces, tr);
    forall k: nat, i: nat | k < m && i < w
      ensures PartIs(out, buf, st, blks, w, bgn, dulbe, predef, faults, k, i)
    {
      FilledParts(st, blks, w, bgn, m, dulbe, predef, faults, buf, tr, k, i);
    }
    forall j | m * w <= j < |buf| ensures out[j] == buf[j] {
      BeyondFill(buf, w, pieces, tr, j);
    }
  }

  lemma ReadFailures(st: Store, m: nat, failing: set<nat>)
    ensures var ok := Exec(Media(st, map[]), ReadCmds(m), failing, InOrder(m)).ok;
            forall k: nat :: k < m ==> k in ok && ok[k] == (k !in failing)
  {
    hide Exec, ReadCmds;
    ReadOutcomes(st, m, failing, InOrder(m));
    forall k: nat | k < m ensures k in InOrder(m) {
      assert InOrder(m)[k] == k;
    }
  }

  /** An asynchronous read of `m` stripes into the buffer at `buf`, through a queue
      of `depth` entries of either backend, executed and completed in any order, on
      a device that fails the stripes in `faults`. Each stripe carried out fills its
      own part of the buffer. SPDK reports success exactly when no stripe fails, the
      block-device backend exactly when no completion has its second result word
      set. */
  method AsyncPread(st: Store, blks: seq<nat>, w: nat, bgn: nat, m: nat, dulbe: bool, predef: Sector, buf: seq<Sector>,
                    faults: set<nat>, depth: nat, spdk: bool, res2: set<nat>)
    returns (r: int, out: seq<Sector>)
    requires |blks| > 0 && w > 0 && depth >= 2 && m * w <= |buf|
    ensures r >= -1 && |out| == |buf|
    ensures r >= 0 ==> Delivered(out, buf, st, blks, w, bgn, m, dulbe, predef, faults)
    ensures r >= 0 && spdk ==> (r == 0 <==> NoneFails(st, blks, w, bgn, m, dulbe, faults))
    ensures r >= 0 && !spdk ==> (r == 0 <==> forall k: nat :: k < m ==> k !in res2)
    ensures r >= 0 && NoneFails(st, blks, w, bgn, m, dulbe, faults) ==>
              out == DeliverAll(st, predef, AsyncRange(blks, w, bgn, m)) + buf[m * w..]
  {
    hide StripeFails, NoneFails, StripePiece, Exec, InOrder, ReadCmds, Delivered, DeliverAll, AsyncRange, Fits;
    var failing := FailingStripes(st, blks, w, bgn, m, dulbe, faults);
    var pieces := StripePieces(st, blks, w, bgn, m, dulbe, predef, faults);
    PiecesFit(st, blks, w, bgn, m, dulbe, predef, faults, buf);
    ReadsSeparated(m, |blks|);
    var plan := Async.Plan(ReadCmds(m), failing, Media(st, map[]), |blks|);
    var run := new Async.AsyncRun(plan, depth, spdk, res2);
    r := run.IoAsync();
    out := Fill(buf, w, pieces, run.hist.trace);
    if r >= 0 {
      ReadFailures(st, m, failing);
      AnyOrderDelivers(st, blks, w, bgn, m, dulbe, predef, faults, buf, run.hist.trace);
      if NoneFails(st, blks, w, bgn, m, dulbe, faults) {
        AllParts(out, buf, st, blks, w, bgn, m, dulbe, predef, faults);
      }
    }
  }

  /** If no stripe fails the parts make up everything asked for. */
  lemma AllParts(out: seq<Sector>, buf: seq<Sector>, st: Store, blks: seq<nat>, w: nat, bgn: nat, m: nat, dulbe: bool, predef: Sector,
                 faults: set<nat>)
    requires |blks| > 0 && w > 0 && NoneFails(st, blks, w, bgn, m, dulbe, faults)
    requires Delivered(out, buf, st, blks, w, bgn, m, dulbe, predef, faults)
    ensures out == DeliverAll(st, predef, AsyncRange(blks, w, bgn, m)) + buf[m * w..]
  {
    hide StripeFails, AsyncSector, Deliver;
    var all := DeliverAll(st, predef, AsyncRange(blks, w, bgn, m));
    forall j | 0 <= j < m * w ensures out[j] == all[j] {
      DivBelow(j, m, w);
      assert PartIs(out, buf, st, blks, w, bgn, dulbe, predef, faults, j / w, j % w);
      assert (j / w) * w + j % w == j;
    }
  }

  // ---- what the buffer then holds ---------------------------------------------------------

  /** The logical sector that stripe `k` of a read from unit `u` on really shows in
      its sector `i`. */
  function Shown(n: nat, w: nat, u: nat, k: nat, i: nat): nat
    requires n > 0 && w > 0
  {
    ((k / n) * n + (u + k) % n) * w + i
  }

  /** It is the requested one in the right round, and one before it in any other. */
  lemma ShownIs(n: nat, w: nat, u: nat, k: nat, i: nat)
    requires n > 0 && w > 0
    ensures (u + k) / n == k / n ==> Shown(n, w, u, k, i) == (u + k) * w + i
    ensures (u + k) / n != k / n ==> Shown(n, w, u, k, i) < (u + k) * w + i
  {
    var a, b, c := k / n, (u + k) / n, (u + k) % n;
    assert u + k == b * n + c;
    RoundsGrow(u, k, n);
    if a < b {
      MulLe(a + 1, b, n);
      assert (a + 1) * n == a * n + n;
      MulLe(a * n + c + 1, u + k, w);
      assert (a * n + c + 1) * w == (a * n + c) * w + w;
    }
  }

  lemma RoundsGrow(u: nat, k: nat, n: nat)
    requires n > 0
    ensures k / n <= (u + k) / n
  {
    var a, b := k / n, (u + k) / n;
    assert k == a * n + k % n && u + k == b * n + (u + k) % n;
    assert (b + 1) * n == b * n + n;
    if b < a { MulLe(b + 1, a, n); }
  }

  /** The loop reads what the log holds at the sector shown. */
  lemma ReadsShown(st: Store, blks: seq<nat>, w: nat, cap: nat, log: seq<Sector>, u: nat, k: nat, i: nat, dulbe: bool, predef: Sector)
    requires Holds(st, blks, w, cap, log) && i < w && (u + k) * w + i < |log|
    ensures |blks| > 0 && w > 0
    ensures Shown(|blks|, w, u, k, i) < |log|
    ensures var a := AsyncSector(blks, w, u * w, k, i);
            CanRead(st, dulbe, a) && Deliver(st, predef, a) == log[Shown(|blks|, w, u, k, i)]
  {
    hide AsyncSector, Shown, CanRead, Deliver;
    assert |blks| > 0 && w > 0 by { HoldsShape(st, blks, w, cap, log); }
    ShownIs(|blks|, w, u, k, i);
    ShownAddr(blks, w, u, k, i);
    HeldSector(st, blks, w, cap, log, Shown(|blks|, w, u, k, i), dulbe, predef);
  }

  lemma ShownAddr(blks: seq<nat>, w: nat, u: nat, k: nat, i: nat)
    requires |blks| > 0 && w > 0 && i < w
    ensures Resolve(blks, w, Shown(|blks|, w, u, k, i)) == AsyncSector(blks, w, u * w, k, i)
  {
    hide Place;
    var n := |blks|;
    var unit := (k / n) * n + (u + k) % n;
    PlaceOfUnit(n, w, unit, i, Shown(n, w, u, k, i));
    DivModUnique(unit, n, k / n, (u + k) % n);
    DivModUnique(u * w, w, u, 0);
    ModShift(u, k, n);
  }

  lemma HeldSector(st: Store, blks: seq<nat>, w: nat, cap: nat, log: seq<Sector>, t: nat, dulbe: bool, predef: Sector)
    requires Holds(st, blks, w, cap, log) && t < |log|
    ensures |blks| > 0 && w > 0
    ensures CanRead(st, dulbe, Resolve(blks, w, t)) && Deliver(st, predef, Resolve(blks, w, t)) == log[t]
  {
    LogicalOfPlace(|blks|, w, t);
    var c := Place(|blks|, w, t).chunk;
    assert ChunkHolds(st[blks[c]], |blks|, w, cap, c, |log|);
    assert HoldsAt(st, blks, w, t, log[t]);
  }

  lemma BufferShown(st: Store, blks: seq<nat>, w: nat, cap: nat, log: seq<Sector>, u: nat, m: nat, predef: Sector, j: nat)
    requires Holds(st, blks, w, cap, log) && (u + m) * w <= |log| && j < m * w
    ensures |blks| > 0 && w > 0 && Shown(|blks|, w, u, j / w, j % w) < |log|
    ensures DeliverAll(st, predef, AsyncRange(blks, w, u * w, m))[j] == log[Shown(|blks|, w, u, j / w, j % w)]
    ensures (u + j / w) * w + j % w == u * w + j < |log|
  {
    hide AsyncSector, Shown, CanRead, Deliver, Holds;
    assert |blks| > 0 && w > 0 by { HoldsShape(st, blks, w, cap, log); }
    assert (u + j / w) * w == u * w + (j / w) * w;
    assert (u + m) * w == u * w + m * w;
    ReadsShown(st, blks, w, cap, log, u, j / w, j % w, false, predef);
  }

  /** No two sectors of the log are equal, so that content tells them apart. */
  ghost predicate AllDifferent(log: seq<Sector>) {
    forall s, t :: 0 <= s < t < |log| ==> log[s] != log[t]
  }

  /** The device accepts everything an asynchronous read of a held log asks for,
      right or wrong. */
  lemma AsyncReadAccepted(st: Store, blks: seq<nat>, w: nat, cap: nat, log: seq<Sector>, u: nat, m: nat, dulbe: bool, k: nat)
    requires Holds(st, blks, w, cap, log) && (u + m) * w <= |log| && k < m
    ensures |blks| > 0 && w > 0 && Readable(st, dulbe, StripeAddrs(blks, w, u * w, k))
  {
    hide AsyncSector, Shown, CanRead, Holds;
    assert |blks| > 0 && w > 0 by { HoldsShape(st, blks, w, cap, log); }
    forall i | 0 <= i < w ensures CanRead(st, dulbe, StripeAddrs(blks, w, u * w, k)[i]) {
      MulLe(u + k + 1, u + m, w);
      assert (u + k + 1) * w == (u + k) * w + w;
      ReadsShown(st, blks, w, cap, log, u, k, i, dulbe, []);
    }
  }

  /** A stripe in the right round is delivered as asked for. */
  lemma RightSector(st: Store, blks: seq<nat>, w: nat, cap: nat, log: seq<Sector>, u: nat, m: nat, predef: Sector, j: nat)
    requires Holds(st, blks, w, cap, log) && (u + m) * w <= |log| && j < m * w && StartsFresh(|blks|, u, m)
    ensures |blks| > 0 && w > 0 && u * w + j < |log|
    ensures DeliverAll(st, predef, AsyncRange(blks, w, u * w, m))[j] == log[u * w + j]
  {
    hide Holds, Shown, AsyncRange, DeliverAll;
    BufferShown(st, blks, w, cap, log, u, m, predef, j);
    DivBelow(j, m, w);
    RightRound(|blks|, u, j / w);
    ShownIs(|blks|, w, u, j / w, j % w);
  }

  /** Outside that case some sector delivered lies before the one asked for. */
  lemma WrongSector(st: Store, blks: seq<nat>, w: nat, cap: nat, log: seq<Sector>, u: nat, m: nat, predef: Sector)
    returns (j: nat, t: nat)
    requires Holds(st, blks, w, cap, log) && (u + m) * w <= |log| && m > 0 && !StartsFresh(|blks|, u, m)
    ensures |blks| > 0 && w > 0 && j < m * w && t < u * w + j < |log|
    ensures DeliverAll(st, predef, AsyncRange(blks, w, u * w, m))[j] == log[t]
  {
    hide Holds, Shown, AsyncRange, DeliverAll;
    assert |blks| > 0 && w > 0 by { HoldsShape(st, blks, w, cap, log); }
    var bad := FirstWrong(|blks|, u, m);
    j := bad * w;
    MulLe(bad + 1, m, w);
    assert (bad + 1) * w == bad * w + w;
    DivModUnique(j, w, bad, 0);
    BufferShown(st, blks, w, cap, log, u, m, predef, j);
    ShownIs(|blks|, w, u, bad, 0);
    t := Shown(|blks|, w, u, bad, 0);
  }

  /** An asynchronous read of `m` stripes of a held log delivers the sectors asked
      for when it starts at unit 0 or stays within the first round; otherwise it
      delivers, with success, earlier sectors in place of some of them, which goes
      unnoticed only where the log repeats itself. */
  lemma AsyncReadIff(st: Store, blks: seq<nat>, w: nat, cap: nat, log: seq<Sector>, u: nat, m: nat, predef: Sector)
    requires Holds(st, blks, w, cap, log) && (u + m) * w <= |log| && m > 0
    ensures |blks| > 0 && w > 0 && u * w + m * w <= |log|
    ensures var out := DeliverAll(st, predef, AsyncRange(blks, w, u * w, m));
            && (StartsFresh(|blks|, u, m) ==> out == log[u * w..u * w + m * w])
            && (AllDifferent(log) ==> (out == log[u * w..u * w + m * w] <==> StartsFresh(|blks|, u, m)))
  {
    hide Holds, AsyncRange, DeliverAll, StartsFresh;
    assert |blks| > 0 && w > 0 by { HoldsShape(st, blks, w, cap, log); }
    assert (u + m) * w == u * w + m * w;
    var base, len := u * w, m * w;
    var out := DeliverAll(st, predef, AsyncRange(blks, w, base, m));
    DeliverLength(st, predef, AsyncRange(blks, w, base, m));
    if StartsFresh(|blks|, u, m) {
      forall j | 0 <= j < len ensures out[j] == log[base..base + len][j] {
        RightSector(st, blks, w, cap, log, u, m, predef, j);
      }
      assert out == log[base..base + len];
    } else if AllDifferent(log) {
      var j, t := WrongSector(st, blks, w, cap, log, u, m, predef);
      assert out[j] != log[base + j];
      assert log[base..base + len][j] == log[base + j];
    }
  }

  lemma FirstWrong(n: nat, u: nat, m: nat) returns (bad: nat)
    requires n > 0 && m > 0 && !StartsFresh(n, u, m)
    ensures bad < m && (u + bad) / n != bad / n
  {
    bad := WrongRound(n, u);
  }

  /** Two chunks, WS_OPT 1, three sectors written: reading the third alone returns
      the first. */
  lemma AsyncReadWrong(st: Store, blks: seq<nat>, cap: nat, log: seq<Sector>, predef: Sector)
    requires |blks| == 2 && |log| == 3 && Holds(st, blks, 1, cap, log)
    ensures DeliverAll(st, predef, AsyncRange(blks, 1, 2, 1)) == [log[0]]
  {
    hide Holds, AsyncRange, DeliverAll, Shown;
    BufferShown(st, blks, 1, cap, log, 2, 1, predef, 0);
    DeliverLength(st, predef, AsyncRange(blks, 1, 2, 1));
    assert Shown(2, 1, 2, 0, 0) == 0 by { ThirdShowsFirst(); }
  }

  lemma ThirdShowsFirst()
    ensures Shown(2, 1, 2, 0, 0) == 0
  {
  }
}
