/** How a virtual block deals its logical sectors to `n` chunks, `w` sectors at
    a time. The 2.0 paths use w = WS_OPT (copy uses WS_MIN); the 1.2 paths use
    w = SPAGE_NADDRS, with a block standing for a chunk. */
module Striping {
  import opened Arith
  import opened Device

  // ---- the map and its inverse ------------------------------------------

  /** Chunk index and sector within the chunk of logical sector `s`. */
  function Place(n: nat, w: nat, s: nat): SecAddr
    requires n > 0 && w > 0
  {
    var wunit: nat := s / w;
    var rnd: nat := wunit / n;
    MulLe(0, rnd, w);
    SecAddr(wunit % n, s % w + rnd * w)
  }

  function Logical(n: nat, w: nat, a: SecAddr): nat
    requires n > 0 && w > 0
  {
    ((a.sectr / w) * n + a.chunk) * w + a.sectr % w
  }

  /** Sector `i` of unit `u`. */
  function UnitSector(n: nat, w: nat, u: nat, i: nat): SecAddr
    requires n > 0
  {
    SecAddr(u % n, i + (u / n) * w)
  }

  lemma PlaceFromDigits(n: nat, w: nat, u: nat, i: nat, s: nat)
    requires n > 0 && w > 0 && s / w == u && s % w == i
    ensures Place(n, w, s) == UnitSector(n, w, u, i)
  {
  }

  lemma PlaceOfUnit(n: nat, w: nat, u: nat, i: nat, s: nat)
    requires n > 0 && w > 0 && i < w && s == u * w + i
    ensures Place(n, w, s) == UnitSector(n, w, u, i)
  {
    hide Place, UnitSector;
    DivModUnique(s, w, u, i);
    PlaceFromDigits(n, w, u, i, s);
  }

  lemma LogicalOfPlace(n: nat, w: nat, s: nat)
    requires n > 0 && w > 0
    ensures Place(n, w, s).chunk < n
    ensures Logical(n, w, Place(n, w, s)) == s
  {
    var u := s / w;
    var a := Place(n, w, s);
    DivModUnique(a.sectr, w, u / n, s % w);
    assert (u / n) * n + u % n == u;
    assert u * w + s % w == s;
  }

  lemma PlaceOfLogical(n: nat, w: nat, a: SecAddr)
    requires n > 0 && w > 0 && a.chunk < n
    ensures Place(n, w, Logical(n, w, a)) == a
  {
    var u := (a.sectr / w) * n + a.chunk;
    DivModUnique(Logical(n, w, a), w, u, a.sectr % w);
    DivModUnique(u, n, a.sectr / w, a.chunk);
  }

  lemma PlaceInBounds(n: nat, w: nat, cap: nat, s: nat)
    requires n > 0 && w > 0 && cap % w == 0 && s < n * cap
    ensures Place(n, w, s).sectr < cap
  {
    var u, rounds := s / w, cap / w;
    assert cap == rounds * w;
    assert n * cap == (n * rounds) * w;
    DivBelow(s, n * rounds, w);
    assert n * rounds == rounds * n;
    DivBelow(u, rounds, n);
    DigitsBelow(u / n, s % w, rounds, w);
  }

  lemma LogicalInBounds(n: nat, w: nat, cap: nat, a: SecAddr)
    requires n > 0 && w > 0 && cap % w == 0 && a.chunk < n && a.sectr < cap
    ensures Logical(n, w, a) < n * cap
  {
    var rounds := cap / w;
    assert cap == rounds * w;
    DivBelow(a.sectr, rounds, w);
    DigitsBelow(a.sectr / w, a.chunk, rounds, n);
    DigitsBelow((a.sectr / w) * n + a.chunk, a.sectr % w, rounds * n, w);
    assert (rounds * n) * w == n * cap;
  }

  /** Sector 0 is sector 0 of the first chunk; within a unit the next sector follows in
      the same chunk; the next unit starts at the same place on the next chunk, or
      after the last chunk one unit further on the first. */
  lemma PlaceLayout(n: nat, w: nat, s: nat)
    requires n > 0 && w > 0
    ensures Place(n, w, 0) == SecAddr(0, 0)
    ensures s % w != w - 1 ==> Place(n, w, s + 1) == SecAddr(Place(n, w, s).chunk, Place(n, w, s).sectr + 1)
    ensures s % w == 0 && Place(n, w, s).chunk + 1 < n ==>
              Place(n, w, s + w) == SecAddr(Place(n, w, s).chunk + 1, Place(n, w, s).sectr)
    ensures s % w == 0 && Place(n, w, s).chunk + 1 == n ==>
              Place(n, w, s + w) == SecAddr(0, Place(n, w, s).sectr + w)
  {
    hide Place, UnitSector;
    var u: nat, i: nat := s / w, s % w;
    assert s == u * w + i;
    assert (u + 1) * w == u * w + w;
    PlaceOfUnit(n, w, 0, 0, 0);
    PlaceOfUnit(n, w, u, i, s);
    UnitStart(n, w);
    if i != w - 1 {
      PlaceOfUnit(n, w, u, i + 1, s + 1);
      NextInUnit(n, w, u, i);
    }
    if i == 0 {
      PlaceOfUnit(n, w, u + 1, 0, s + w);
      NextUnit(n, w, u);
    }
  }

  lemma UnitStart(n: nat, w: nat)
    requires n > 0
    ensures UnitSector(n, w, 0, 0) == SecAddr(0, 0)
  {
    DivModUnique(0, n, 0, 0);
  }

  lemma NextInUnit(n: nat, w: nat, u: nat, i: nat)
    requires n > 0
    ensures UnitSector(n, w, u, i + 1) == SecAddr(UnitSector(n, w, u, i).chunk, UnitSector(n, w, u, i).sectr + 1)
  {
  }

  lemma NextUnit(n: nat, w: nat, u: nat)
    requires n > 0
    ensures var a := UnitSector(n, w, u, 0);
            UnitSector(n, w, u + 1, 0) == if a.chunk + 1 < n then SecAddr(a.chunk + 1, a.sectr) else SecAddr(0, a.sectr + w)
  {
    DivModStep(u, n);
    assert (u / n + 1) * w == (u / n) * w + w;
  }

  /** The map from logical sectors to (chunk, sector) is a bijection onto the
      whole virtual block. */
  lemma PlaceIsBijection(n: nat, w: nat, cap: nat)
    requires n > 0 && w > 0 && cap % w == 0
    ensures forall s :: 0 <= s < n * cap ==>
              Place(n, w, s).chunk < n && Place(n, w, s).sectr < cap
    ensures forall s, t :: 0 <= s < n * cap && 0 <= t < n * cap && Place(n, w, s) == Place(n, w, t) ==> s == t
    ensures forall a: SecAddr :: a.chunk < n && a.sectr < cap ==>
              0 <= Logical(n, w, a) < n * cap && Place(n, w, Logical(n, w, a)) == a
  {
    forall s | 0 <= s < n * cap
      ensures Place(n, w, s).chunk < n && Place(n, w, s).sectr < cap
    {
      LogicalOfPlace(n, w, s);
      PlaceInBounds(n, w, cap, s);
    }
    forall s, t | 0 <= s < n * cap && 0 <= t < n * cap && Place(n, w, s) == Place(n, w, t)
      ensures s == t
    {
      LogicalOfPlace(n, w, s);
      LogicalOfPlace(n, w, t);
    }
    forall a: SecAddr | a.chunk < n && a.sectr < cap
      ensures 0 <= Logical(n, w, a) < n * cap && Place(n, w, Logical(n, w, a)) == a
    {
      LogicalInBounds(n, w, cap, a);
      PlaceOfLogical(n, w, a);
    }
  }

  // ---- how full each chunk is after the first `s` sectors ----------------

  /** The number of units `u` below `m` with `u % n == c`. */
  function CountUnits(n: nat, c: nat, m: nat): nat
    requires n > 0
  {
    if m == 0 then 0
    else CountUnits(n, c, m - 1) + (if (m - 1) % n == c then 1 else 0)
  }

  /** Write pointer of chunk `c` once sectors 0..s have been dealt out. */
  function WpAt(n: nat, w: nat, c: nat, s: nat): nat
    requires n > 0 && w > 0
  {
    CountUnits(n, c, s / w) * w + (if (s / w) % n == c then s % w else 0)
  }

  lemma {:induction false} CountUnitsClosed(n: nat, c: nat, m: nat)
    requires n > 0 && c < n
    ensures CountUnits(n, c, m) == m / n + (if c < m % n then 1 else 0)
  {
    if m == 0 {
      DivModUnique(0, n, 0, 0);
    } else {
      CountUnitsClosed(n, c, m - 1);
      DivModStep(m - 1, n);
    }
  }

  /** The next sector always goes to the write pointer of its chunk. */
  lemma NextIsAtWp(n: nat, w: nat, s: nat)
    requires n > 0 && w > 0
    ensures WpAt(n, w, Place(n, w, s).chunk, s) == Place(n, w, s).sectr
  {
    CountUnitsClosed(n, (s / w) % n, s / w);
  }

  lemma WpAtStep(n: nat, w: nat, c: nat, s: nat)
    requires n > 0 && w > 0 && c < n
    ensures WpAt(n, w, c, s + 1) == WpAt(n, w, c, s) + (if Place(n, w, s).chunk == c then 1 else 0)
  {
    DivModStep(s, w);
    var u := s / w;
    if s % w == w - 1 {
      assert CountUnits(n, c, u + 1) == CountUnits(n, c, u) + (if u % n == c then 1 else 0);
      assert (CountUnits(n, c, u) + 1) * w == CountUnits(n, c, u) * w + w;
    }
  }

  lemma {:induction false} WpAtUnits(n: nat, w: nat, c: nat, m: nat)
    requires n > 0 && w > 0
    ensures WpAt(n, w, c, m * w) == w * CountUnits(n, c, m)
  {
    DivModUnique(m * w, w, m, 0);
    var k := CountUnits(n, c, m);
    assert k * w == w * k;
  }

  lemma {:induction false} WpAtRounds(n: nat, w: nat, c: nat, rounds: nat)
    requires n > 0 && w > 0 && c < n
    ensures WpAt(n, w, c, (rounds * n) * w) == rounds * w
  {
    var m := rounds * n;
    DivModUnique(m, n, rounds, 0);
    CountUnitsClosed(n, c, m);
    DivModUnique(m * w, w, m, 0);
  }

  lemma {:induction false} WpAtFull(n: nat, w: nat, cap: nat, c: nat)
    requires n > 0 && w > 0 && c < n && cap % w == 0
    ensures WpAt(n, w, c, n * cap) == cap
  {
    var rounds := cap / w;
    var total := n * cap;
    assert cap == rounds * w;
    assert total == (rounds * n) * w by { RegroupRounds(n, rounds, w); }
    WpAtRounds(n, w, c, rounds);
    assert WpAt(n, w, c, total) == WpAt(n, w, c, (rounds * n) * w);
  }

  lemma WpAtZero(n: nat, w: nat, c: nat)
    requires n > 0 && w > 0
    ensures WpAt(n, w, c, 0) == 0
  {
    WpAtUnits(n, w, c, 0);
  }

  // ---- a store that holds a logical log ----------------------------------

  predicate Distinct(blks: seq<nat>) {
    forall i, j :: 0 <= i < j < |blks| ==> blks[i] != blks[j]
  }

  /** The shape the striping code relies on: at least one chunk, no chunk
      twice, all of one capacity made of whole units. */
  ghost predicate Shape(st: Store, blks: seq<nat>, w: nat, cap: nat) {
    && |blks| > 0 && w > 0 && cap > 0 && cap % w == 0
    && Distinct(blks)
    && forall c :: 0 <= c < |blks| ==> blks[c] < |st|
  }

  /** Chunk `blks[c]` is where striping `log` would leave it. */
  ghost predicate ChunkHolds(ch: Chunk, n: nat, w: nat, cap: nat, c: nat, len: nat)
    requires n > 0 && w > 0
  {
    ch.cap == cap && ch.Valid() && !ch.state.Offline? && ch.Wp() == WpAt(n, w, c, len)
  }

  ghost predicate HoldsAt(st: Store, blks: seq<nat>, w: nat, s: nat, x: Sector)
    requires |blks| > 0 && w > 0
  {
    var a := Place(|blks|, w, s);
    a.chunk < |blks| && ReadOne(st, SecAddr(blks[a.chunk], a.sectr)) == Some(x)
  }

  /** The virtual block on `blks` holds exactly the logical sectors `log`: every
      chunk is written up to where striping `log` leaves it and every logical
      sector reads back. */
  ghost predicate Holds(st: Store, blks: seq<nat>, w: nat, cap: nat, log: seq<Sector>) {
    && Shape(st, blks, w, cap)
    && (forall c :: 0 <= c < |blks| ==> ChunkHolds(st[blks[c]], |blks|, w, cap, c, |log|))
    && (forall s :: 0 <= s < |log| ==> HoldsAt(st, blks, w, s, log[s]))
  }

  /** Physical address of logical sector `s`. */
  function Resolve(blks: seq<nat>, w: nat, s: nat): SecAddr
    requires |blks| > 0 && w > 0
  {
    var a := Place(|blks|, w, s);
    SecAddr(blks[a.chunk], a.sectr)
  }

  /** Physical addresses of `len` logical sectors from `s` on. */
  function Range(blks: seq<nat>, w: nat, s: nat, len: nat): (r: seq<SecAddr>)
    requires |blks| > 0 && w > 0
    ensures |r| == len
  {
    seq(len, i requires 0 <= i < len => Resolve(blks, w, s + i))
  }

  lemma ResolveChunk(blks: seq<nat>, w: nat, s: nat)
    requires |blks| > 0 && w > 0
    ensures 0 <= (s / w) % |blks| < |blks|
    ensures Resolve(blks, w, s).chunk == blks[(s / w) % |blks|]
    ensures Resolve(blks, w, s).chunk in blks
  {
  }

  lemma RangeTail(blks: seq<nat>, w: nat, s: nat, len: nat)
    requires |blks| > 0 && w > 0 && len > 0
    ensures Range(blks, w, s, len)[0] == Resolve(blks, w, s)
    ensures Range(blks, w, s, len)[1..] == Range(blks, w, s + 1, len - 1)
  {
    assert forall i :: 0 <= i < len - 1 ==> Range(blks, w, s, len)[1..][i] == Range(blks, w, s + 1, len - 1)[i];
  }

  lemma RangeSplit(blks: seq<nat>, w: nat, s: nat, a: nat, b: nat)
    requires |blks| > 0 && w > 0
    ensures Range(blks, w, s, a + b) == Range(blks, w, s, a) + Range(blks, w, s + a, b)
  {
  }

  /** Other chunks than those of the virtual block are as they were. */
  ghost predicate OthersSame(st: Store, st': Store, blks: seq<nat>) {
    |st'| == |st| && forall c :: 0 <= c < |st| && c !in blks ==> st'[c] == st[c]
  }

  lemma RangeFootprint(blks: seq<nat>, w: nat, s: nat, len: nat)
    requires |blks| > 0 && w > 0
    ensures forall c :: c in Footprint(Range(blks, w, s, len)) ==> c in blks
  {
    forall c | c in Footprint(Range(blks, w, s, len)) ensures c in blks {
      var i :| 0 <= i < len && Range(blks, w, s, len)[i].chunk == c;
      ResolveChunk(blks, w, s + i);
    }
  }

  lemma HoldsLength(st: Store, blks: seq<nat>, w: nat, cap: nat, log: seq<Sector>)
    requires Holds(st, blks, w, cap, log)
    ensures |log| <= |blks| * cap
  {
    var n := |blks|;
    if |log| > n * cap {
      LogicalOfPlace(n, w, n * cap);
      assert HoldsAt(st, blks, w, n * cap, log[n * cap]);
      var c := Place(n, w, n * cap).chunk;
      assert ChunkHolds(st[blks[c]], n, w, cap, c, |log|);
      NextIsAtWp(n, w, n * cap);
      WpAtFull(n, w, cap, c);
    }
  }

  /** Writing the next logical sector is accepted while there is room, and the
      log grows by it. */
  lemma AppendOne(st: Store, blks: seq<nat>, w: nat, cap: nat, log: seq<Sector>, x: Sector)
    requires Holds(st, blks, w, cap, log)
    ensures |log| < |blks| * cap <==> WriteOne(st, Resolve(blks, w, |log|), x).Some?
    ensures |log| < |blks| * cap ==>
              Holds(WriteOne(st, Resolve(blks, w, |log|), x).value, blks, w, cap, log + [x])
  {
    var n, s := |blks|, |log|;
    LogicalOfPlace(n, w, s);
    var a := Place(n, w, s);
    NextIsAtWp(n, w, s);
    assert ChunkHolds(st[blks[a.chunk]], n, w, cap, a.chunk, s);
    HoldsLength(st, blks, w, cap, log);
    if s < n * cap {
      PlaceInBounds(n, w, cap, s);
      var st' := WriteOne(st, Resolve(blks, w, s), x).value;
      forall c | 0 <= c < n ensures ChunkHolds(st'[blks[c]], n, w, cap, c, s + 1) {
        assert ChunkHolds(st[blks[c]], n, w, cap, c, s);
        WpAtStep(n, w, c, s);
      }
      forall t | 0 <= t < s + 1 ensures HoldsAt(st', blks, w, t, (log + [x])[t]) {
        LogicalOfPlace(n, w, t);
        if t < s { assert HoldsAt(st, blks, w, t, log[t]); }
      }
    } else {
      WpAtFull(n, w, cap, a.chunk);
    }
  }

  /** Writing `data` after the log: accepted exactly when it fits, and then the
      virtual block holds `log + data`. */
  lemma {:induction false} AppendMany(st: Store, blks: seq<nat>, w: nat, cap: nat, log: seq<Sector>, data: seq<Sector>)
    requires Holds(st, blks, w, cap, log)
    ensures WriteAll(st, Range(blks, w, |log|, |data|), data).Some? <==> |log| + |data| <= |blks| * cap
    ensures |log| + |data| <= |blks| * cap ==>
              Holds(WriteAll(st, Range(blks, w, |log|, |data|), data).value, blks, w, cap, log + data)
    decreases |data|
  {
    if data == [] {
      HoldsLength(st, blks, w, cap, log);
      assert log + data == log;
    } else {
      AppendOne(st, blks, w, cap, log, data[0]);
      RangeTail(blks, w, |log|, |data|);
      if |log| < |blks| * cap {
        var st' := WriteOne(st, Resolve(blks, w, |log|), data[0]).value;
        AppendMany(st', blks, w, cap, log + [data[0]], data[1..]);
        assert log + [data[0]] + data[1..] == log + data;
      }
    }
  }

  // ---- a range cut into commands ---------------------------------------------------------------

  /** How many commands of `c` it takes to cover `total`. */
  function CommandCount(total: nat, c: nat): nat
    requires c > 0
  {
    (total + c - 1) / c
  }

  lemma CommandCountIs(total: nat, c: nat, k: nat)
    requires c > 0
    ensures k < CommandCount(total, c) <==> k * c < total
  {
    var q := CommandCount(total, c);
    var r := (total + c - 1) % c;
    assert total + c - 1 == q * c + r;
    if k < q {
      MulLe(k + 1, q, c);
      assert (k + 1) * c == k * c + c;
    } else {
      MulLe(q, k, c);
    }
  }

  /** Sectors of command `k` of the loop over `total` sectors, `c` at a time. */
  function PieceLen(total: nat, c: nat, k: nat): nat {
    if k * c + c <= total then c else if k * c <= total then total - k * c else 0
  }

  /** Addresses of command `k` of the loop that starts at sector `s`. */
  function PieceAddrs(blks: seq<nat>, w: nat, s: nat, total: nat, c: nat, k: nat): (r: seq<SecAddr>)
    requires |blks| > 0 && w > 0
    ensures |r| == PieceLen(total, c, k) <= c
  {
    MulLe(0, k, c);
    Range(blks, w, s + k * c, PieceLen(total, c, k))
  }

  /** The first `n` commands. */
  function Cut(blks: seq<nat>, w: nat, s: nat, total: nat, c: nat, n: nat): (r: seq<seq<SecAddr>>)
    requires |blks| > 0 && w > 0
    ensures |r| == n && forall k :: 0 <= k < n ==> r[k] == PieceAddrs(blks, w, s, total, c, k)
  {
    seq(n, k requires 0 <= k => PieceAddrs(blks, w, s, total, c, k))
  }

  /** All commands of the loop. */
  function CutAll(blks: seq<nat>, w: nat, s: nat, total: nat, c: nat): seq<seq<SecAddr>>
    requires |blks| > 0 && w > 0 && c > 0
  {
    Cut(blks, w, s, total, c, CommandCount(total, c))
  }

  /** One more command of `len` sectors, at sector `done` of the range. */
  lemma CutNext(blks: seq<nat>, w: nat, s: nat, total: nat, c: nat, n: nat, done: nat, len: nat)
    requires |blks| > 0 && w > 0 && done == n * c <= total && len == if done + c <= total then c else total - done
    ensures Cut(blks, w, s, total, c, n + 1) == Cut(blks, w, s, total, c, n) + [Range(blks, w, s + done, len)]
  {
    hide Range;
  }

  /** A loop that has issued `n` commands, `done` sectors, since `cmds0`. */
  ghost predicate CutAt(cmds0: seq<seq<SecAddr>>, cmds: seq<seq<SecAddr>>, blks: seq<nat>, w: nat, s: nat, total: nat, c: nat, n: nat, done: nat)
    requires |blks| > 0 && w > 0
  {
    done == n * c && cmds == cmds0 + Cut(blks, w, s, total, c, n)
  }

  lemma CutAtStart(cmds: seq<seq<SecAddr>>, blks: seq<nat>, w: nat, s: nat, total: nat, c: nat)
    requires |blks| > 0 && w > 0
    ensures CutAt(cmds, cmds, blks, w, s, total, c, 0, 0)
  {
  }

  lemma CutAtNext(cmds0: seq<seq<SecAddr>>, cmds: seq<seq<SecAddr>>, blks: seq<nat>, w: nat, s: nat, total: nat, c: nat, n: nat, done: nat)
    requires |blks| > 0 && w > 0 && CutAt(cmds0, cmds, blks, w, s, total, c, n, done) && done + c <= total
    ensures CutAt(cmds0, cmds + [Range(blks, w, s + done, c)], blks, w, s, total, c, n + 1, done + c)
  {
    hide Cut, Range;
    CutNext(blks, w, s, total, c, n, done, c);
    assert (n + 1) * c == n * c + c;
  }

  lemma CutAtEnd(cmds0: seq<seq<SecAddr>>, cmds: seq<seq<SecAddr>>, blks: seq<nat>, w: nat, s: nat, total: nat, c: nat, n: nat)
    requires |blks| > 0 && w > 0 && c > 0 && CutAt(cmds0, cmds, blks, w, s, total, c, n, total)
    ensures cmds == cmds0 + CutAll(blks, w, s, total, c)
  {
    hide Cut;
    if n > 0 { assert (n - 1) * c == n * c - c; }
    CutEnds(total, c, n);
  }

  lemma CutEnds(total: nat, c: nat, n: nat)
    requires c > 0 && total <= n * c && (n == 0 || (n - 1) * c < total)
    ensures n == CommandCount(total, c)
  {
    CommandCountIs(total, c, n);
    if n > 0 { CommandCountIs(total, c, n - 1); }
  }

  /** Counting in units or in sectors gives as many commands. */
  lemma SameCount(m: nat, per: nat, w: nat)
    requires per > 0 && w > 0 && per * w > 0
    ensures CommandCount(m, per) == CommandCount(m * w, per * w)
  {
    var n := CommandCount(m, per);
    CommandCountIs(m, per, n);
    assert n * (per * w) == (n * per) * w;
    MulLe(m, n * per, w);
    if n > 0 {
      CommandCountIs(m, per, n - 1);
      assert (n - 1) * (per * w) == ((n - 1) * per) * w;
      MulLe((n - 1) * per + 1, m, w);
      assert ((n - 1) * per + 1) * w == ((n - 1) * per) * w + w;
    }
    CutEnds(m * w, per * w, n);
  }
}
