/** The address arithmetic of the individual loops, compared with the striping
    map: the 1.2 super-page loops and the asynchronous 2.0 loop. */
module Layouts {
  import opened Arith
  import opened Device
  import opened Striping

  // ---- Open-Channel SSD 1.2 -----------------------------------------------

  datatype Geo12 = Geo12(nplanes: nat, npages: nat, nsectors: nat) {
    ghost predicate Valid() { nplanes > 0 && npages > 0 && nsectors > 0 }
    /** SPAGE_NADDRS: sectors written across all planes at one page. */
    function Spage(): nat { nplanes * nsectors }
  }

  /** Block index in the virtual block, page, plane and sector. */
  datatype PageAddr = PageAddr(blk: nat, pg: nat, pl: nat, sec: nat)

  ghost predicate InBlock(geo: Geo12, nblks: nat, a: PageAddr) {
    a.blk < nblks && a.pg < geo.npages && a.pl < geo.nplanes && a.sec < geo.nsectors
  }

  /** Address `i` of the command that starts at super page `off`. */
  function S12Addr(geo: Geo12, nblks: nat, off: nat, i: nat): PageAddr
    requires geo.nplanes > 0 && geo.npages > 0 && geo.nsectors > 0 && nblks > 0
    requires geo.Spage() > 0
  {
    var spg := off + i / geo.Spage();
    PageAddr(spg % nblks, (spg / nblks) % geo.npages,
             (i / geo.nsectors) % geo.nplanes, i % geo.nsectors)
  }

  /** Position of an address within its block, in programming order. */
  function Linear(geo: Geo12, a: PageAddr): SecAddr {
    SecAddr(a.blk, a.pg * geo.Spage() + (a.pl * geo.nsectors + a.sec))
  }

  lemma SplitSpage(i: nat, pl: nat, sec: nat)
    requires pl > 0 && sec > 0 && pl * sec > 0
    ensures i % (pl * sec) == ((i / sec) % pl) * sec + i % sec
  {
    var q, u := (i / sec) / pl, (i / sec) % pl;
    assert i / sec == q * pl + u;
    assert i == (i / sec) * sec + i % sec;
    assert (q * pl + u) * sec == q * (pl * sec) + u * sec;
    DigitsBelow(u, i % sec, pl, sec);
    DivModUnique(i, pl * sec, q, u * sec + i % sec);
  }

  /** The 1.2 loops address sector `off * SPAGE + i` of the virtual block where
      striping by super pages puts it. */
  lemma S12IsStriping(geo: Geo12, nblks: nat, off: nat, i: nat)
    requires geo.Valid() && nblks > 0 && geo.Spage() > 0
    requires off + i / geo.Spage() < geo.npages * nblks
    ensures Linear(geo, S12Addr(geo, nblks, off, i)) == Place(nblks, geo.Spage(), off * geo.Spage() + i)
    ensures InBlock(geo, nblks, S12Addr(geo, nblks, off, i))
  {
    var sp := geo.Spage();
    var spg := off + i / sp;
    ModAddMultiple(i, off, sp);
    DivBelow(spg, geo.npages, nblks);
    DivModUnique(spg / nblks, geo.npages, 0, spg / nblks);
    SplitSpage(i, geo.nplanes, geo.nsectors);
  }

  lemma LinearInjective(geo: Geo12, nblks: nat, a: PageAddr, b: PageAddr)
    requires geo.Valid() && InBlock(geo, nblks, a) && InBlock(geo, nblks, b)
    requires Linear(geo, a) == Linear(geo, b)
    ensures a == b
  {
    DigitsBelow(a.pl, a.sec, geo.nplanes, geo.nsectors);
    DigitsBelow(b.pl, b.sec, geo.nplanes, geo.nsectors);
    var ra, rb := a.pl * geo.nsectors + a.sec, b.pl * geo.nsectors + b.sec;
    DivModUnique(Linear(geo, a).sectr, geo.Spage(), a.pg, ra);
    DivModUnique(Linear(geo, b).sectr, geo.Spage(), b.pg, rb);
    DivModUnique(ra, geo.nsectors, a.pl, a.sec);
    DivModUnique(rb, geo.nsectors, b.pl, b.sec);
  }

  /** Position of an address in its super page: the sectors of plane 0, then those of
      plane 1, and so on. */
  ghost predicate PlaneMajor(geo: Geo12, i: nat, a: PageAddr) {
    && a.pl < geo.nplanes && a.sec < geo.nsectors
    && exists q: nat :: i == q * geo.Spage() + (a.pl * geo.nsectors + a.sec)
  }

  /** Addresses k * nsectors up to (k + 1) * nsectors of a super page are the sectors
      of plane k in order, all on the block and page of its first address. */
  lemma S12PlaneByPlane(geo: Geo12, nblks: nat, off: nat, q: nat, k: nat, s: nat)
    requires geo.Valid() && nblks > 0 && geo.Spage() > 0 && k < geo.nplanes && s < geo.nsectors
    ensures var a, first := S12Addr(geo, nblks, off, q * geo.Spage() + (k * geo.nsectors + s)), S12Addr(geo, nblks, off, q * geo.Spage());
            && a.pl == k && a.sec == s && a.blk == first.blk && a.pg == first.pg
            && first.pl == 0 && first.sec == 0
  {
    SpageDigits(geo, q, k, s);
    SpageDigits(geo, q, 0, 0);
  }

  lemma SpageDigits(geo: Geo12, q: nat, k: nat, s: nat)
    requires geo.Valid() && geo.Spage() > 0 && k < geo.nplanes && s < geo.nsectors
    ensures var i := q * geo.Spage() + (k * geo.nsectors + s);
            i / geo.Spage() == q && (i / geo.nsectors) % geo.nplanes == k && i % geo.nsectors == s
  {
    var n, p := geo.nsectors, geo.nplanes;
    var i := q * geo.Spage() + (k * n + s);
    DigitsBelow(k, s, p, n);
    DivModUnique(i, geo.Spage(), q, k * n + s);
    assert q * (p * n) == (q * p) * n;
    assert i == (q * p + k) * n + s;
    DivModUnique(i, n, q * p + k, s);
    DivModUnique(q * p + k, p, q, k);
  }

  /** Every address the loops compute is laid out that way. */
  lemma S12IsPlaneMajor(geo: Geo12, nblks: nat, off: nat, i: nat)
    requires geo.Valid() && nblks > 0 && geo.Spage() > 0
    ensures PlaneMajor(geo, i, S12Addr(geo, nblks, off, i))
  {
    var a, q: nat, sp := S12Addr(geo, nblks, off, i), i / geo.Spage(), geo.Spage();
    assert i == q * sp + i % sp;
    assert i % sp == a.pl * geo.nsectors + a.sec by { SplitSpage(i, geo.nplanes, geo.nsectors); }
    assert a.pl < geo.nplanes && a.sec < geo.nsectors;
    hide S12Addr;
    assert i == q * geo.Spage() + (a.pl * geo.nsectors + a.sec);
  }

  /** Sector number of an address: the inverse of the 1.2 map. */
  function S12Index(geo: Geo12, nblks: nat, a: PageAddr): nat
    requires geo.Spage() > 0 && nblks > 0
  {
    Logical(nblks, geo.Spage(), Linear(geo, a))
  }

  /** Every (block, page, plane, sector) of the virtual block is the address of
      one of its sectors, */
  lemma S12RoundTrip(geo: Geo12, nblks: nat, a: PageAddr)
    requires geo.Valid() && nblks > 0 && InBlock(geo, nblks, a) && geo.Spage() > 0
    ensures S12Index(geo, nblks, a) < nblks * (geo.npages * geo.Spage())
    ensures S12Addr(geo, nblks, 0, S12Index(geo, nblks, a)) == a
  {
    var sp := geo.Spage();
    DigitsBelow(a.pl, a.sec, geo.nplanes, geo.nsectors);
    DigitsBelow(a.pg, a.pl * geo.nsectors + a.sec, geo.npages, sp);
    DivModUnique(geo.npages * sp, sp, geo.npages, 0);
    LogicalInBounds(nblks, sp, geo.npages * sp, Linear(geo, a));
    PlaceOfLogical(nblks, sp, Linear(geo, a));
    var s := S12Index(geo, nblks, a);
    RegroupRounds(nblks, geo.npages, sp);
    DivBelow(s, geo.npages * nblks, sp);
    S12IsStriping(geo, nblks, 0, s);
    LinearInjective(geo, nblks, S12Addr(geo, nblks, 0, s), a);
  }

  /** and every sector is found again from its address: the 1.2 map is a
      bijection. */
  lemma S12RoundTripBack(geo: Geo12, nblks: nat, s: nat)
    requires geo.Valid() && nblks > 0 && geo.Spage() > 0 && s < nblks * (geo.npages * geo.Spage())
    ensures InBlock(geo, nblks, S12Addr(geo, nblks, 0, s))
    ensures S12Index(geo, nblks, S12Addr(geo, nblks, 0, s)) == s
  {
    var sp := geo.Spage();
    RegroupRounds(nblks, geo.npages, sp);
    DivBelow(s, geo.npages * nblks, sp);
    S12IsStriping(geo, nblks, 0, s);
    LogicalOfPlace(nblks, sp, s);
  }

  // ---- the asynchronous 2.0 loop --------------------------------------------

  /** Sector `i` of stripe `stripe` in the asynchronous loop started at logical
      sector `bgn`: the chunk index takes the start into account, the offset
      within the chunk does not. */
  function AsyncAddr(n: nat, w: nat, bgn: nat, stripe: nat, i: nat): SecAddr
    requires n > 0 && w > 0
  {
    var cnkBgn: nat := (bgn / w) % n;
    var rnd: nat := stripe / n;
    MulLe(0, rnd, w);
    SecAddr((cnkBgn + stripe) % n, rnd * w + i)
  }

  lemma SyncAddr(n: nat, w: nat, bgn: nat, stripe: nat, i: nat)
    requires n > 0 && w > 0 && bgn % w == 0 && i < w
    ensures Place(n, w, bgn + stripe * w + i) == UnitSector(n, w, bgn / w + stripe, i)
  {
    hide Place, UnitSector;
    var u := bgn / w;
    assert bgn == u * w;
    assert (u + stripe) * w == u * w + stripe * w;
    PlaceOfUnit(n, w, u + stripe, i, bgn + stripe * w + i);
  }

  lemma MulCancel(a: int, b: int, w: nat)
    requires w > 0 && a * w == b * w
    ensures a == b
  {
    assert (a - b) * w == 0;
    MulAtLeast(a - b, w);
  }

  lemma StripeMatches(n: nat, w: nat, bgn: nat, stripe: nat, i: nat)
    requires n > 0 && w > 0 && bgn % w == 0 && i < w
    ensures StripeSame(n, w, bgn, stripe, i) <==> (bgn / w + stripe) / n == stripe / n
  {
    hide Place;
    SyncAddr(n, w, bgn, stripe, i);
    ModShift(bgn / w, stripe, n);
    var a, b := (bgn / w + stripe) / n, stripe / n;
    if a * w == b * w { MulCancel(a, b, w); }
  }

  /** The first stripe whose round the asynchronous loop gets wrong. */
  lemma WrongRound(n: nat, u: nat) returns (bad: nat)
    requires n > 0 && u > 0
    ensures bad == if u >= n then 0 else n - u
    ensures (u + bad) / n != bad / n
  {
    if u >= n {
      bad := 0;
      DivModUnique(0, n, 0, 0);
      MulAtLeast(u / n, n);
    } else {
      bad := n - u;
      DivModUnique(n, n, 1, 0);
      DivModUnique(bad, n, 0, bad);
    }
  }

  lemma RightRound(n: nat, u: nat, stripe: nat)
    requires n > 0 && (u == 0 || u + stripe < n)
    ensures (u + stripe) / n == stripe / n
  {
    if u > 0 {
      DivModUnique(u + stripe, n, 0, u + stripe);
      DivModUnique(stripe, n, 0, stripe);
    }
  }

  ghost predicate StripeSame(n: nat, w: nat, bgn: nat, stripe: nat, i: nat)
    requires n > 0 && w > 0
  {
    AsyncAddr(n, w, bgn, stripe, i) == Place(n, w, bgn + stripe * w + i)
  }

  /** The asynchronous loop sends every sector where the synchronous striping
      puts it exactly when it starts at unit 0 or stays within the first round
      of chunks. Both loops take stripe `stripe` from the same buffer slice. */
  lemma AsyncMatchesSync(n: nat, w: nat, bgn: nat, nstripes: nat)
    requires n > 0 && w > 0 && bgn % w == 0
    ensures (forall stripe: nat, i: nat :: stripe < nstripes && i < w ==> StripeSame(n, w, bgn, stripe, i))
       <==> (nstripes == 0 || bgn / w == 0 || bgn / w + nstripes <= n)
  {
    var u := bgn / w;
    if nstripes > 0 && u > 0 && u + nstripes > n {
      var bad := WrongRound(n, u);
      StripeMatches(n, w, bgn, bad, 0);
      assert !StripeSame(n, w, bgn, bad, 0);
    } else {
      forall stripe: nat, i: nat | stripe < nstripes && i < w ensures StripeSame(n, w, bgn, stripe, i) {
        RightRound(n, u, stripe);
        StripeMatches(n, w, bgn, stripe, i);
      }
    }
  }
}
