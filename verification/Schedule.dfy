/** Write commands carried out by the device in some order. Commands are named
    by their position in the program's own order; `trace` is the order in which
    the device carried them out. */
module Schedule {
  import opened Device

  datatype Cmd = Cmd(addrs: seq<SecAddr>, data: seq<Sector>) {
    ghost predicate Valid() { |addrs| == |data| }
  }

  /** The device together with the outcome reported for each command so far. */
  datatype Media = Media(st: Store, ok: map<nat, bool>)

  ghost predicate AllValid(cmds: seq<Cmd>) {
    forall k :: 0 <= k < |cmds| ==> cmds[k].Valid()
  }

  predicate Conflict(cmds: seq<Cmd>, i: nat, j: nat)
    requires i < |cmds| && j < |cmds|
  {
    exists c :: c in Footprint(cmds[i].addrs) && c in Footprint(cmds[j].addrs)
  }

  /** The device carries out command `k`. Commands in `faults` are failed by the
      media whatever the chunk rules say. */
  function Apply(m: Media, cmds: seq<Cmd>, faults: set<nat>, k: nat): Media
    requires k < |cmds| && cmds[k].Valid()
  {
    var r := WriteAll(m.st, cmds[k].addrs, cmds[k].data);
    if k in faults || r.None? then Media(m.st, m.ok[k := false])
    else Media(r.value, m.ok[k := true])
  }

  ghost predicate Trace(cmds: seq<Cmd>, tr: seq<nat>) {
    forall b :: 0 <= b < |tr| ==> tr[b] < |cmds|
  }

  function Exec(m: Media, cmds: seq<Cmd>, faults: set<nat>, tr: seq<nat>): Media
    requires AllValid(cmds) && Trace(cmds, tr)
    decreases |tr|
  {
    if tr == [] then m
    else Apply(Exec(m, cmds, faults, tr[..|tr| - 1]), cmds, faults, tr[|tr| - 1])
  }

  /** Program order: 0, 1, .., n - 1. */
  function InOrder(n: nat): (r: seq<nat>)
    ensures |r| == n && forall i :: 0 <= i < n ==> r[i] == i
  {
    seq(n, i => i)
  }

  predicate NoDup(tr: seq<nat>) {
    forall a, b :: 0 <= a < b < |tr| ==> tr[a] != tr[b]
  }

  /** Of two commands on a common chunk, the earlier one in program order was
      carried out first. */
  ghost predicate Respects(cmds: seq<Cmd>, tr: seq<nat>)
    requires Trace(cmds, tr)
  {
    forall b, i :: 0 <= b < |tr| && 0 <= i < tr[b] && Conflict(cmds, i, tr[b]) ==> i in tr[..b]
  }

  // ---- commands on different chunks commute -------------------------------

  lemma ApplyFrame(m: Media, cmds: seq<Cmd>, faults: set<nat>, k: nat)
    requires k < |cmds| && cmds[k].Valid()
    ensures var m' := Apply(m, cmds, faults, k);
            && |m'.st| == |m.st|
            && (forall c :: 0 <= c < |m.st| && c !in Footprint(cmds[k].addrs) ==> m'.st[c] == m.st[c])
            && k in m'.ok && m'.ok == m.ok[k := m'.ok[k]]
  {
    if WriteAll(m.st, cmds[k].addrs, cmds[k].data).Some? {
      WriteAllFrame(m.st, cmds[k].addrs, cmds[k].data);
    }
  }

  /** Two stores that agree on a command's chunks give it the same outcome. */
  lemma ApplyLocal(m: Media, m2: Media, cmds: seq<Cmd>, faults: set<nat>, k: nat)
    requires k < |cmds| && cmds[k].Valid()
    requires AgreeOn(m.st, m2.st, Footprint(cmds[k].addrs))
    ensures AgreeOn(Apply(m, cmds, faults, k).st, Apply(m2, cmds, faults, k).st, Footprint(cmds[k].addrs))
    ensures Apply(m, cmds, faults, k).ok[k] == Apply(m2, cmds, faults, k).ok[k]
  {
    WriteAllLocal(m.st, m2.st, cmds[k].addrs, cmds[k].data);
  }

  lemma Commute(m: Media, cmds: seq<Cmd>, faults: set<nat>, a: nat, b: nat)
    requires a < |cmds| && b < |cmds| && a != b && cmds[a].Valid() && cmds[b].Valid()
    requires !Conflict(cmds, a, b)
    ensures Apply(Apply(m, cmds, faults, a), cmds, faults, b) == Apply(Apply(m, cmds, faults, b), cmds, faults, a)
  {
    hide Apply, Footprint;
    var ma, mb := Apply(m, cmds, faults, a), Apply(m, cmds, faults, b);
    var mab, mba := Apply(ma, cmds, faults, b), Apply(mb, cmds, faults, a);
    ApplyFrame(m, cmds, faults, a);
    ApplyFrame(m, cmds, faults, b);
    ApplyFrame(ma, cmds, faults, b);
    ApplyFrame(mb, cmds, faults, a);
    assert mab.st == mba.st && mab.ok[a] == mba.ok[a] && mab.ok[b] == mba.ok[b] by {
      ApplyLocal(m, ma, cmds, faults, b);
      ApplyLocal(m, mb, cmds, faults, a);
      forall c | 0 <= c < |m.st| ensures mab.st[c] == mba.st[c] {
        assert c !in Footprint(cmds[a].addrs) || c !in Footprint(cmds[b].addrs);
      }
    }
    assert mab.ok == mba.ok;
  }

  // ---- moving a command that conflicts with nothing after it to the end ----

  lemma ExecSnoc(m: Media, cmds: seq<Cmd>, faults: set<nat>, tr: seq<nat>, x: nat)
    requires AllValid(cmds) && Trace(cmds, tr) && x < |cmds|
    ensures Trace(cmds, tr + [x])
    ensures Exec(m, cmds, faults, tr + [x]) == Apply(Exec(m, cmds, faults, tr), cmds, faults, x)
  {
    assert (tr + [x])[..|tr|] == tr;
  }

  lemma ExecNext(m: Media, cmds: seq<Cmd>, faults: set<nat>, k: nat)
    requires AllValid(cmds) && 0 < k <= |cmds|
    ensures Exec(m, cmds, faults, InOrder(k)) == Apply(Exec(m, cmds, faults, InOrder(k - 1)), cmds, faults, k - 1)
  {
    assert InOrder(k) == InOrder(k - 1) + [k - 1];
    ExecSnoc(m, cmds, faults, InOrder(k - 1), k - 1);
  }

  lemma {:induction false} MoveToEnd(m: Media, cmds: seq<Cmd>, faults: set<nat>, a: seq<nat>, x: nat, b: seq<nat>)
    requires AllValid(cmds) && Trace(cmds, a) && Trace(cmds, b) && x < |cmds|
    requires forall i :: 0 <= i < |b| ==> b[i] != x && !Conflict(cmds, x, b[i])
    ensures Trace(cmds, a + [x] + b) && Trace(cmds, a + b + [x])
    ensures Exec(m, cmds, faults, a + [x] + b) == Exec(m, cmds, faults, a + b + [x])
    decreases |b|
  {
    if b == [] {
      assert a + [x] + b == a + b + [x];
    } else {
      var front, y := b[..|b| - 1], b[|b| - 1];
      assert b == front + [y];
      MoveToEnd(m, cmds, faults, a, x, front);
      assert a + [x] + b == (a + [x] + front) + [y];
      assert a + b == (a + front) + [y];
      ExecSnoc(m, cmds, faults, a + [x] + front, y);
      ExecSnoc(m, cmds, faults, a + front, x);
      ExecSnoc(m, cmds, faults, a + front, y);
      ExecSnoc(m, cmds, faults, a + b, x);
      Commute(Exec(m, cmds, faults, a + front), cmds, faults, x, y);
    }
  }

  /** An order over commands 0..n, each once. */
  ghost predicate Covers(tr: seq<nat>, n: nat) {
    NoDup(tr) && forall k :: k in tr <==> 0 <= k < n
  }

  /** An order that covers commands 0..n and respects conflicts gives the device
      state, and the outcomes, of program order. */
  lemma {:induction false} RespectfulOrderIsProgramOrder(m: Media, cmds: seq<Cmd>, faults: set<nat>, tr: seq<nat>, n: nat)
    requires AllValid(cmds) && n <= |cmds|
    requires Covers(tr, n) && Trace(cmds, tr) && Respects(cmds, tr)
    ensures Exec(m, cmds, faults, tr) == Exec(m, cmds, faults, InOrder(n))
    decreases n
  {
    hide Respects, Exec, Apply, Covers, NoDup;
    if n == 0 {
      CoversNone(tr);
    } else {
      var x := n - 1;
      var a, b := SplitAtLast(tr, n);
      PeelLast(m, cmds, faults, a, x, b);
      RespectfulOrderIsProgramOrder(m, cmds, faults, a + b, x);
      ExecNext(m, cmds, faults, n);
    }
  }

  lemma HasFirst(tr: seq<nat>)
    ensures tr == [] || exists k :: k in tr
  {
    if tr != [] { assert tr[0] in tr; }
  }

  lemma CoversNone(tr: seq<nat>)
    requires Covers(tr, 0)
    ensures tr == []
  {
    HasFirst(tr);
  }

  lemma SplitAtLast(tr: seq<nat>, n: nat) returns (a: seq<nat>, b: seq<nat>)
    requires n > 0 && Covers(tr, n)
    ensures tr == a + [n - 1] + b
  {
    assert n - 1 in tr;
    var q :| 0 <= q < |tr| && tr[q] == n - 1;
    a, b := tr[..q], tr[q + 1..];
  }

  lemma PeelLast(m: Media, cmds: seq<Cmd>, faults: set<nat>, a: seq<nat>, x: nat, b: seq<nat>)
    requires AllValid(cmds) && x < |cmds| && Covers(a + [x] + b, x + 1)
    requires Trace(cmds, a + [x] + b) && Respects(cmds, a + [x] + b)
    ensures Covers(a + b, x) && Trace(cmds, a + b) && Respects(cmds, a + b)
    ensures Exec(m, cmds, faults, a + [x] + b) == Apply(Exec(m, cmds, faults, a + b), cmds, faults, x)
  {
    WithoutCovers(a, x, b);
    WithoutRespects(cmds, a, x, b);
    var tr := a + [x] + b;
    assert tr[|a|] == x;
    LastConflictsWithNothingAfter(cmds, tr, x + 1, |a|);
    assert forall i :: 0 <= i < |b| ==> b[i] == tr[|a| + 1 + i];
    assert forall i :: 0 <= i < |a| ==> a[i] == tr[i];
    MoveToEnd(m, cmds, faults, a, x, b);
    ExecSnoc(m, cmds, faults, a + b, x);
  }

  lemma LastConflictsWithNothingAfter(cmds: seq<Cmd>, tr: seq<nat>, n: nat, q: nat)
    requires n <= |cmds| && Covers(tr, n)
    requires Trace(cmds, tr) && Respects(cmds, tr)
    requires q < |tr| && tr[q] == n - 1
    ensures forall b :: q < b < |tr| ==> tr[b] != tr[q] && !Conflict(cmds, tr[q], tr[b])
  {
    forall b | q < b < |tr| ensures tr[b] != tr[q] && !Conflict(cmds, tr[q], tr[b]) {
      var y := tr[b];
      assert y in tr;
      assert y !in tr[..q];
      assert Conflict(cmds, tr[q], y) <==> Conflict(cmds, y, tr[q]);
    }
  }

  lemma WithoutCovers(a: seq<nat>, x: nat, b: seq<nat>)
    requires Covers(a + [x] + b, x + 1)
    ensures Covers(a + b, x) && x !in a && x !in b
  {
    var tr, rest := a + [x] + b, a + b;
    assert tr[|a|] == x;
    assert forall i :: 0 <= i < |b| ==> tr[|a| + 1 + i] == b[i];
    assert forall i :: 0 <= i < |a| ==> tr[i] == a[i];
    assert x !in a && x !in b;
    forall k ensures k in rest <==> 0 <= k < x {
      assert k in tr <==> k in a || k == x || k in b;
      assert k in rest <==> k in a || k in b;
    }
    forall i, j | 0 <= i < j < |rest| ensures rest[i] != rest[j] {
      assert rest[i] == tr[if i < |a| then i else i + 1];
      assert rest[j] == tr[if j < |a| then j else j + 1];
    }
  }

  lemma WithoutRespects(cmds: seq<Cmd>, a: seq<nat>, x: nat, b: seq<nat>)
    requires Covers(a + [x] + b, x + 1) && x < |cmds|
    requires Trace(cmds, a + [x] + b) && Respects(cmds, a + [x] + b)
    ensures Trace(cmds, a + b) && Respects(cmds, a + b)
  {
    WithoutCovers(a, x, b);
    var tr, rest := a + [x] + b, a + b;
    assert forall j :: 0 <= j < |rest| ==> rest[j] == tr[if j < |a| then j else j + 1];
    forall j, i | 0 <= j < |rest| && 0 <= i < rest[j] && Conflict(cmds, i, rest[j]) ensures i in rest[..j] {
      var j' := if j < |a| then j else j + 1;
      assert tr[j'] == rest[j];
      assert i in tr[..j'];
      assert rest[j] in rest;
      if j < |a| {
        assert tr[..j'] == rest[..j];
      } else {
        assert tr[..j'] == a + [x] + b[..j - |a|];
        assert rest[..j] == a + b[..j - |a|];
      }
    }
  }

  // ---- orders that have not got to the end yet -----------------------------

  ghost function Missing(tr: seq<nat>, n: nat): set<nat> {
    set k: nat | k < n && k !in tr
  }

  lemma SmallestMissing(tr: seq<nat>, n: nat) returns (x: nat)
    requires exists k: nat :: k < n && k !in tr
    ensures x < n && x !in tr && forall k: nat :: k < x ==> k in tr
  {
    x := 0;
    while x in tr
      invariant x <= n && forall k: nat :: k < x ==> k in tr
      decreases n - x
    {
      if x == n { assert false; }
      x := x + 1;
    }
    if x == n { assert false; }
  }

  lemma ExtendRespects(cmds: seq<Cmd>, tr: seq<nat>, x: nat)
    requires Trace(cmds, tr) && Respects(cmds, tr) && NoDup(tr) && x < |cmds| && x !in tr
    requires forall k: nat :: k < x ==> k in tr
    ensures Trace(cmds, tr + [x]) && Respects(cmds, tr + [x]) && NoDup(tr + [x])
  {
    var tr' := tr + [x];
    forall b, i | 0 <= b < |tr'| && 0 <= i < tr'[b] && Conflict(cmds, i, tr'[b]) ensures i in tr'[..b] {
      if b < |tr| {
        assert i in tr[..b];
        assert tr'[..b] == tr[..b];
      } else {
        assert tr'[..b] == tr;
      }
    }
  }

  /** Every command carried out so far got the outcome program order gives it,
      even though other commands are still to come. */
  lemma {:induction false} PartialOutcome(m: Media, cmds: seq<Cmd>, faults: set<nat>, tr: seq<nat>, k: nat)
    requires AllValid(cmds) && Trace(cmds, tr) && NoDup(tr) && Respects(cmds, tr) && k in tr
    ensures k in Exec(m, cmds, faults, tr).ok && k in Exec(m, cmds, faults, InOrder(|cmds|)).ok
    ensures Exec(m, cmds, faults, tr).ok[k] == Exec(m, cmds, faults, InOrder(|cmds|)).ok[k]
    decreases Missing(tr, |cmds|)
  {
    var n := |cmds|;
    OutcomeRecorded(m, cmds, faults, tr, k);
    if exists x: nat :: x < n && x !in tr {
      var x := SmallestMissing(tr, n);
      ExtendRespects(cmds, tr, x);
      var tr' := tr + [x];
      assert tr'[..|tr|] == tr;
      assert Missing(tr', n) < Missing(tr, n) by {
        assert x in Missing(tr, n) && x !in Missing(tr', n);
      }
      assert tr'[|tr|] == x;
      PartialOutcome(m, cmds, faults, tr', k);
      ApplyFrame(Exec(m, cmds, faults, tr), cmds, faults, x);
    } else {
      RespectfulOrderIsProgramOrder(m, cmds, faults, tr, n);
    }
  }

  lemma {:induction false} OutcomeRecorded(m: Media, cmds: seq<Cmd>, faults: set<nat>, tr: seq<nat>, k: nat)
    requires AllValid(cmds) && Trace(cmds, tr) && k in tr
    ensures k in Exec(m, cmds, faults, tr).ok
    decreases |tr|
  {
    var front := tr[..|tr| - 1];
    if tr[|tr| - 1] != k {
      assert k in front;
      OutcomeRecorded(m, cmds, faults, front, k);
    }
  }
}
