/** Round-robin host selection (`Session::nextHost`): the session keeps its
    configured host list and a counter of hosts handed out so far. */
module HostPool {
  import opened Etcd

  /** The part of a session that changes per call. The counter is an
      unbounded natural here; `NextHostUint32` models the source's 32-bit
      counter. */
  datatype Pool = Pool(hosts: seq<Host>, hostNo: nat)

  /** `nextHost`: the host at the counter modulo the list length, and the
      pool with its counter advanced by one. An empty list is a division
      by zero in the source. */
  function NextHost(p: Pool): (r: (Host, Pool))
    requires |p.hosts| > 0
    ensures r.0 in p.hosts
    ensures r.1.hosts == p.hosts && r.1.hostNo == p.hostNo + 1
  {
    (p.hosts[Slot(p.hostNo, |p.hosts|)], p.(hostNo := p.hostNo + 1))
  }

  /** The counter's position in a list of length n: the remainder of a by
      n (`SlotIsMod`), computed by repeated subtraction. */
  function Slot(a: nat, n: nat): (r: nat)
    requires n > 0
    ensures r < n
    decreases a
  {
    if a < n then a else Slot(a - n, n)
  }

  lemma {:induction false} MulAtLeast(d: int, n: int)
    requires d >= 1 && n > 0
    ensures d * n >= n
    decreases d
  {
    if d > 1 {
      MulAtLeast(d - 1, n);
      assert d * n == (d - 1) * n + n;
    }
  }

  /** The quotient of a by n, with a = q * n + a % n. */
  lemma DivMod(a: int, n: int) returns (q: int)
    requires n > 0
    ensures a == q * n + a % n && 0 <= a % n < n
  {
    q := a / n;
  }

  /** Division with remainder is unique. */
  lemma ModUnique(a: int, n: int, q: int, r: int)
    requires n > 0 && 0 <= r < n && a == q * n + r
    ensures a % n == r
  {
    var q0, r0 := a / n, a % n;
    assert a == q0 * n + r0;
    assert (q - q0) * n == r0 - r;
    if q > q0 {
      MulAtLeast(q - q0, n);
    } else if q < q0 {
      MulAtLeast(q0 - q, n);
    }
  }

  /** `Slot` is the source's `hostNo % hosts.size()`. */
  lemma {:induction false} SlotIsMod(a: nat, n: nat)
    requires n > 0
    ensures Slot(a, n) == a % n
    decreases a
  {
    if a < n {
      ModUnique(a, n, 0, a);
    } else {
      SlotIsMod(a - n, n);
      var q := DivMod(a - n, n);
      ModUnique(a, n, q + 1, (a - n) % n);
    }
  }

  /** The hosts handed out by `k` consecutive calls, in call order. */
  function Served(p: Pool, k: nat): (s: seq<Host>)
    requires |p.hosts| > 0
    ensures |s| == k
    decreases k
  {
    if k == 0 then []
    else var (h, p') := NextHost(p); [h] + Served(p', k - 1)
  }

  /** The pool after `k` consecutive calls: the list is kept and the
      counter has moved on by k. */
  function After(p: Pool, k: nat): (q: Pool)
    requires |p.hosts| > 0
    ensures q.hosts == p.hosts && q.hostNo == p.hostNo + k
    decreases k
  {
    if k == 0 then p else After(NextHost(p).1, k - 1)
  }

  /** The host that the i-th call from now (counting from 0) hands out. */
  function HostAt(p: Pool, i: nat): Host
    requires |p.hosts| > 0
    decreases i
  {
    if i == 0 then NextHost(p).0 else HostAt(NextHost(p).1, i - 1)
  }

  /** The next pool's call i is this pool's call i + 1. */
  lemma HostAtNext(p: Pool, i: nat)
    requires |p.hosts| > 0
    ensures HostAt(NextHost(p).1, i) == HostAt(p, i + 1)
  {
  }

  /** Call i hands out what the pool left by the first i calls hands out
      next. */
  lemma {:induction false} HostAtAfter(p: Pool, i: nat)
    requires |p.hosts| > 0
    ensures HostAt(p, i) == NextHost(After(p, i)).0
    decreases i
  {
    if i > 0 {
      HostAtAfter(NextHost(p).1, i - 1);
    }
  }

  /** Call i hands out the list position of counter + i. */
  lemma {:induction false} HostAtSlot(p: Pool, i: nat)
    requires |p.hosts| > 0
    ensures HostAt(p, i) == p.hosts[Slot(p.hostNo + i, |p.hosts|)]
    decreases i
  {
    if i > 0 {
      HostAtSlot(NextHost(p).1, i - 1);
    }
  }

  /** Call i hands out list position (counter + i) mod n. */
  lemma HostAtIndex(p: Pool, i: nat)
    requires |p.hosts| > 0
    ensures HostAt(p, i) == p.hosts[(p.hostNo + i) % |p.hosts|]
  {
    HostAtSlot(p, i);
    SlotIsMod(p.hostNo + i, |p.hosts|);
  }

  /** Call number i (counting from 0) of k consecutive calls is the i-th
      call from now. */
  lemma {:induction false} ServedAt(p: Pool, k: nat, i: nat)
    requires |p.hosts| > 0
    requires i < k
    ensures Served(p, k)[i] == HostAt(p, i)
    decreases k
  {
    if i > 0 {
      ServedAt(NextHost(p).1, k - 1, i - 1);
    }
  }

  /** From a fresh session the first n calls hand out the configured list
      in order, and call n + 1 repeats the first host. */
  lemma FreshCycle(p: Pool)
    requires |p.hosts| > 0 && p.hostNo == 0
    ensures Served(p, |p.hosts|) == p.hosts
    ensures Served(p, |p.hosts| + 1)[|p.hosts|] == p.hosts[0]
  {
    var n := |p.hosts|;
    forall i | 0 <= i < n
      ensures Served(p, n)[i] == p.hosts[i]
    {
      ServedAt(p, n, i);
      HostAtSlot(p, i);
    }
    ServedAt(p, n + 1, n);
    HostAtSlot(p, n);
    assert Slot(n, n) == Slot(0, n);
  }

  /** Offset i from counter a lands on position i of the list rotated to
      start at slot c of a. */
  lemma {:induction false} RotatedSlot(a: nat, n: nat, i: nat)
    requires 0 < n && i < n
    ensures var c := Slot(a, n);
            Slot(a + i, n) == if i < n - c then c + i else i - (n - c)
    decreases a
  {
    if a >= n {
      RotatedSlot(a - n, n, i);
    } else if a + i >= n {
      assert Slot(a + i, n) == Slot(a + i - n, n);
    }
  }

  /** Call i of a window of n calls hands out position i of the list
      rotated to start at the current counter. */
  lemma RotationAt(p: Pool, i: nat)
    requires |p.hosts| > 0 && i < |p.hosts|
    ensures var c := Slot(p.hostNo, |p.hosts|);
            HostAt(p, i) == (p.hosts[c..] + p.hosts[..c])[i]
  {
    var n := |p.hosts|;
    var c := Slot(p.hostNo, n);
    RotatedSlot(p.hostNo, n, i);
    HostAtSlot(p, i);
    var front, back := p.hosts[c..], p.hosts[..c];
    if i < n - c {
      assert (front + back)[i] == front[i];
    } else {
      assert (front + back)[i] == back[i - (n - c)];
    }
  }

  lemma RotationSameElements<T>(a: seq<T>, c: nat)
    requires c <= |a|
    ensures multiset(a[c..] + a[..c]) == multiset(a)
  {
    assert a == a[..c] + a[c..];
  }

  /** From any counter, n consecutive calls hand out the configured list
      rotated to start at the current position: every host exactly once. */
  lemma WindowIsRotation(p: Pool)
    requires |p.hosts| > 0
    ensures var c := p.hostNo % |p.hosts|;
            Served(p, |p.hosts|) == p.hosts[c..] + p.hosts[..c]
    ensures multiset(Served(p, |p.hosts|)) == multiset(p.hosts)
  {
    var n := |p.hosts|;
    var c := Slot(p.hostNo, n);
    var rot := p.hosts[c..] + p.hosts[..c];
    var s := Served(p, n);
    forall i | 0 <= i < n
      ensures s[i] == rot[i]
    {
      ServedAt(p, n, i);
      RotationAt(p, i);
    }
    assert s == rot;
    SlotIsMod(p.hostNo, n);
    RotationSameElements(p.hosts, c);
  }

  /** With more than one host, two consecutive calls never hand out the
      same list position. */
  lemma ConsecutiveDiffer(p: Pool)
    requires |p.hosts| > 1
    ensures p.hostNo % |p.hosts| != NextHost(p).1.hostNo % |p.hosts|
  {
    var n := |p.hosts|;
    RotatedSlot(p.hostNo, n, 1);
    SlotIsMod(p.hostNo, n);
    SlotIsMod(p.hostNo + 1, n);
  }

  /** Host selection is periodic with the list length. */
  lemma Periodic(p: Pool, k: nat, i: nat)
    requires |p.hosts| > 0
    requires i + |p.hosts| < k
    ensures Served(p, k)[i + |p.hosts|] == Served(p, k)[i]
  {
    var n := |p.hosts|;
    ServedAt(p, k, i);
    ServedAt(p, k, i + n);
    HostAtSlot(p, i);
    HostAtSlot(p, i + n);
    assert Slot(p.hostNo + (i + n), n) == Slot(p.hostNo + i, n);
  }

  // ---------------------------------------------------------------------
  // The counter as declared in the source: `uint hostNo`, which wraps at
  // 2^32. Whenever 2^32 is not a multiple of the list length the wrap
  // breaks the cycle.

  const TwoTo32: nat := 0x1_0000_0000

  datatype Pool32 = Pool32(hosts: seq<Host>, hostNo: nat)

  predicate Valid32(p: Pool32) { p.hostNo < TwoTo32 }

  function NextHostUint32(p: Pool32): (r: (Host, Pool32))
    requires |p.hosts| > 0 && Valid32(p)
    ensures Valid32(r.1) && r.1.hosts == p.hosts
    ensures r.0 in p.hosts
    ensures r.1.hostNo == (p.hostNo + 1) % TwoTo32
  {
    (p.hosts[p.hostNo % |p.hosts|], p.(hostNo := (p.hostNo + 1) % TwoTo32))
  }

  /** With three hosts and the counter at 2^32 - 1, the call that wraps
      the counter and the call after it both hand out the first host. */
  lemma WrapRepeatsHost(a: Host, b: Host, c: Host)
    ensures var p := Pool32([a, b, c], TwoTo32 - 1);
            var (h1, p1) := NextHostUint32(p);
            var (h2, _) := NextHostUint32(p1);
            h1 == a && h2 == a && p1.hostNo == 0
  {
  }

  /** The unbounded counter does not have this defect: from the same
      position the next call moves on to the second host. */
  lemma NoWrapMovesOn(a: Host, b: Host, c: Host)
    ensures var p := Pool([a, b, c], TwoTo32 - 1);
            Served(p, 2) == [a, b]
  {
    var p := Pool([a, b, c], TwoTo32 - 1);
    ServedAt(p, 2, 0);
    ServedAt(p, 2, 1);
    HostAtIndex(p, 0);
    HostAtIndex(p, 1);
  }
}
