/** Src/IoServicePool.cpp:6-28: round-robin assignment of io services. */
module IoServicePools {
  /** The slot that the k-th call returns, counting from 0. */
  function Slot(n: nat, k: nat): nat
    requires n > 0
  {
    k % n
  }

  /** How many of the first k calls returned slot i. */
  function Load(n: nat, k: nat, i: nat): nat
    requires n > 0
  {
    if k == 0 then 0 else Load(n, k - 1, i) + if Slot(n, k - 1) == i then 1 else 0
  }

  /** The load of slot i after k calls is (k - i) / n rounded up, and 0 if k <= i; so the loads of any
      two slots differ by at most one. */
  lemma LoadIsBalanced(n: nat, k: nat, i: nat, j: nat)
    requires i < n && j < n
    ensures Load(n, k, i) == if k <= i then 0 else (k - i + n - 1) / n
    ensures -1 <= Load(n, k, i) - Load(n, k, j) <= 1
  {
    LoadOf(n, k, i);
    LoadOf(n, k, j);
    RoundedUp(n, k, i);
  }

  lemma Multiply(n: nat, a: int, b: int)
    requires a <= b
    ensures n * a <= n * b
  {
  }

  lemma QuotientIs(x: nat, n: nat, q: nat)
    requires n > 0 && n * q <= x < n * q + n
    ensures x / n == q && x % n == x - n * q
  {
    var d := x / n;
    assert x == n * d + x % n;
    if d < q {
      Multiply(n, d + 1, q);
    } else if d > q {
      Multiply(n, q + 1, d);
    }
  }

  /** Both forms of the load: full rounds, and one more in the last round for the slots it reached. */
  lemma RoundedUp(n: nat, k: nat, i: nat)
    requires i < n
    ensures (if k <= i then 0 else (k - i + n - 1) / n) == k / n + if i < k % n then 1 else 0
  {
    var q, r := k / n, k % n;
    assert k == n * q + r;
    if k <= i {
      QuotientIs(k, n, 0);
    } else if i < r {
      QuotientIs(k - i + n - 1, n, q + 1);
    } else {
      QuotientIs(k - i + n - 1, n, q);
    }
  }

  lemma NextSlot(n: nat, k: nat)
    requires n > 0 && k > 0
    ensures if Slot(n, k - 1) + 1 == n then Slot(n, k) == 0 && k / n == (k - 1) / n + 1
            else Slot(n, k) == Slot(n, k - 1) + 1 && k / n == (k - 1) / n
  {
    var q, r := (k - 1) / n, (k - 1) % n;
    assert k - 1 == n * q + r;
    if r + 1 == n {
      QuotientIs(k, n, q + 1);
    } else {
      QuotientIs(k, n, q);
    }
  }

  lemma {:induction false} LoadOf(n: nat, k: nat, i: nat)
    requires i < n
    ensures Load(n, k, i) == k / n + if i < k % n then 1 else 0
  {
    if k == 0 {
      QuotientIs(0, n, 0);
    } else {
      LoadOf(n, k - 1, i);
      NextSlot(n, k);
    }
  }

  class IoService {
    constructor () {
    }
  }

  class IoServicePool {
    var services: seq<IoService>
    var next: nat

    /** The number of calls of `getIoService` so far. */
    ghost var calls: nat

    ghost predicate Valid()
      reads this
    {
      && services != [] && next <= |services|
      && (if calls == 0 then next == 0 else next == Slot(|services|, calls - 1) + 1)
    }

    constructor (size: nat)
      requires size > 0
      ensures Valid() && |services| == size && calls == 0
      ensures forall i, j | 0 <= i < j < size :: services[i] != services[j]
    {
      services := [];
      next := 0;
      calls := 0;
      new;
      for i := 0 to size
        invariant |services| == i && next == 0 && calls == 0
        invariant forall k, j | 0 <= k < j < i :: services[k] != services[j]
      {
        var ios := new IoService();
        services := services + [ios];
      }
    }

    /** `getIoService`: the index is reset before it is used, so it is always in range. */
    method GetIoService() returns (ios: IoService)
      requires Valid()
      modifies this`next, this`calls
      ensures Valid() && calls == old(calls) + 1
      ensures ios == services[old(calls) % |services|]
    {
      if calls > 0 {
        NextSlot(|services|, calls);
      }
      if next >= |services| {
        next := 0;
      }
      ios := services[next];
      next := next + 1;
      calls := calls + 1;
    }
  }
}
