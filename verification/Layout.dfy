/** compute_layout: an exact partition of the screen, in arithmetic modulo 2^32. */
module Layout {
  import opened CTypes

  /** The share of every pane that is not active. */
  function Normal(total: nat, n: nat): nat
    requires n > 1
  {
    (total - total / 2) / (n - 1)
  }

  /** What integer division leaves over; it goes to the last pane. */
  function Rest(total: nat, n: nat): (r: nat)
    requires n > 1
    ensures r < n - 1 && r <= total
  {
    (total - total / 2) % (n - 1)
  }

  /** Width of column i (or height of row i) of n when `active` is the active one. */
  function Extent(total: nat, n: nat, active: nat, i: nat): nat
    requires active < n && i < n
  {
    if n == 1 then total
    else (if i == active then total / 2 else Normal(total, n)) + (if i == n - 1 then Rest(total, n) else 0)
  }

  /** Where column i begins; Offset(.., n) is the far edge. */
  function Offset(total: nat, n: nat, active: nat, i: nat): nat
    requires active < n && i <= n
  {
    if i == 0 then 0 else Offset(total, n, active, i - 1) + Extent(total, n, active, i - 1)
  }

  /** Before the correction of the last pane: the fixed shares add up like this. */
  lemma {:induction false} OffsetIs(total: nat, n: nat, active: nat, i: nat)
    requires active < n && i < n && n > 1
    ensures Offset(total, n, active, i) ==
      if active < i then total / 2 + (i - 1) * Normal(total, n) else i * Normal(total, n)
  {
    if i > 0 {
      OffsetIs(total, n, active, i - 1);
      Distribute(i - 1, Normal(total, n));
      if active < i - 1 {
        Distribute(i - 2, Normal(total, n));
      }
    }
  }

  lemma Distribute(k: int, v: int)
    ensures (k + 1) * v == k * v + v
  {
  }

  /** Quotient and remainder of the half that the inactive panes share. */
  lemma HalfDivided(total: nat, n: nat)
    requires n > 1
    ensures (n - 1) * Normal(total, n) + Rest(total, n) == total - total / 2
  {
  }

  /** The panes fill the screen exactly. */
  lemma ExtentsFill(total: nat, n: nat, active: nat)
    requires active < n
    ensures Offset(total, n, active, n) == total
  {
    hide Normal, Rest;
    if n == 1 {
      assert Offset(total, n, active, 0) == 0;
    } else {
      OffsetIs(total, n, active, n - 1);
      HalfDivided(total, n);
      Distribute(n - 2, Normal(total, n));
    }
  }

  ghost predicate AllPositive(total: nat, n: nat, active: nat)
    requires active < n
  {
    forall i :: 0 <= i < n ==> Extent(total, n, active, i) > 0
  }

  /** No pane vanishes, exactly when half the screen has a cell for each inactive pane. */
  lemma PositiveIff(total: nat, n: nat, active: nat)
    requires active < n
    ensures AllPositive(total, n, active) <==> total >= Min(n, 2) && (total + 1) / 2 >= n - 1
  {
    if n == 1 {
      assert Extent(total, n, active, 0) == total;
    } else {
      var half, v := total - total / 2, Normal(total, n);
      assert half == (total + 1) / 2;
      assert v > 0 <==> half >= n - 1 by {
        QuotientPositive(half, n - 1);
      }
      if !(total >= 2) {
        assert Extent(total, n, active, active) == (if active == n - 1 then Rest(total, n) else 0);
        if n == 2 {
          assert Rest(total, n) == 0;
        } else {
          var i := if active == 0 then 1 else 0;
          assert Extent(total, n, active, i) == v == 0;
        }
      } else if v == 0 {
        assert n > 2;
        var i := if active == 0 then 1 else 0;
        assert Extent(total, n, active, i) == 0;
      }
    }
  }

  lemma QuotientPositive(a: nat, b: nat)
    requires b > 0
    ensures a / b > 0 <==> a >= b
  {
  }

  /** Inactive panes are equal except the last; the active one has half the screen, more only if it is last. */
  lemma SharesAreFair(total: nat, n: nat, active: nat, i: nat)
    requires active < n && i < n && n > 1
    ensures i != active && i != n - 1 ==> Extent(total, n, active, i) == Normal(total, n)
    ensures i != active && i == n - 1 ==> Normal(total, n) <= Extent(total, n, active, i) < Normal(total, n) + (n - 1)
    ensures i == active && i != n - 1 ==> Extent(total, n, active, i) == total / 2
    ensures i == active && i == n - 1 ==> total / 2 <= Extent(total, n, active, i) < total / 2 + (n - 1)
  {
  }

  /** The share of pane i before the remainder is given out. */
  function Share(total: nat, n: nat, active: nat, i: nat): nat
    requires n > 1
  {
    if i == active then total / 2 else Normal(total, n)
  }

  /** The first two loops of compute_layout; a single pane is left as it was found. */
  method FixShares(extents: array<U32>, n: nat, active: nat, total: nat)
    requires active < n <= extents.Length && n < 0x1_0000_0000 && total < 0x1_0000_0000
    modifies extents
    ensures n > 1 ==> forall i :: 0 <= i < n ==> extents[i] == Share(total, n, active, i)
    ensures n == 1 ==> extents[0] == old(extents[0])
  {
    var remaining: int := total;
    for i := 0 to n
      invariant remaining == if n > 1 && active < i then total - total / 2 else total
      invariant n > 1 && active < i ==> extents[active] == total / 2
      invariant n == 1 ==> extents[0] == old(extents[0])
    {
      if i == active && n > 1 {
        extents[i] := total / 2;
        remaining := (remaining - extents[i]) % 0x1_0000_0000;
      }
    }
    var normal := if n > 1 then remaining / (n - 1) else total;
    assert n > 1 ==> normal == Normal(total, n);
    for i := 0 to n
      invariant n > 1 ==> extents[active] == total / 2
      invariant forall k :: 0 <= k < i && k != active ==> extents[k] == normal
      invariant n == 1 ==> extents[0] == old(extents[0])
    {
      if i != active {
        extents[i] := normal;
      }
    }
  }

  /** The summing loop, modulo 2^32. */
  method SumExtents(extents: array<U32>, n: nat, ghost active: nat, ghost total: nat) returns (sum: int)
    requires active < n <= extents.Length && total < 0x1_0000_0000
    requires n > 1 ==> forall i :: 0 <= i < n ==> extents[i] == Share(total, n, active, i)
    ensures n > 1 ==> sum == total - Rest(total, n)
    ensures n == 1 ==> sum == extents[0]
  {
    hide Normal, Rest;
    sum := 0;
    for i := 0 to n
      invariant n > 1 ==> sum == Unfixed(total, n, active, i)
      invariant n == 1 ==> sum == (if i == 0 then 0 else extents[0])
    {
      UnfixedBelow(total, n, active, i + 1);
      sum := (sum + extents[i]) % 0x1_0000_0000;
    }
  }

  /** One half of compute_layout; the array may hold anything on entry, and is read before it is set when n is 1. */
  method ComputeExtents(extents: array<U32>, n: nat, active: nat, total: nat)
    requires active < n <= extents.Length && n < 0x1_0000_0000 && total < 0x1_0000_0000
    modifies extents
    ensures forall i :: 0 <= i < n ==> extents[i] == Extent(total, n, active, i)
  {
    hide Normal, Rest;
    FixShares(extents, n, active, total);
    var sum := SumExtents(extents, n, active, total);
    LastBelow(total, n, active);
    extents[n - 1] := (extents[n - 1] + (total - sum) % 0x1_0000_0000) % 0x1_0000_0000;
  }

  lemma LastBelow(total: nat, n: nat, active: nat)
    requires active < n
    ensures Extent(total, n, active, n - 1) <= total
    ensures n > 1 ==> 0 <= Rest(total, n) <= total
  {
    ExtentsFill(total, n, active);
    OffsetGrows(total, n, active, n - 1);
  }

  /** The shares before the remainder goes to the last pane. */
  ghost function Unfixed(total: nat, n: nat, active: nat, i: nat): nat
    requires active < n && i <= n
  {
    if n > 1 && i == n then total - Rest(total, n) else Offset(total, n, active, i)
  }

  lemma UnfixedBelow(total: nat, n: nat, active: nat, i: nat)
    requires active < n && 0 < i <= n
    ensures n > 1 ==>
      Unfixed(total, n, active, i) == Unfixed(total, n, active, i - 1) + Share(total, n, active, i - 1) <= total
  {
    ExtentsFill(total, n, active);
    OffsetGrows(total, n, active, i);
  }

  lemma {:induction false} OffsetGrows(total: nat, n: nat, active: nat, i: nat)
    requires active < n && i <= n
    ensures Offset(total, n, active, i) <= Offset(total, n, active, n)
    decreases n - i
  {
    if i < n {
      OffsetGrows(total, n, active, i + 1);
    }
  }
}
