/** mm.c: the bump page allocator. */
module Pages {
  import opened CTypes

  /** The first page handed out for a kernel image that ends at `end`. */
  function FirstPage(end: U64): U64 {
    var up := (end + 4095) % WRAP;
    var page := up - up % 4096;
    if page < 0xB000 then 0xB000 else page
  }

  /** It is the least page address past the image and past the page tables, unless the image reaches the last page. */
  lemma FirstPageIsLeast(end: U64, a: int)
    requires end <= WRAP - 4096
    ensures FirstPage(end) >= end && FirstPage(end) >= 0xB000 && FirstPage(end) % 4096 == 0
    ensures a >= end && a >= 0xB000 && a % 4096 == 0 ==> FirstPage(end) <= a
  {
  }

  /** The result of the k-th call of page_alloc, counting from zero. */
  function Page(end: U64, k: nat): U64 {
    (FirstPage(end) + 4096 * k) % WRAP
  }

  class PageAllocator {
    var nextFreePage: U64

    ghost var end: U64     // the linker symbol
    ghost var handed: nat  // calls of page_alloc so far

    ghost predicate Valid()
      reads this
    {
      nextFreePage == Page(end, handed)
    }

    constructor (end: U64)
      ensures Valid() && this.end == end && handed == 0
    {
      var up := (end + 4095) % WRAP;
      var page := up - up % 4096;
      if page < 0xB000 {
        page := 0xB000;
      }
      nextFreePage := page;
      this.end, handed := end, 0;
    }

    method Alloc() returns (page: U64)
      requires Valid()
      modifies this
      ensures Valid() && end == old(end) && handed == old(handed) + 1
      ensures page == Page(end, old(handed))
    {
      hide Page;
      PageAfter(end, handed);
      page := nextFreePage;
      nextFreePage := (nextFreePage + 4096) % WRAP;
      handed := handed + 1;
    }
  }

  lemma PageAfter(end: U64, k: nat)
    ensures (Page(end, k) + 4096) % WRAP == Page(end, k + 1)
  {
    hide FirstPage;
    ModAdd(FirstPage(end) + 4096 * k, 4096);
  }

  lemma WrapIs(x: int, q: int, r: int)
    requires x == q * WRAP + r && 0 <= r < WRAP
    ensures x % WRAP == r
  {
    assert x == x / WRAP * WRAP + x % WRAP;
  }

  lemma ModAdd(a: int, d: int)
    ensures (a % WRAP + d) % WRAP == (a + d) % WRAP
  {
    WrapIs(a % WRAP + d, (a + d) / WRAP - a / WRAP, (a + d) % WRAP);
  }

  lemma PagesAligned(end: U64, k: nat)
    ensures Page(end, k) % 4096 == 0
  {
    var s := FirstPage(end) + 4096 * k;
    var q := s / WRAP;
    assert Page(end, k) == s - q * WRAP;
    assert Page(end, k) == 4096 * (FirstPage(end) / 4096 + k - q * 0x10_0000_0000_0000);
  }

  /** Past the image and the page tables at [0x8000, 0xB000): exactly until the addresses wrap. */
  ghost predicate AllUsable(end: U64, n: nat) {
    forall k :: 0 <= k < n ==> Page(end, k) >= end && Page(end, k) >= 0xB000
  }

  lemma UsableIff(end: U64, n: nat)
    requires end <= WRAP - 4096 && n > 0
    ensures AllUsable(end, n) <==> FirstPage(end) + 4096 * n <= WRAP
  {
    var first := FirstPage(end);
    if first + 4096 * n <= WRAP {
      forall k | 0 <= k < n ensures Page(end, k) == first + 4096 * k {
      }
    } else {
      var k := (WRAP - first) / 4096;
      assert first % 4096 == 0;
      assert first + 4096 * k == WRAP;
      assert Page(end, k) == 0;
    }
  }

  /** No page is handed out twice: exactly until all 2^52 page numbers are used. */
  ghost predicate AllDistinct(end: U64, n: nat) {
    forall i, j :: 0 <= i < j < n ==> Page(end, i) != Page(end, j)
  }

  lemma DistinctIff(end: U64, n: nat)
    ensures AllDistinct(end, n) <==> n <= 0x10_0000_0000_0000
  {
    if n <= 0x10_0000_0000_0000 {
      forall i, j | 0 <= i < j < n ensures Page(end, i) != Page(end, j) {
        var d := 4096 * (j - i);
        assert 0 < d < WRAP;
        if Page(end, i) == Page(end, j) {
          SameRemainder(FirstPage(end) + 4096 * i, d);
          assert false;
        }
      }
    } else {
      assert 4096 * 0x10_0000_0000_0000 == WRAP;
      assert Page(end, 0) == Page(end, 0x10_0000_0000_0000);
    }
  }

  lemma SameRemainder(a: nat, d: nat)
    requires 0 < d < WRAP
    ensures a % WRAP != (a + d) % WRAP
  {
  }

  /** Page k leaves alone the bootloader's fourth table, pd2 at 0xB000. */
  predicate ClearOfPd2(end: U64, k: nat) {
    Page(end, k) >= 0xC000 || Page(end, k) + 4096 <= 0xB000
  }

  /** pd2 survives exactly when the image reaches past its start. */
  lemma Pd2SafeIff(end: U64, n: nat)
    requires end <= WRAP - 4096 && n > 0 && FirstPage(end) + 4096 * n <= WRAP
    ensures (forall k :: 0 <= k < n ==> ClearOfPd2(end, k)) <==> end > 0xB000
  {
    if end > 0xB000 {
      forall k | 0 <= k < n ensures ClearOfPd2(end, k) {
        assert Page(end, k) == FirstPage(end) + 4096 * k;
      }
    } else {
      SmallImageBreaks(end);
    }
  }

  /** An image that ends at 0xB000 or before has its very first page on pd2. */
  lemma SmallImageBreaks(end: U64)
    requires end <= 0xB000
    ensures Page(end, 0) == 0xB000 && !ClearOfPd2(end, 0)
  {
  }

  const ORIGIN: nat := 0x1000                       // linker.ld
  const FILES: nat := 16 * (32 + 4096 + 4 + 4)      // the static array of fs.c

  /** An image linked at 0x1000 that holds the file table is not small: its pages are clear of pd2 until they wrap. */
  lemma ImageWithFilesIsSafe(end: U64, n: nat)
    requires ORIGIN + FILES <= end <= WRAP - 4096 && FirstPage(end) + 4096 * n <= WRAP
    ensures forall k :: 0 <= k < n ==> ClearOfPd2(end, k) && Page(end, k) >= ORIGIN + FILES
  {
    if n > 0 {
      Pd2SafeIff(end, n);
      UsableIff(end, n);
    }
  }
}
