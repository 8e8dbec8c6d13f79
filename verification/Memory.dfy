/** Byte-addressed memory and little-endian words. */
module Memory {
  import opened CTypes

  /** Addresses not listed hold zero. */
  type Mem = map<nat, Byte>

  function Load8(m: Mem, a: nat): Byte {
    if a in m then m[a] else 0
  }

  function Load(m: Mem, a: nat, n: nat): nat
    decreases n
  {
    if n == 0 then 0 else Load8(m, a) + 256 * Load(m, a + 1, n - 1)
  }

  function Store(m: Mem, a: nat, n: nat, v: nat): Mem
    decreases n
  {
    if n == 0 then m else Store(m[a := v % 256], a + 1, n - 1, v / 256)
  }

  function Pow256(n: nat): nat {
    if n == 0 then 1 else 256 * Pow256(n - 1)
  }

  lemma Pow256Of8()
    ensures Pow256(8) == WRAP
    ensures Pow256(4) == 0x1_0000_0000
  {
    assert Pow256(4) == 0x1_0000_0000;
  }

  /** A word that begins at `a` and one that begins at `b` share no byte. */
  predicate Apart(a: nat, n: nat, b: nat, k: nat) {
    a + n <= b || b + k <= a
  }

  lemma {:induction false} StoreFrame(m: Mem, a: nat, n: nat, v: nat, b: nat)
    requires Apart(a, n, b, 1)
    ensures Load8(Store(m, a, n, v), b) == Load8(m, b)
    decreases n
  {
    if n > 0 {
      StoreFrame(m[a := v % 256], a + 1, n - 1, v / 256, b);
    }
  }

  lemma {:induction false} LoadBounded(m: Mem, a: nat, n: nat)
    ensures Load(m, a, n) < Pow256(n)
    decreases n
  {
    if n > 0 {
      LoadBounded(m, a + 1, n - 1);
    }
  }

  /** The k-th least significant byte of a number. */
  function ByteOf(v: nat, k: nat): Byte {
    if k == 0 then v % 256 else ByteOf(v / 256, k - 1)
  }

  /** Little-endian: the byte at offset k is the k-th least significant one of the word. */
  lemma {:induction false} LittleEndian(m: Mem, a: nat, n: nat, k: nat)
    requires k < n
    ensures Load8(m, a + k) == ByteOf(Load(m, a, n), k)
    decreases n
  {
    LowByte(Load8(m, a), Load(m, a + 1, n - 1));
    if k > 0 {
      LittleEndian(m, a + 1, n - 1, k - 1);
    }
  }

  lemma LowByte(b: Byte, rest: nat)
    ensures (b + 256 * rest) % 256 == b && (b + 256 * rest) / 256 == rest
  {
  }

  /** Loads look only at their own bytes. */
  lemma {:induction false} LoadDepends(m: Mem, m2: Mem, a: nat, n: nat)
    requires forall b :: a <= b < a + n ==> Load8(m, b) == Load8(m2, b)
    ensures Load(m, a, n) == Load(m2, a, n)
    decreases n
  {
    if n > 0 {
      LoadDepends(m, m2, a + 1, n - 1);
    }
  }

  lemma {:induction false} LoadStore(m: Mem, a: nat, n: nat, v: nat)
    requires v < Pow256(n)
    ensures Load(Store(m, a, n, v), a, n) == v
    decreases n
  {
    if n > 0 {
      LoadStore(m[a := v % 256], a + 1, n - 1, v / 256);
      StoreFrame(m[a := v % 256], a + 1, n - 1, v / 256, a);
    }
  }

  lemma LoadStoreApart(m: Mem, a: nat, n: nat, v: nat, b: nat, k: nat)
    requires Apart(a, n, b, k)
    ensures Load(Store(m, a, n, v), b, k) == Load(m, b, k)
  {
    forall c | b <= c < b + k ensures Load8(Store(m, a, n, v), c) == Load8(m, c) {
      StoreFrame(m, a, n, v, c);
    }
    LoadDepends(Store(m, a, n, v), m, b, k);
  }

  ghost predicate SameBytes(m: Mem, n: Mem, lo: int, hi: int) {
    forall b: nat :: lo <= b < hi ==> Load8(m, b) == Load8(n, b)
  }

  /** Bytes from `lo` up to `hi` may differ, no others. */
  ghost predicate SameOutside(m: Mem, n: Mem, lo: int, hi: int) {
    forall b: nat :: b < lo || hi <= b ==> Load8(m, b) == Load8(n, b)
  }

  lemma StoreFrames(m: Mem, a: nat, n: nat, v: nat)
    ensures SameOutside(Store(m, a, n, v), m, a, a + n)
  {
    forall b: nat | b < a || a + n <= b ensures Load8(Store(m, a, n, v), b) == Load8(m, b) {
      StoreFrame(m, a, n, v, b);
    }
  }

  // ---------------------------------------------------------------- 64-bit words

  function Load64(m: Mem, a: nat): (v: U64)
  {
    LoadBounded(m, a, 8);
    Pow256Of8();
    Load(m, a, 8)
  }

  function Store64(m: Mem, a: nat, v: U64): Mem {
    Store(m, a, 8, v)
  }

  lemma LoadStore64(m: Mem, a: nat, v: U64)
    ensures Load64(Store64(m, a, v), a) == v
  {
    Pow256Of8();
    LoadStore(m, a, 8, v);
  }

  lemma LoadStore64Apart(m: Mem, a: nat, v: U64, b: nat)
    requires Apart(a, 8, b, 8)
    ensures Load64(Store64(m, a, v), b) == Load64(m, b)
  {
    LoadStoreApart(m, a, 8, v, b, 8);
  }

  lemma StoreOutside(m: Mem, a: nat, v: U64)
    ensures SameOutside(Store64(m, a, v), m, a, a + 8)
  {
    StoreFrames(m, a, 8, v);
  }
}
