/** string.c: NUL-terminated strings and strcmp. */
module CStrings {
  import opened CTypes

  /** The characters before the first terminator of a piece of memory. */
  function Text(mem: seq<Char>): (t: seq<Char>)
    requires NUL in mem
    ensures |t| < |mem| && t == mem[..|t|] && mem[|t|] == NUL && NUL !in t
  {
    if mem[0] == NUL then [] else [mem[0]] + Text(mem[1..])
  }

  /** Dictionary order on unsigned bytes: the first difference decides, a proper prefix comes first. */
  ghost predicate Precedes(a: seq<Char>, b: seq<Char>) {
    exists k: nat :: DecidedAt(a, b, k)
  }

  ghost predicate DecidedAt(a: seq<Char>, b: seq<Char>, k: nat) {
    && k <= |a| && k < |b|
    && a[..k] == b[..k]
    && (k == |a| || Unsigned(a[k]) < Unsigned(b[k]))
  }

  /** The order on examples of every kind: a proper prefix is earlier, and the smaller byte at the first difference. */
  lemma PrecedesIs(a: seq<Char>, c: Char, d: Char, s: seq<Char>, t: seq<Char>)
    ensures Precedes(a, a + [c] + s)
    ensures Unsigned(c) < Unsigned(d) ==> Precedes(a + [c] + s, a + [d] + t)
  {
    var p, q := a + [c] + s, a + [d] + t;
    assert p[..|a|] == a == q[..|a|];
    assert DecidedAt(a, p, |a|);
    assert Unsigned(c) < Unsigned(d) ==> DecidedAt(p, q, |a|);
  }

  /** Only text and first terminators are read: any memory that holds those two will do. */
  method StrCmp(s1: seq<Char>, s2: seq<Char>) returns (r: int)
    requires NUL in s1 && NUL in s2
    ensures r < 0 <==> Precedes(Text(s1), Text(s2))
    ensures r == 0 <==> Text(s1) == Text(s2)
    ensures r > 0 <==> Precedes(Text(s2), Text(s1))
    ensures -255 <= r <= 255
  {
    ghost var a, b := Text(s1), Text(s2);
    var i := 0;
    while s1[i] != NUL && s1[i] == s2[i]
      invariant 0 <= i <= |a| && i <= |b| && a[..i] == b[..i]
      decreases |a| - i
    {
      assert s1[i] == a[i] && s2[i] == b[i];
      i := i + 1;
    }
    r := Unsigned(s1[i]) - Unsigned(s2[i]);
    assert s1[i] == if i < |a| then a[i] else NUL;
    assert s2[i] == if i < |b| then b[i] else NUL;
    if r < 0 {
      assert DecidedAt(a, b, i);
      PrecedesIsStrict(a, b);
    } else if r > 0 {
      assert DecidedAt(b, a, i);
      PrecedesIsStrict(b, a);
    } else {
      assert a == b;
      NotBeforeItself(a);
    }
  }

  lemma NotBeforeItself(a: seq<Char>)
    ensures !Precedes(a, a)
  {
  }

  /** Antisymmetry. */
  lemma PrecedesIsStrict(a: seq<Char>, b: seq<Char>)
    requires Precedes(a, b)
    ensures !Precedes(b, a) && a != b
  {
  }

  lemma PrecedesIsTransitive(a: seq<Char>, b: seq<Char>, c: seq<Char>)
    requires Precedes(a, b) && Precedes(b, c)
    ensures Precedes(a, c)
  {
    var k: nat :| DecidedAt(a, b, k);
    var j: nat :| DecidedAt(b, c, j);
    var m := Min(k, j);
    assert a[..m] == b[..m] == c[..m] by {
      assert a[..m] == a[..k][..m] && b[..m] == b[..k][..m];
      assert b[..m] == b[..j][..m] && c[..m] == c[..j][..m];
    }
    if k < j {
      assert b[..j][k] == c[..j][k];
    } else if j < k {
      assert a[..k][j] == b[..k][j];
    }
    assert DecidedAt(a, c, m);
  }

  /** Totality: two strings that neither precede nor follow each other are equal. */
  lemma {:induction false} PrecedesIsTotal(a: seq<Char>, b: seq<Char>)
    ensures Precedes(a, b) || Precedes(b, a) || a == b
  {
    if a == [] || b == [] || a[0] != b[0] {
      if a != [] || b != [] {
        assert DecidedAt(a, b, 0) || DecidedAt(b, a, 0);
      }
    } else {
      PrecedesIsTotal(a[1..], b[1..]);
      if Precedes(a[1..], b[1..]) {
        LongerDecision(a, b);
      } else if Precedes(b[1..], a[1..]) {
        LongerDecision(b, a);
      } else {
        assert a == [a[0]] + a[1..] && b == [b[0]] + b[1..];
      }
    }
  }

  lemma LongerDecision(a: seq<Char>, b: seq<Char>)
    requires a != [] && b != [] && a[0] == b[0] && Precedes(a[1..], b[1..])
    ensures Precedes(a, b)
  {
    var k: nat :| DecidedAt(a[1..], b[1..], k);
    assert a[1..][..k] == a[1..k + 1] && b[1..][..k] == b[1..k + 1];
    assert a[..k + 1] == [a[0]] + a[1..k + 1];
    assert b[..k + 1] == [b[0]] + b[1..k + 1];
    assert DecidedAt(a, b, k + 1);
  }
}
