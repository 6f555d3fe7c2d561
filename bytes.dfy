/**
 Bytes, fixed-width integers and the byte-lexicographic order that the
 key-value store (and Rust's `[u8]` ordering) uses for keys and values.
 */
module Bytes {

  type Byte = b: int | 0 <= b < 256
  type Bytes = seq<Byte>

  /** Rust's `u64`. */
  type U64 = n: int | 0 <= n < 0x1_0000_0000_0000_0000

  /** `s.starts_with(p)` */
  predicate StartsWith(s: Bytes, p: Bytes)
  {
    |p| <= |s| && s[..|p|] == p
  }

  /** Lexicographic order on byte strings: a proper prefix sorts first. */
  predicate LexLe(a: Bytes, b: Bytes)
    decreases |a|
  {
    |a| == 0 || (|b| > 0 && (a[0] < b[0] || (a[0] == b[0] && LexLe(a[1..], b[1..]))))
  }

  predicate LexLt(a: Bytes, b: Bytes)
  {
    LexLe(a, b) && a != b
  }

  lemma {:induction false} LexLeRefl(a: Bytes)
    ensures LexLe(a, a)
  {
    if |a| > 0 {
      LexLeRefl(a[1..]);
    }
  }

  lemma {:induction false} LexLeAntisym(a: Bytes, b: Bytes)
    requires LexLe(a, b) && LexLe(b, a)
    ensures a == b
  {
    if |a| > 0 {
      LexLeAntisym(a[1..], b[1..]);
      assert a == [a[0]] + a[1..];
      assert b == [b[0]] + b[1..];
    }
  }

  lemma {:induction false} LexLeTotal(a: Bytes, b: Bytes)
    ensures LexLe(a, b) || LexLe(b, a)
  {
    if |a| > 0 && |b| > 0 && a[0] == b[0] {
      LexLeTotal(a[1..], b[1..]);
    }
  }

  lemma {:induction false} LexLeTrans(a: Bytes, b: Bytes, c: Bytes)
    requires LexLe(a, b) && LexLe(b, c)
    ensures LexLe(a, c)
  {
    if |a| > 0 && a[0] == b[0] && b[0] == c[0] {
      LexLeTrans(a[1..], b[1..], c[1..]);
    }
  }

  /** A byte string sorts no later than every string it is a prefix of. */
  lemma {:induction false} PrefixLexLe(p: Bytes, s: Bytes)
    requires StartsWith(s, p)
    ensures LexLe(p, s)
  {
    if |p| > 0 {
      assert s[1..][..|p| - 1] == s[..|p|][1..];
      PrefixLexLe(p[1..], s[1..]);
    }
  }

  /**
   Everything that sorts between a prefix `p` and a string `s` starting with
   `p` starts with `p` itself: the entries between a seek key and a matching
   entry all share the seek key as a prefix.
   */
  lemma {:induction false} PrefixSandwich(p: Bytes, w: Bytes, s: Bytes)
    requires LexLe(p, w) && LexLe(w, s) && StartsWith(s, p)
    ensures StartsWith(w, p)
  {
    if |p| > 0 {
      assert s[0] == p[0];
      assert s[1..][..|p| - 1] == s[..|p|][1..];
      PrefixSandwich(p[1..], w[1..], s[1..]);
      assert w[..|p|] == [w[0]] + w[1..][..|p| - 1];
      assert p == [p[0]] + p[1..];
    }
  }

  /** Cutting two ordered strings at the same length keeps them ordered. */
  lemma {:induction false} LexLeTruncate(a: Bytes, b: Bytes, n: nat)
    requires LexLe(a, b) && n <= |a| && n <= |b|
    ensures LexLe(a[..n], b[..n])
  {
    if n > 0 && a[0] == b[0] {
      LexLeTruncate(a[1..], b[1..], n - 1);
      assert a[..n][1..] == a[1..][..n - 1];
      assert b[..n][1..] == b[1..][..n - 1];
    }
  }

  /**
   Comparing `a + x` with `b + y` where `a` and `b` have the same length:
   the heads decide, and only equal heads defer to the tails.
   */
  lemma {:induction false} LexLeAppend(a: Bytes, b: Bytes, x: Bytes, y: Bytes)
    requires |a| == |b|
    ensures LexLe(a + x, b + y) <==> LexLt(a, b) || (a == b && LexLe(x, y))
  {
    if |a| == 0 {
      assert a + x == x && b + y == y;
    } else {
      assert (a + x)[1..] == a[1..] + x;
      assert (b + y)[1..] == b[1..] + y;
      LexLeAppend(a[1..], b[1..], x, y);
      assert a == [a[0]] + a[1..];
      assert b == [b[0]] + b[1..];
    }
  }

  /** Strict version of LexLeAppend for differing heads of one length. */
  lemma LexLtAppend(a: Bytes, b: Bytes, x: Bytes, y: Bytes)
    requires |a| == |b| && LexLt(a, b)
    ensures LexLt(a + x, b + y)
  {
    LexLeAppend(a, b, x, y);
    assert (a + x)[..|a|] == a && (b + y)[..|b|] == b;
  }

  /** A strict difference within the first `n` bytes decides the whole order. */
  lemma LexLtFromPrefix(a: Bytes, b: Bytes, n: nat)
    requires n <= |a| && n <= |b| && LexLt(a[..n], b[..n])
    ensures LexLt(a, b)
  {
    assert a == a[..n] + a[n..] && b == b[..n] + b[n..];
    LexLtAppend(a[..n], b[..n], a[n..], b[n..]);
  }
}
