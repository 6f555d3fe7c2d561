/**
 Big-endian fixed-width integers: `u64::to_be_bytes`, `u64::from_be_bytes`
 and the block-number encoding of the store's keys.
 */
module BigEndian {
  import opened Bytes

  function Pow256(n: nat): (p: nat)
    ensures p > 0
  {
    if n == 0 then 1 else 256 * Pow256(n - 1)
  }

  /** The `width` big-endian bytes of `n`. */
  function ToBe(n: nat, width: nat): (r: Bytes)
    requires n < Pow256(width)
    ensures |r| == width
    decreases width
  {
    if width == 0 then [] else ToBe(n / 256, width - 1) + [n % 256]
  }

  /** The number whose big-endian bytes are `s`. */
  function FromBe(s: Bytes): (n: nat)
    ensures n < Pow256(|s|)
  {
    if |s| == 0 then 0 else FromBe(s[..|s| - 1]) * 256 + s[|s| - 1]
  }

  lemma {:induction false} FromBeToBe(n: nat, width: nat)
    requires n < Pow256(width)
    ensures FromBe(ToBe(n, width)) == n
    decreases width
  {
    if width > 0 {
      var r := ToBe(n, width);
      assert r[..width - 1] == ToBe(n / 256, width - 1);
      FromBeToBe(n / 256, width - 1);
    }
  }

  lemma {:induction false} ToBeFromBe(s: Bytes)
    ensures ToBe(FromBe(s), |s|) == s
  {
    if |s| > 0 {
      var init := s[..|s| - 1];
      ToBeFromBe(init);
      assert FromBe(s) / 256 == FromBe(init);
      assert FromBe(s) % 256 == s[|s| - 1];
      assert s == init + [s[|s| - 1]];
    }
  }

  /** On strings of one length, byte order and numeric order agree. */
  lemma {:induction false} BeOrder(s: Bytes, t: Bytes)
    requires |s| == |t|
    ensures LexLe(s, t) <==> FromBe(s) <= FromBe(t)
    decreases |s|
  {
    if |s| > 0 {
      var s', t' := s[..|s| - 1], t[..|t| - 1];
      var x, y := s[|s| - 1], t[|t| - 1];
      assert s == s' + [x] && t == t' + [y];
      LexLeAppend(s', t', [x], [y]);
      assert LexLe([x], [y]) <==> x <= y;
      BeOrder(s', t');
      BeOrder(t', s');
      if FromBe(s') == FromBe(t') {
        ToBeFromBe(s');
        ToBeFromBe(t');
      }
      if s' == t' {
        assert FromBe(s') == FromBe(t');
      }
    }
  }

  lemma Pow256Of8()
    ensures Pow256(8) == 0x1_0000_0000_0000_0000
  {
  }

  /** `n.to_be_bytes()` for a `u64`. */
  function EncodeU64(n: U64): (r: Bytes)
    ensures |r| == 8 && FromBe(r) == n
  {
    Pow256Of8();
    FromBeToBe(n, 8);
    ToBe(n, 8)
  }

  /** `u64::from_be_bytes` of eight bytes: the number they are the encoding of. */
  function DecodeU64(s: Bytes): (n: U64)
    requires |s| == 8
    ensures EncodeU64(n) == s
  {
    Pow256Of8();
    ToBeFromBe(s);
    FromBe(s)
  }

  lemma DecodeEncodeU64(n: U64)
    ensures DecodeU64(EncodeU64(n)) == n
  {
    Pow256Of8();
    FromBeToBe(n, 8);
  }

  lemma EncodeDecodeU64(s: Bytes)
    requires |s| == 8
    ensures EncodeU64(DecodeU64(s)) == s
  {
    ToBeFromBe(s);
  }

  /** The encoded numbers sort in numeric order; this makes block number the leading sort key. */
  lemma EncodeU64Order(m: U64, n: U64)
    ensures LexLe(EncodeU64(m), EncodeU64(n)) <==> m <= n
  {
    DecodeEncodeU64(m);
    DecodeEncodeU64(n);
    BeOrder(EncodeU64(m), EncodeU64(n));
  }
}
