/** Bytes, fixed-width big-endian numbers and the small datatypes every other module uses. */
module Prelude {

  type byte = bv8
  type bytes = seq<byte>

  datatype Option<+T> = None | Some(value: T)

  datatype Result<+T, +E> = Ok(value: T) | Err(error: E)

  function Listed<T>(o: Option<T>): seq<T> {
    if o.Some? then [o.value] else []
  }

  /** `s` is what is left of `t` when some elements are taken out. */
  predicate Subsequence<T(==)>(s: seq<T>, t: seq<T>)
    decreases |t|
  {
    s == [] ||
    (t != [] &&
     var m, n := |s| - 1, |t| - 1;
     (s[m] == t[n] && Subsequence(s[..m], t[..n])) || Subsequence(s, t[..n]))
  }

  lemma SubsequenceAppends<T>(s: seq<T>, t: seq<T>, x: T)
    requires Subsequence(s, t)
    ensures Subsequence(s, t + [x]) && Subsequence(s + [x], t + [x])
  {
    assert (t + [x])[..|t|] == t && (s + [x])[..|s|] == s;
  }

  const U16_LIMIT: nat := 0x1_0000
  const U64_LIMIT: nat := 0x1_0000_0000_0000_0000
  const USIZE_MAX: nat := 0xFFFF_FFFF_FFFF_FFFF

  /** The truncating cast `n as u8`. */
  function ToByte(n: nat): byte {
    (n % 256) as bv8
  }

  function ToInt(b: byte): (n: nat)
    ensures n < 256
  {
    b as int
  }

  lemma ByteRoundTrip(n: nat)
    requires n < 256
    ensures ToInt(ToByte(n)) == n
  {
  }

  lemma ToIntIsInjective(a: byte, b: byte)
    requires ToInt(a) == ToInt(b)
    ensures a == b
  {
  }

  lemma ByteInverse(b: byte)
    ensures ToByte(ToInt(b)) == b
  {
    hide ToByte, ToInt;
    ByteRoundTrip(ToInt(b));
    ToIntIsInjective(ToByte(ToInt(b)), b);
  }

  function Pow256(k: nat): (p: nat)
    ensures p > 0
  {
    if k == 0 then 1 else 256 * Pow256(k - 1)
  }

  /** `n.to_be_bytes()` cut to its `k` low bytes. */
  function ToBigEndian(n: nat, k: nat): (s: bytes)
    ensures |s| == k
  {
    if k == 0 then [] else ToBigEndian(n / 256, k - 1) + [ToByte(n % 256)]
  }

  /** `from_be_bytes`; leading zero padding does not change the value. */
  function FromBigEndian(s: bytes): nat {
    if s == [] then 0 else 256 * FromBigEndian(s[..|s| - 1]) + ToInt(s[|s| - 1])
  }

  lemma {:induction false} BigEndianRoundTrip(n: nat, k: nat)
    requires n < Pow256(k)
    ensures FromBigEndian(ToBigEndian(n, k)) == n
  {
    if k == 0 {
    } else {
      var s := ToBigEndian(n, k);
      assert s[..k - 1] == ToBigEndian(n / 256, k - 1);
      BigEndianRoundTrip(n / 256, k - 1);
      ByteRoundTrip(n % 256);
    }
  }

  lemma {:induction false} BigEndianInverse(s: bytes)
    ensures ToBigEndian(FromBigEndian(s), |s|) == s
  {
    hide ToByte, ToInt, ToBigEndian;
    if s == [] {
      BigEndianStep(0, 0);
    } else {
      var front, last := s[..|s| - 1], s[|s| - 1];
      var n := FromBigEndian(s);
      Digits(FromBigEndian(front), ToInt(last));
      BigEndianStep(n, |s|);
      BigEndianInverse(front);
      ByteInverse(last);
      assert s == front + [last];
    }
  }

  lemma BigEndianStep(n: nat, k: nat)
    ensures ToBigEndian(n, k) == if k == 0 then [] else ToBigEndian(n / 256, k - 1) + [ToByte(n % 256)]
  {
  }

  lemma Digits(n: nat, d: nat)
    requires d < 256
    ensures (256 * n + d) / 256 == n && (256 * n + d) % 256 == d
  {
  }

  lemma {:induction false} BigEndianBound(s: bytes)
    ensures FromBigEndian(s) < Pow256(|s|)
  {
    if s == [] {
    } else {
      BigEndianBound(s[..|s| - 1]);
    }
  }

  lemma Pow256Values()
    ensures Pow256(2) == U16_LIMIT && Pow256(8) == U64_LIMIT
  {
    assert Pow256(4) == 256 * (256 * Pow256(2));
    assert Pow256(6) == 256 * (256 * Pow256(4));
    assert Pow256(8) == 256 * (256 * Pow256(6));
  }

  function Concat(parts: seq<bytes>): bytes {
    if parts == [] then [] else parts[0] + Concat(parts[1..])
  }
}
