/** Payload masking: src/protocol/frame/mask.rs. */
module Mask {
  import opened Prelude

  type MaskKey = k: bytes | |k| == 4 witness [0, 0, 0, 0]

  function Xor(a: byte, b: byte): byte { a ^ b }

  /** Section 5.3 of RFC 6455: octet `i` of the result is octet `i` of the input XOR key octet `i mod 4`. */
  function Masked(s: bytes, key: MaskKey): (r: bytes)
    ensures |r| == |s|
  {
    seq(|s|, i requires 0 <= i < |s| => Xor(s[i], key[i % 4]))
  }

  function Rotated(key: MaskKey, n: nat): MaskKey {
    [key[n % 4], key[(n + 1) % 4], key[(n + 2) % 4], key[(n + 3) % 4]]
  }

  lemma XorTwice(a: byte, b: byte)
    ensures Xor(Xor(a, b), b) == a
  {
  }

  lemma MaskedTwice(s: bytes, key: MaskKey)
    ensures Masked(Masked(s, key), key) == s
  {
    hide Xor;
    forall i | 0 <= i < |s|
      ensures Masked(Masked(s, key), key)[i] == s[i]
    {
      XorTwice(s[i], key[i % 4]);
    }
  }

  /** Masking a buffer in two pieces needs the key rotated by the length of the first one. */
  lemma MaskedSplit(a: bytes, b: bytes, key: MaskKey)
    ensures Masked(a + b, key) == Masked(a, key) + Masked(b, Rotated(key, |a|))
  {
    hide Xor, Rotated;
    var turned := Rotated(key, |a|);
    forall i | |a| <= i < |a + b|
      ensures Masked(a + b, key)[i] == Masked(b, turned)[i - |a|]
    {
      RotatedAt(key, |a|, i - |a|);
    }
    assert Masked(a + b, key)[..|a|] == Masked(a, key);
    assert Masked(a + b, key)[|a|..] == Masked(b, turned);
  }

  lemma RotatedAt(key: MaskKey, n: nat, i: nat)
    ensures Rotated(key, n)[i % 4] == key[(n + i) % 4]
  {
  }

  // ---- 32-bit words in either byte order ----

  /** The word whose octets are `a b c d` from the most significant one down. */
  function BigWord(a: byte, b: byte, c: byte, d: byte): bv32 {
    ((a as bv32) << 24) | ((b as bv32) << 16) | ((c as bv32) << 8) | (d as bv32)
  }

  /** `u32::from_ne_bytes` of four octets in memory order. */
  function WordOf(bigEndian: bool, k: MaskKey): bv32 {
    if bigEndian then BigWord(k[0], k[1], k[2], k[3]) else BigWord(k[3], k[2], k[1], k[0])
  }

  /** `to_ne_bytes`. */
  function BytesOf(bigEndian: bool, w: bv32): MaskKey {
    if bigEndian then [Octet3(w), Octet2(w), Octet1(w), Octet0(w)] else [Octet0(w), Octet1(w), Octet2(w), Octet3(w)]
  }

  function Octet0(w: bv32): byte { (w & 0xFF) as bv8 }

  function Octet1(w: bv32): byte { ((w >> 8) & 0xFF) as bv8 }

  function Octet2(w: bv32): byte { ((w >> 16) & 0xFF) as bv8 }

  function Octet3(w: bv32): byte { ((w >> 24) & 0xFF) as bv8 }

  function Left8(w: bv32): bv32 { w.RotateLeft(8) }

  function Left16(w: bv32): bv32 { w.RotateLeft(16) }

  function Left24(w: bv32): bv32 { w.RotateLeft(24) }

  function Right8(w: bv32): bv32 { w.RotateRight(8) }

  function Right16(w: bv32): bv32 { w.RotateRight(16) }

  function Right24(w: bv32): bv32 { w.RotateRight(24) }

  /** Rotation by `8 * head` bits, left on a big-endian machine and right on a little-endian one. */
  function RotateWord(bigEndian: bool, w: bv32, head: nat): bv32
    requires head < 4
  {
    if head == 0 then w
    else if bigEndian then
      if head == 1 then Left8(w) else if head == 2 then Left16(w) else Left24(w)
    else
      if head == 1 then Right8(w) else if head == 2 then Right16(w) else Right24(w)
  }

  lemma OctetsOfBigWord(a: byte, b: byte, c: byte, d: byte)
    ensures Octet3(BigWord(a, b, c, d)) == a && Octet2(BigWord(a, b, c, d)) == b
    ensures Octet1(BigWord(a, b, c, d)) == c && Octet0(BigWord(a, b, c, d)) == d
  {
  }

  lemma XorBigWords(a: byte, b: byte, c: byte, d: byte, e: byte, f: byte, g: byte, h: byte)
    ensures XorWords(BigWord(a, b, c, d), BigWord(e, f, g, h)) == BigWord(Xor(a, e), Xor(b, f), Xor(c, g), Xor(d, h))
  {
  }

  lemma RotateBigWordOnce(a: byte, b: byte, c: byte, d: byte)
    ensures Left8(BigWord(a, b, c, d)) == BigWord(b, c, d, a)
  {
  }

  lemma RotationSteps(w: bv32)
    ensures Left16(w) == Left8(Left8(w)) && Left24(w) == Left8(Left16(w))
    ensures Right8(w) == Left24(w) && Right16(w) == Left16(w) && Right24(w) == Left8(w)
  {
  }

  lemma RotateBigWord(a: byte, b: byte, c: byte, d: byte)
    ensures var w := BigWord(a, b, c, d);
            && Left8(w) == Right24(w) == BigWord(b, c, d, a)
            && Left16(w) == Right16(w) == BigWord(c, d, a, b)
            && Left24(w) == Right8(w) == BigWord(d, a, b, c)
  {
    hide BigWord, Left8, Left16, Left24, Right8, Right16, Right24;
    RotationSteps(BigWord(a, b, c, d));
    RotateBigWordOnce(a, b, c, d);
    RotateBigWordOnce(b, c, d, a);
    RotateBigWordOnce(c, d, a, b);
  }

  lemma BytesOfWord(bigEndian: bool, k: MaskKey)
    ensures BytesOf(bigEndian, WordOf(bigEndian, k)) == k
  {
    OctetsOfBigWord(k[0], k[1], k[2], k[3]);
    OctetsOfBigWord(k[3], k[2], k[1], k[0]);
  }

  function XorWords(v: bv32, w: bv32): bv32 { v ^ w }

  /** XOR of two words is XOR octet by octet, in memory order. */
  lemma XorOfWords(bigEndian: bool, s: MaskKey, k: MaskKey)
    ensures BytesOf(bigEndian, XorWords(WordOf(bigEndian, s), WordOf(bigEndian, k))) == Masked(s, k)
  {
    hide Xor, BigWord, BytesOf, XorWords;
    var x: MaskKey := Masked(s, k);
    if bigEndian {
      XorBigWords(s[0], s[1], s[2], s[3], k[0], k[1], k[2], k[3]);
    } else {
      XorBigWords(s[3], s[2], s[1], s[0], k[3], k[2], k[1], k[0]);
    }
    BytesOfWord(bigEndian, x);
  }

  /** Rotating the word moves the key on by `head` octets, whatever the byte order. */
  lemma RotateIsRotated(bigEndian: bool, k: MaskKey, head: nat)
    requires head < 4
    ensures RotateWord(bigEndian, WordOf(bigEndian, k), head) == WordOf(bigEndian, Rotated(k, head))
  {
    hide BigWord, Left8, Left16, Left24, Right8, Right16, Right24;
    if bigEndian {
      RotateBigWord(k[0], k[1], k[2], k[3]);
    } else {
      RotateBigWord(k[3], k[2], k[1], k[0]);
    }
    var r := Rotated(k, head);
    if head == 0 {
      assert r == [k[0], k[1], k[2], k[3]];
    } else if head == 1 {
      assert r == [k[1], k[2], k[3], k[0]];
    } else if head == 2 {
      assert r == [k[2], k[3], k[0], k[1]];
    } else {
      assert r == [k[3], k[0], k[1], k[2]];
    }
  }

  // ---- the in-place loops, on the slice [lo..hi) of a buffer ----

  method ApplyMaskFallback(buf: array<byte>, lo: nat, hi: nat, key: MaskKey)
    requires lo <= hi <= buf.Length
    modifies buf
    ensures buf[lo..hi] == Masked(old(buf[lo..hi]), key)
    ensures forall j :: 0 <= j < lo || hi <= j < buf.Length ==> buf[j] == old(buf[j])
  {
    hide Xor;
    var i := lo;
    while i < hi
      invariant lo <= i <= hi
      invariant forall j :: lo <= j < i ==> buf[j] == Xor(old(buf[j]), key[(j - lo) % 4])
      invariant forall j :: 0 <= j < lo || i <= j < buf.Length ==> buf[j] == old(buf[j])
    {
      buf[i] := Xor(buf[i], key[(i - lo) % 4]);
      i := i + 1;
    }
  }

  /**
    * The word-at-a-time form. `prefix` and `words` are the split `align_to_mut` chose, which depends on
    * where the buffer lies in memory; the result does not depend on them.
    */
  method ApplyMaskFast32(buf: array<byte>, lo: nat, hi: nat, key: MaskKey, prefix: nat, words: nat, bigEndian: bool)
    requires lo <= hi <= buf.Length && prefix + 4 * words <= hi - lo
    modifies buf
    ensures buf[lo..hi] == Masked(old(buf[lo..hi]), key)
    ensures forall j :: 0 <= j < lo || hi <= j < buf.Length ==> buf[j] == old(buf[j])
  {
    hide Masked, Rotated, WordOf, BytesOf, Left8, Left16, Left24, Right8, Right16, Right24;
    var w := WordOf(bigEndian, key);
    var mid, tail := lo + prefix, lo + prefix + 4 * words;
    ghost var was := buf[..];
    ApplyMaskFallback(buf, lo, mid, key);
    assert buf[mid..tail] == was[mid..tail] && buf[tail..hi] == was[tail..hi];
    ghost var first := buf[lo..mid];
    var head := prefix % 4;
    if head > 0 {
      w := RotateWord(bigEndian, w, head);
    }
    ghost var turned := Rotated(key, head);
    RotateIsRotated(bigEndian, key, head);
    MaskWords(buf, mid, words, w, bigEndian, turned);
    assert buf[lo..mid] == first && buf[tail..hi] == was[tail..hi];
    ghost var second := buf[mid..tail];
    var last := BytesOf(bigEndian, w);
    BytesOfWord(bigEndian, turned);
    ApplyMaskFallback(buf, tail, hi, last);
    assert buf[lo..mid] == first && buf[mid..tail] == second;
    MaskedInThree(was[lo..mid], was[mid..tail], was[tail..hi], key);
    SliceInThree(was, lo, mid, tail, hi);
    SliceInThree(buf[..], lo, mid, tail, hi);
  }

  lemma SliceInThree(s: bytes, lo: nat, mid: nat, tail: nat, hi: nat)
    requires lo <= mid <= tail <= hi <= |s|
    ensures s[lo..hi] == s[lo..mid] + s[mid..tail] + s[tail..hi]
  {
  }

  method MaskWords(buf: array<byte>, lo: nat, words: nat, w: bv32, bigEndian: bool, ghost key: MaskKey)
    requires lo + 4 * words <= buf.Length && w == WordOf(bigEndian, key)
    modifies buf
    ensures buf[lo..lo + 4 * words] == Masked(old(buf[lo..lo + 4 * words]), key)
    ensures forall j :: 0 <= j < lo || lo + 4 * words <= j < buf.Length ==> buf[j] == old(buf[j])
  {
    hide Masked, WordOf;
    var i := 0;
    while i < words
      invariant 0 <= i <= words
      invariant buf[lo..lo + 4 * i] == Masked(old(buf[lo..lo + 4 * i]), key)
      invariant forall j :: 0 <= j < lo || lo + 4 * i <= j < buf.Length ==> buf[j] == old(buf[j])
    {
      var at := lo + 4 * i;
      ghost var done, next := old(buf[lo..at]), old(buf[at..at + 4]);
      assert buf[at..at + 4] == next;
      ghost var before := buf[lo..at];
      MaskOneWord(buf, at, w, bigEndian, key);
      assert buf[lo..at] == before;
      MaskedWords(done, next, key, i);
      assert old(buf[lo..at + 4]) == done + next;
      assert buf[lo..at + 4] == buf[lo..at] + buf[at..at + 4];
      assert old(buf[lo..at + 4]) == old(buf[lo..lo + 4 * (i + 1)]);
      i := i + 1;
    }
  }

  lemma MaskedWords(done: bytes, next: bytes, key: MaskKey, i: nat)
    requires |done| == 4 * i
    ensures Masked(done + next, key) == Masked(done, key) + Masked(next, key)
  {
    hide Masked, Rotated;
    MaskedSplit(done, next, key);
    RotatedByWords(key, i);
  }

  lemma RotatedByWords(key: MaskKey, i: nat)
    ensures Rotated(key, 4 * i) == key
  {
  }

  method MaskOneWord(buf: array<byte>, at: nat, w: bv32, bigEndian: bool, ghost key: MaskKey)
    requires at + 4 <= buf.Length && w == WordOf(bigEndian, key)
    modifies buf
    ensures buf[at..at + 4] == Masked(old(buf[at..at + 4]), key)
    ensures forall j :: 0 <= j < at || at + 4 <= j < buf.Length ==> buf[j] == old(buf[j])
  {
    hide Masked, WordOf, BytesOf, XorWords;
    var s: MaskKey := [buf[at], buf[at + 1], buf[at + 2], buf[at + 3]];
    var x := BytesOf(bigEndian, XorWords(WordOf(bigEndian, s), w));
    XorOfWords(bigEndian, s, key);
    FourOctets(buf[..], at, s);
    buf[at], buf[at + 1], buf[at + 2], buf[at + 3] := x[0], x[1], x[2], x[3];
    FourOctets(buf[..], at, x);
    assert buf[..][at..at + 4] == buf[at..at + 4];
  }

  lemma FourOctets(s: bytes, at: nat, k: MaskKey)
    requires at + 4 <= |s| && s[at] == k[0] && s[at + 1] == k[1] && s[at + 2] == k[2] && s[at + 3] == k[3]
    ensures s[at..at + 4] == k
  {
    assert s[at..at + 4] == [s[at], s[at + 1], s[at + 2], s[at + 3]];
  }

  lemma MaskedInThree(a: bytes, b: bytes, c: bytes, key: MaskKey)
    requires |b| % 4 == 0
    ensures var turned := Rotated(key, |a| % 4);
            Masked(a + b + c, key) == Masked(a, key) + Masked(b, turned) + Masked(c, turned)
  {
    hide Masked, Rotated;
    MaskedSplit(a + b, c, key);
    MaskedSplit(a, b, key);
    SameRest(|b|, 0, |a|);
    RotatedHasPeriod(key, |a + b|, |a| % 4);
    RotatedHasPeriod(key, |a|, |a| % 4);
  }

  lemma RotatedHasPeriod(key: MaskKey, n: nat, m: nat)
    requires n % 4 == m % 4
    ensures Rotated(key, n) == Rotated(key, m)
  {
    SameRest(n, m, 1);
    SameRest(n, m, 2);
    SameRest(n, m, 3);
  }

  lemma SameRest(n: nat, m: nat, k: nat)
    requires n % 4 == m % 4
    ensures (n + k) % 4 == (m + k) % 4
  {
    var q, p, r := n / 4, m / 4, n % 4;
    assert n == 4 * q + r && m == 4 * p + r;
    RestOfSum(q, r + k);
    RestOfSum(p, r + k);
  }

  lemma RestOfSum(q: nat, x: nat)
    ensures (4 * q + x) % 4 == x % 4
  {
  }

  /** `apply_mask`: the allocator decides the split and the target decides the byte order. */
  method ApplyMask(buf: array<byte>, lo: nat, hi: nat, key: MaskKey)
    requires lo <= hi <= buf.Length
    modifies buf
    ensures buf[lo..hi] == Masked(old(buf[lo..hi]), key)
    ensures forall j :: 0 <= j < lo || hi <= j < buf.Length ==> buf[j] == old(buf[j])
  {
    var prefix: nat := *;
    var words: nat := *;
    var bigEndian: bool := *;
    if prefix + 4 * words > hi - lo {
      prefix, words := hi - lo, 0;
    }
    ApplyMaskFast32(buf, lo, hi, key, prefix, words, bigEndian);
  }
}
