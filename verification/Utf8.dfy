/**
  * Well-formed UTF-8 (section 4 of RFC 3629) and the contract of the validator the source calls,
  * `simdutf8::compat::from_utf8`, which is the contract of `std::str::from_utf8`.
  */
module Utf8 {
  import opened Prelude

  predicate Tail(b: byte) {
    0x80 <= b <= 0xBF
  }

  /** Which second octets may follow the lead octet `a`: the rules UTF8-2, UTF8-3 and UTF8-4. */
  predicate Second(a: byte, b: byte) {
    if a == 0xE0 then 0xA0 <= b <= 0xBF
    else if a == 0xED then 0x80 <= b <= 0x9F
    else if a == 0xF0 then 0x90 <= b <= 0xBF
    else if a == 0xF4 then 0x80 <= b <= 0x8F
    else 0x80 <= b <= 0xBF
  }

  /** Octets in the character a lead octet announces; 0 when no character starts with it. */
  function Width(a: byte): (n: nat)
    ensures n <= 4
  {
    if a <= 0x7F then 1
    else if a < 0xC2 then 0
    else if a <= 0xDF then 2
    else if a <= 0xEF then 3
    else if a <= 0xF4 then 4
    else 0
  }

  /** Every octet of `s` is one the character announced by `s[0]` may have at that place. */
  predicate Fits(s: bytes)
    requires s != []
  {
    && |s| <= Width(s[0])
    && (|s| > 1 ==> Second(s[0], s[1]))
    && (|s| > 2 ==> Tail(s[2]))
    && (|s| > 3 ==> Tail(s[3]))
  }

  /** The rule UTF8-char. */
  predicate IsChar(s: bytes) {
    s != [] && |s| == Width(s[0]) && Fits(s)
  }

  /** A non-empty proper prefix of a character. */
  predicate IsPartial(s: bytes) {
    s != [] && |s| < Width(s[0]) && Fits(s)
  }

  /** Completes a lead octet's second place with an octet it accepts. */
  function SomeSecond(a: byte): (b: byte)
    ensures Second(a, b)
  {
    if a == 0xE0 then 0xA0 else if a == 0xF0 then 0x90 else 0x80
  }

  function Completion(s: bytes): bytes
    requires IsPartial(s)
  {
    var w := Width(s[0]);
    if |s| == 1 then [SomeSecond(s[0])] + seq(w - 2, _ => 0x80) else seq(w - |s|, _ => 0x80)
  }

  /** The decision procedure `IsPartial` means what its name says. */
  lemma PartialIsProperPrefix(s: bytes)
    ensures IsPartial(s) <==> s != [] && exists t: bytes :: t != [] && IsChar(s + t)
  {
    if IsPartial(s) {
      var t := Completion(s);
      assert t != [] && IsChar(s + t);
    }
  }

  /** The rules UTF8-1 to UTF8-4 written out. */
  predicate MatchesRules(s: bytes) {
    || (|s| == 1 && s[0] <= 0x7F)
    || (|s| == 2 && 0xC2 <= s[0] <= 0xDF && Tail(s[1]))
    || (|s| == 3 && s[0] == 0xE0 && 0xA0 <= s[1] <= 0xBF && Tail(s[2]))
    || (|s| == 3 && 0xE1 <= s[0] <= 0xEC && Tail(s[1]) && Tail(s[2]))
    || (|s| == 3 && s[0] == 0xED && 0x80 <= s[1] <= 0x9F && Tail(s[2]))
    || (|s| == 3 && 0xEE <= s[0] <= 0xEF && Tail(s[1]) && Tail(s[2]))
    || (|s| == 4 && s[0] == 0xF0 && 0x90 <= s[1] <= 0xBF && Tail(s[2]) && Tail(s[3]))
    || (|s| == 4 && 0xF1 <= s[0] <= 0xF3 && Tail(s[1]) && Tail(s[2]) && Tail(s[3]))
    || (|s| == 4 && s[0] == 0xF4 && 0x80 <= s[1] <= 0x8F && Tail(s[2]) && Tail(s[3]))
  }

  lemma CharMatchesRules(s: bytes)
    ensures IsChar(s) <==> MatchesRules(s)
  {
  }

  predicate StartsWithChar(s: bytes) {
    s != [] && 0 < Width(s[0]) <= |s| && IsChar(s[..Width(s[0])])
  }

  /** The rule UTF8-octets: any number of characters. */
  predicate WellFormed(s: bytes) {
    s == [] || (StartsWithChar(s) && WellFormed(s[Width(s[0])..]))
  }

  /** `Utf8Error::valid_up_to`, or the whole length. */
  function ValidUpTo(s: bytes): (n: nat)
    ensures n <= |s|
  {
    if StartsWithChar(s) then Width(s[0]) + ValidUpTo(s[Width(s[0])..]) else 0
  }

  /** Length of the longest prefix of `s`, cut at `k`, that is a partial character. */
  function LongestPartial(s: bytes, k: nat): (n: nat)
    requires k <= |s|
    ensures n <= k
  {
    if k == 0 then 0 else if IsPartial(s[..k]) then k else LongestPartial(s, k - 1)
  }

  /** `Utf8Error::error_len` for the input left at `valid_up_to`. */
  function ErrorLen(rest: bytes): Option<nat>
    requires rest != []
  {
    if IsPartial(rest) then None
    else
      var n := LongestPartial(rest, if |rest| < 3 then |rest| else 3);
      Some(if n == 0 then 1 else n)
  }

  datatype Verdict = Valid | Error(validUpTo: nat, errorLen: Option<nat>)

  function FromUtf8(s: bytes): Verdict {
    var n := ValidUpTo(s);
    if n == |s| then Valid else Error(n, ErrorLen(s[n..]))
  }

  // ---- the contract of FromUtf8 ----

  lemma {:induction false} ValidPrefixIsWellFormed(s: bytes)
    ensures WellFormed(s[..ValidUpTo(s)])
  {
    if StartsWithChar(s) {
      var w := Width(s[0]);
      ValidPrefixIsWellFormed(s[w..]);
      var p := s[..ValidUpTo(s)];
      assert p[..w] == s[..w] && p[w..] == s[w..][..ValidUpTo(s[w..])];
    }
  }

  /** No well-formed prefix is longer than `ValidUpTo`. */
  lemma {:induction false} WellFormedPrefixBound(s: bytes, n: nat)
    requires n <= |s| && WellFormed(s[..n])
    ensures n <= ValidUpTo(s)
  {
    if n == 0 {
    } else {
      var p := s[..n];
      var w := Width(p[0]);
      assert p[..w] == s[..w] && p[w..] == s[w..][..n - w];
      WellFormedPrefixBound(s[w..], n - w);
    }
  }

  lemma ValidIffWellFormed(s: bytes)
    ensures ValidUpTo(s) == |s| <==> WellFormed(s)
  {
    assert s[..|s|] == s;
    ValidPrefixIsWellFormed(s);
    if WellFormed(s) {
      WellFormedPrefixBound(s, |s|);
    }
  }

  lemma {:induction false} WellFormedConcat(a: bytes, b: bytes)
    requires WellFormed(a)
    ensures ValidUpTo(a + b) == |a| + ValidUpTo(b)
    ensures WellFormed(a + b) <==> WellFormed(b)
  {
    hide Width, IsChar;
    if a == [] {
      assert a + b == b;
    } else {
      var w := Width(a[0]);
      assert (a + b)[..w] == a[..w] && (a + b)[w..] == a[w..] + b;
      WellFormedConcat(a[w..], b);
    }
  }

  lemma {:induction false} LongestPartialContract(s: bytes, k: nat)
    requires k <= |s|
    ensures var n := LongestPartial(s, k);
            && (n == 0 || IsPartial(s[..n]))
            && forall m | n < m <= k :: !IsPartial(s[..m])
  {
    if k != 0 && !IsPartial(s[..k]) {
      LongestPartialContract(s, k - 1);
    }
  }

  /** `error_len` is `None` for an unfinished character and otherwise measures the maximal ill-formed subpart. */
  lemma ErrorLenContract(rest: bytes)
    requires rest != []
    ensures ErrorLen(rest).None? <==> IsPartial(rest)
    ensures ErrorLen(rest).Some? ==>
              var n := ErrorLen(rest).value;
              && 1 <= n <= 3 && n <= |rest|
              && (n == 1 || IsPartial(rest[..n]))
              && forall m | n < m <= |rest| :: !IsPartial(rest[..m])
  {
    LongestPartialContract(rest, if |rest| < 3 then |rest| else 3);
  }

  lemma {:induction false} LongestPartialIsLocal(s: bytes, t: bytes, k: nat)
    requires k <= |s| && k <= |t| && s[..k] == t[..k]
    ensures LongestPartial(s, k) == LongestPartial(t, k)
  {
    if k != 0 {
      assert s[..k - 1] == s[..k][..k - 1] && t[..k - 1] == t[..k][..k - 1];
      LongestPartialIsLocal(s, t, k - 1);
    }
  }

  /** A prefix of well-formed text stops, if at all, inside its last character. */
  lemma PrefixOfWellFormed(x: bytes, y: bytes)
    requires WellFormed(x + y)
    ensures var rest := x[ValidUpTo(x)..]; rest == [] || IsPartial(rest)
    ensures WellFormed(x[ValidUpTo(x)..] + y)
  {
    hide IsChar, IsPartial;
    var n := ValidUpTo(x);
    var rest := x[n..];
    ValidPrefixIsWellFormed(x);
    assert x + y == x[..n] + (rest + y) && x == x[..n] + rest;
    WellFormedConcat(x[..n], rest + y);
    WellFormedConcat(x[..n], rest);
    if rest != [] {
      CutCharacter(rest, y);
    }
  }

  lemma CutCharacter(rest: bytes, y: bytes)
    requires rest != []
    ensures StartsWithChar(rest + y) ==> StartsWithChar(rest) || IsPartial(rest)
  {
    var w := Width(rest[0]);
    if w <= |rest| {
      assert (rest + y)[..w] == rest[..w];
    } else if w <= |rest + y| {
      assert (rest + y)[..w][..|rest|] == rest;
    }
  }

  /** An unfinished character can be finished. */
  lemma PartialCanBeFinished(s: bytes)
    requires IsPartial(s)
    ensures WellFormed(s + Completion(s))
  {
    var w := s + Completion(s);
    assert w[..|w|] == w;
  }

  lemma NothingValidUpTo(s: bytes)
    ensures ValidUpTo(s) == 0 <==> !StartsWithChar(s)
  {
  }

  lemma PartialIsNotWellFormed(s: bytes)
    requires IsPartial(s)
    ensures !WellFormed(s) && ValidUpTo(s) == 0
  {
  }

  lemma AsciiIsWellFormed(s: bytes)
    requires forall i | 0 <= i < |s| :: s[i] <= 0x7F
    ensures WellFormed(s)
  {
  }
}
