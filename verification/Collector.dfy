/**
  * The incremental text collector: `Incomplete` (src/protocol/frame/utf8/decode.rs) and
  * `StringCollector` (src/protocol/message.rs).
  */
module Collector {
  import opened Prelude
  import opened Utf8

  // ---- what the collector means: one-shot validation of the carried octets plus the new ones ----

  /** Text validated so far, and the octets of a character cut off at the end of the last fragment. */
  datatype Collected = Collected(data: bytes, carry: bytes) {
    predicate Valid() {
      WellFormed(data) && (carry == [] || IsPartial(carry))
    }

    function Len(): nat { |data| + |carry| }
  }

  const EMPTY := Collected([], [])

  datatype Fed = Fed(after: Collected, ok: bool)

  function Feed(c: Collected, input: bytes): Fed {
    var all := c.carry + input;
    Judged(c.data, all, FromUtf8(all))
  }

  /** What the verdict on the octets `all` makes of them and of the text before them. */
  function Judged(data: bytes, all: bytes, v: Verdict): Fed
    requires v.Error? ==> v.validUpTo <= |all|
  {
    match v
    case Valid => Fed(Collected(data + all, []), true)
    case Error(n, None) => Fed(Collected(data + all[..n], all[n..]), true)
    case Error(n, Some(_)) => Fed(Collected(data + all[..n], []), false)
  }

  /** Feeds fragments up to and including the first one that is rejected. */
  function FeedAll(c: Collected, fragments: seq<bytes>): Fed
    decreases |fragments|
  {
    if fragments == [] then Fed(c, true)
    else
      var f := Feed(c, fragments[0]);
      if f.ok then FeedAll(f.after, fragments[1..]) else f
  }

  /** `into_string`. */
  function Finish(c: Collected): Option<bytes> {
    if c.carry == [] then Some(c.data) else None
  }

  /** Even a rejected fragment leaves well-formed text and at most an unfinished character behind. */
  lemma FeedKeepsValid(c: Collected, input: bytes)
    requires c.Valid()
    ensures Feed(c, input).after.Valid()
    ensures Feed(c, input).ok ==>
              var d := Feed(c, input).after; d.data + d.carry == c.data + c.carry + input
  {
    hide WellFormed, IsPartial, ErrorLen, ValidUpTo;
    var all := c.carry + input;
    var n := ValidUpTo(all);
    ValidPrefixIsWellFormed(all);
    WellFormedConcat(c.data, all[..n]);
    if Feed(c, input).ok {
      FeedConserves(c, input);
    }
    if n < |all| {
      ErrorLenContract(all[n..]);
    } else {
      assert all[..n] == all;
    }
  }

  lemma FeedConserves(c: Collected, input: bytes)
    requires Feed(c, input).ok
    ensures var d := Feed(c, input).after; d.data + d.carry == c.data + c.carry + input
  {
    hide ErrorLen, ValidUpTo;
    var all := c.carry + input;
    var n := ValidUpTo(all);
    assert c.data + c.carry + input == c.data + all;
    assert c.data + all[..n] + all[n..] == c.data + all;
  }

  lemma FeedAcceptsPrefix(c: Collected, input: bytes, rest: bytes)
    requires c.Valid() && WellFormed(c.data + c.carry + input + rest)
    ensures Feed(c, input).ok
  {
    var all := c.carry + input;
    assert c.data + c.carry + input + rest == c.data + (all + rest);
    WellFormedConcat(c.data, all + rest);
    PrefixOfWellFormed(all, rest);
    if ValidUpTo(all) < |all| {
      ErrorLenContract(all[ValidUpTo(all)..]);
    }
  }

  /** A fragment is rejected at once exactly when nothing that could follow would make the text well-formed. */
  lemma RejectedIffHopeless(c: Collected, input: bytes)
    requires c.Valid()
    ensures Feed(c, input).ok <==> exists rest: bytes :: WellFormed(c.data + c.carry + input + rest)
  {
    hide WellFormed, IsPartial, Feed, Completion;
    var seen := c.data + c.carry + input;
    if Feed(c, input).ok {
      var d := Feed(c, input).after;
      FeedKeepsValid(c, input);
      if d.carry == [] {
        assert seen + [] == d.data;
        assert WellFormed(seen + []);
      } else {
        var t := Completion(d.carry);
        PartialCanBeFinished(d.carry);
        WellFormedConcat(d.data, d.carry + t);
        assert seen + t == d.data + (d.carry + t);
        assert WellFormed(seen + t);
      }
    }
    forall rest: bytes | WellFormed(c.data + c.carry + input + rest)
      ensures Feed(c, input).ok
    {
      FeedAcceptsPrefix(c, input, rest);
    }
  }

  /** A rejected fragment leaves behind the longest text there is in it, and no carry. */
  lemma RejectedKeepsPrefix(c: Collected, input: bytes)
    requires !Feed(c, input).ok
    ensures var after, all := Feed(c, input).after, c.carry + input;
            var n := |after.data| - |c.data|;
            && after.carry == [] && 0 <= n < |all| && after.data == c.data + all[..n]
            && WellFormed(all[..n]) && forall m | n < m <= |all| :: !WellFormed(all[..m])
  {
    hide WellFormed, IsPartial, ErrorLen;
    var all := c.carry + input;
    var n := ValidUpTo(all);
    ValidPrefixIsWellFormed(all);
    forall m | n < m <= |all|
      ensures !WellFormed(all[..m])
    {
      if WellFormed(all[..m]) {
        WellFormedPrefixBound(all, m);
      }
    }
  }

  lemma {:induction false} FeedAllKeepsValid(c: Collected, fragments: seq<bytes>)
    requires c.Valid()
    ensures var f := FeedAll(c, fragments);
            f.after.Valid() && (f.ok ==> f.after.data + f.after.carry == c.data + c.carry + Concat(fragments))
    decreases |fragments|
  {
    hide WellFormed, IsPartial, Feed;
    if fragments == [] {
    } else {
      FeedKeepsValid(c, fragments[0]);
      var d := Feed(c, fragments[0]).after;
      FeedAllKeepsValid(d, fragments[1..]);
      assert c.data + c.carry + fragments[0] + Concat(fragments[1..]) == c.data + c.carry + Concat(fragments);
    }
  }

  lemma {:induction false} FeedAllAcceptsPrefix(c: Collected, fragments: seq<bytes>, rest: bytes)
    requires c.Valid() && WellFormed(c.data + c.carry + Concat(fragments) + rest)
    ensures FeedAll(c, fragments).ok
    decreases |fragments|
  {
    hide WellFormed, IsPartial, Feed;
    if fragments == [] {
    } else {
      var more := Concat(fragments[1..]) + rest;
      assert c.data + c.carry + Concat(fragments) + rest == c.data + c.carry + fragments[0] + more;
      FeedAcceptsPrefix(c, fragments[0], more);
      FeedKeepsValid(c, fragments[0]);
      var d := Feed(c, fragments[0]).after;
      assert d.data + d.carry + Concat(fragments[1..]) + rest == d.data + d.carry + more;
      FeedAllAcceptsPrefix(d, fragments[1..], rest);
    }
  }

  /** Feeds every fragment, going on after rejected ones. */
  function FeedOn(c: Collected, fragments: seq<bytes>): Collected
    decreases |fragments|
  {
    if fragments == [] then c else FeedOn(Feed(c, fragments[0]).after, fragments[1..])
  }

  /** In every reachable state, even after errors, text is well-formed and at most three octets are carried. */
  lemma {:induction false} EveryReachableCollectorIsValid(fragments: seq<bytes>, c: Collected)
    requires c.Valid()
    ensures FeedOn(c, fragments).Valid() && |FeedOn(c, fragments).carry| <= 3
    decreases |fragments|
  {
    hide WellFormed, Feed;
    if fragments == [] {
    } else {
      FeedKeepsValid(c, fragments[0]);
      EveryReachableCollectorIsValid(fragments[1..], Feed(c, fragments[0]).after);
    }
  }

  /**
    * Section 8.1 of RFC 6455: however text is cut into fragments, collecting them succeeds exactly when the
    * whole is well-formed UTF-8, and then yields exactly the whole.
    */
  lemma FragmentIndependence(fragments: seq<bytes>)
    ensures var f := FeedAll(EMPTY, fragments);
            var whole := Concat(fragments);
            && (f.ok && Finish(f.after).Some? <==> WellFormed(whole))
            && (WellFormed(whole) ==> Finish(f.after) == Some(whole))
  {
    var f := FeedAll(EMPTY, fragments);
    var whole := Concat(fragments);
    FeedAllKeepsValid(EMPTY, fragments);
    assert EMPTY.data + EMPTY.carry + whole == whole;
    if WellFormed(whole) {
      assert EMPTY.data + EMPTY.carry + whole + [] == whole;
      FeedAllAcceptsPrefix(EMPTY, fragments, []);
      WellFormedConcat(f.after.data, f.after.carry);
      if f.after.carry != [] {
        PartialIsNotWellFormed(f.after.carry);
      }
    }
    assert f.after.carry == [] ==> f.after.data + f.after.carry == f.after.data;
  }

  // ---- the fast form: a four-octet carry buffer completed in place ----

  /** Splicing at most four octets decides as much as looking at all of them. */
  lemma SplicedPrefix(all: bytes)
    requires |all| > 4
    ensures StartsWithChar(all) <==> StartsWithChar(all[..4])
    ensures !IsPartial(all) && !IsPartial(all[..4])
    ensures ErrorLen(all) == ErrorLen(all[..4])
  {
    var s := all[..4];
    assert forall k | 0 <= k <= 4 :: s[..k] == all[..k];
    LongestPartialIsLocal(all, s, 3);
  }

  /** The character completing a partial one is longer than it, and so is a subpart that ends it. */
  lemma PastTheCarry(carry: bytes, all: bytes)
    requires IsPartial(carry) && carry <= all
    ensures StartsWithChar(all) ==> ValidUpTo(all) > |carry|
    ensures !IsPartial(all) && !StartsWithChar(all) ==> ErrorLen(all).value >= |carry|
  {
    ErrorLenContract(all);
    assert all[..|carry|] == carry;
  }

  function Spliced(all: bytes): bytes {
    if |all| > 4 then all[..4] else all
  }

  /** Why both `checked_sub(..).unwrap()` succeed, and what each answer about the spliced octets means. */
  lemma SpliceDecides(carry: bytes, input: bytes)
    requires carry == [] || IsPartial(carry)
    ensures var all := carry + input;
            match FromUtf8(Spliced(all))
            case Valid => WellFormed(Spliced(all)) && (carry != [] ==> |Spliced(all)| > |carry|)
            case Error(v, e) =>
              if v > 0 then |carry| <= v <= |Spliced(all)| && WellFormed(Spliced(all)[..v])
                  && (carry != [] ==> v > |carry|)
              else match e
                   case None => Spliced(all) == all && IsPartial(all)
                   case Some(n) => 1 <= n <= |Spliced(all)| && |carry| <= n && ValidUpTo(all) == 0 && ErrorLen(all) == e
  {
    hide IsChar, IsPartial, WellFormed, StartsWithChar, ErrorLen;
    var all := carry + input;
    var s := Spliced(all);
    ValidIffWellFormed(s);
    ValidPrefixIsWellFormed(s);
    assert s[0..] == s;
    if all != [] {
      ErrorLenContract(s);
      NothingValidUpTo(s);
      NothingValidUpTo(all);
      if |all| > 4 {
        SplicedPrefix(all);
      }
      if carry != [] {
        PartialIsShort(carry);
        PastTheCarry(carry, s);
      }
    }
  }

  lemma PartialIsShort(s: bytes)
    requires IsPartial(s)
    ensures 1 <= |s| <= 3
  {
  }

  /** Cutting behind the carry cuts the input. */
  lemma CutBehind(carry: bytes, input: bytes, copied: nat, n: nat)
    requires copied <= |input| && |carry| <= n <= |carry| + copied
    ensures (carry + input[..copied])[..n] == carry + input[..n - |carry|]
  {
  }

  class Incomplete {
    const buffer: array<byte>
    var bufferLen: nat

    ghost predicate Valid()
      reads this
    {
      buffer.Length == 4 && bufferLen <= 4
    }

    function Value(): bytes
      requires Valid()
      reads this, buffer
    {
      buffer[..bufferLen]
    }

    constructor ()
      ensures Valid() && fresh(buffer) && Value() == []
    {
      buffer := new byte[4](_ => 0);
      bufferLen := 0;
    }

    constructor FromBytes(s: bytes)
      requires |s| <= 4
      ensures Valid() && fresh(buffer) && Value() == s
    {
      buffer := new byte[4](i => if 0 <= i < |s| then s[i] else 0);
      bufferLen := |s|;
    }

    method TakeBuffer() returns (s: bytes)
      requires Valid()
      modifies this
      ensures Valid() && s == old(Value()) && Value() == []
    {
      var len := bufferLen;
      bufferLen := 0;
      s := buffer[..len];
    }

    /** Copies input into the unwritten end of the buffer. */
    method Splice(input: bytes) returns (copied: nat)
      requires Valid()
      modifies buffer
      ensures copied <= |input| && bufferLen + copied <= 4
      ensures buffer[..bufferLen + copied] == Spliced(old(Value()) + input) == old(Value()) + input[..copied]
    {
      var unwritten := 4 - bufferLen;
      copied := if |input| < unwritten then |input| else unwritten;
      forall i | 0 <= i < copied {
        buffer[bufferLen + i] := input[i];
      }
      assert buffer[..bufferLen] == old(Value()) && buffer[bufferLen..bufferLen + copied] == input[..copied];
    }

    /** Octets consumed from the input, and what the buffer now holds: text, an error, or neither yet. */
    method TryCompleteOffsets(input: bytes) returns (consumed: nat, done: Option<bool>)
      requires Valid() && (Value() == [] || IsPartial(Value()))
      modifies this, buffer
      ensures Valid() && consumed <= |input|
      ensures Value() == old(Value()) + input[..consumed]
      ensures done == Some(true) ==> WellFormed(Value()) && (old(Value()) != [] ==> |Value()| > |old(Value())|)
      ensures done == Some(false) ==>
                var all := old(Value()) + input;
                all != [] && ValidUpTo(all) == 0 && ErrorLen(all) == Some(|Value()|)
      ensures done == None ==> consumed == |input| && IsPartial(Value())
    {
      hide IsPartial, WellFormed, ErrorLen, FromUtf8, ValidUpTo, StartsWithChar;
      var initial := bufferLen;
      ghost var carry := Value();
      var copied := Splice(input);
      var spliced := buffer[..initial + copied];
      SpliceDecides(carry, input);
      match FromUtf8(spliced) {
        case Valid =>
          bufferLen := |spliced|;
          assert Value() == spliced;
          consumed, done := copied, Some(true);
        case Error(validUpTo, errorLen) =>
          if validUpTo > 0 {
            consumed := validUpTo - initial;
            bufferLen := validUpTo;
            CutBehind(carry, input, copied, validUpTo);
            assert Value() == spliced[..validUpTo];
            done := Some(true);
          } else {
            match errorLen {
              case Some(n) =>
                consumed := n - initial;
                bufferLen := n;
                CutBehind(carry, input, copied, n);
                assert Value() == spliced[..n];
                done := Some(false);
              case None =>
                bufferLen := |spliced|;
                consumed, done := copied, None;
            }
          }
      }
    }

    /** Takes up input until the carried character is finished, found ill-formed, or the input runs out. */
    method TryComplete(input: bytes) returns (done: Option<Result<bytes, bytes>>, remaining: bytes)
      requires Valid() && (Value() == [] || IsPartial(Value()))
      modifies this, buffer
      ensures Valid()
      ensures done == None ==> Value() == old(Value()) + input && IsPartial(Value())
      ensures done.Some? ==> Value() == []
      ensures done.Some? && done.value.Ok? ==>
                var text := done.value.value;
                && WellFormed(text) && text + remaining == old(Value()) + input
                && (old(Value()) != [] ==> |text| > |old(Value())|)
      ensures done.Some? && done.value.Err? ==>
                var all := old(Value()) + input;
                && done.value.error + remaining == all
                && all != [] && ValidUpTo(all) == 0 && ErrorLen(all) == Some(|done.value.error|)
    {
      hide IsPartial, WellFormed, ErrorLen, ValidUpTo;
      var consumed, found := TryCompleteOffsets(input);
      if found == None {
        return None, [];
      }
      remaining := input[consumed..];
      assert Value() + remaining == old(Value()) + input;
      var octets := TakeBuffer();
      done := Some(if found.value then Ok(octets) else Err(octets));
    }
  }

  // ---- StringCollector ----

  lemma FeedAfterText(c: Collected, input: bytes, text: bytes, rest: bytes)
    requires WellFormed(text) && c.carry + input == text + rest
    ensures Feed(c, input) == Feed(Collected(c.data + text, []), rest)
  {
    hide WellFormed, Feed;
    FeedCarried(c, input);
    FeedTextFirst(c.data, text, rest);
  }

  /** Carried octets count as input. */
  lemma FeedCarried(c: Collected, input: bytes)
    ensures Feed(c, input) == Feed(Collected(c.data, []), c.carry + input)
  {
    hide FromUtf8;
    assert [] + (c.carry + input) == c.carry + input;
  }

  lemma FeedTextFirst(data: bytes, text: bytes, rest: bytes)
    requires WellFormed(text)
    ensures Feed(Collected(data, []), text + rest) == Feed(Collected(data + text, []), rest)
  {
    hide FromUtf8, WellFormed, Judged;
    VerdictAfterText(text, rest);
    JudgedAfterText(data, text, rest, FromUtf8(rest));
    assert [] + rest == rest && [] + (text + rest) == text + rest;
  }

  function Moved(n: nat, v: Verdict): Verdict {
    if v.Valid? then v else v.(validUpTo := n + v.validUpTo)
  }

  lemma JudgedAfterText(data: bytes, text: bytes, rest: bytes, v: Verdict)
    requires v.Error? ==> v.validUpTo <= |rest|
    ensures Judged(data, text + rest, Moved(|text|, v)) == Judged(data + text, rest, v)
  {
    if v.Valid? {
      assert data + (text + rest) == data + text + rest;
    } else {
      var m := v.validUpTo;
      assert (text + rest)[..|text| + m] == text + rest[..m] && (text + rest)[|text| + m..] == rest[m..];
      assert data + (text + rest[..m]) == data + text + rest[..m];
    }
  }

  /** Well-formed text in front only moves the verdict. */
  lemma VerdictAfterText(text: bytes, rest: bytes)
    requires WellFormed(text)
    ensures FromUtf8(rest).Error? ==> FromUtf8(rest).validUpTo <= |rest|
    ensures FromUtf8(text + rest) == Moved(|text|, FromUtf8(rest))
  {
    hide WellFormed, ErrorLen, ValidUpTo;
    WellFormedConcat(text, rest);
    var m := ValidUpTo(rest);
    assert (text + rest)[|text| + m..] == rest[m..];
  }

  lemma FeedOnlyError(c: Collected, input: bytes)
    requires c.carry + input != [] && ValidUpTo(c.carry + input) == 0
    ensures match ErrorLen(c.carry + input)
            case None => Feed(c, input) == Fed(Collected(c.data, c.carry + input), true)
            case Some(_) => Feed(c, input) == Fed(Collected(c.data, []), false)
  {
    var all := c.carry + input;
    assert all[0..] == all && c.data + all[..0] == c.data;
  }

  class StringCollector {
    var data: bytes
    var incomplete: Incomplete

    ghost predicate Valid()
      reads this, incomplete, incomplete.buffer
    {
      incomplete.Valid() && View().Valid()
    }

    ghost function Repr(): set<object>
      reads this
    {
      {this, incomplete, incomplete.buffer}
    }

    function View(): Collected
      requires incomplete.Valid()
      reads this, incomplete, incomplete.buffer
    {
      Collected(data, incomplete.Value())
    }

    constructor ()
      ensures Valid() && fresh(Repr()) && View() == EMPTY
    {
      data := [];
      incomplete := new Incomplete();
    }

    method Extend(tail: bytes) returns (ok: bool)
      requires Valid()
      modifies Repr()
      ensures Valid() && fresh(Repr() - old(Repr()))
      ensures Fed(View(), ok) == Feed(old(View()), tail)
    {
      hide IsPartial, WellFormed, ErrorLen, ValidUpTo, Feed;
      ghost var was := View();
      FeedKeepsValid(was, tail);
      var input := tail;
      if incomplete.bufferLen != 0 {
        var done, rest := incomplete.TryComplete(input);
        match done {
          case None =>
            PartialIsNotWellFormed(incomplete.Value());
            ErrorLenContract(incomplete.Value());
            FeedOnlyError(was, tail);
            return true;
          case Some(Err(_)) =>
            FeedOnlyError(was, tail);
            return false;
          case Some(Ok(text)) =>
            data := data + text;
            input := rest;
            FeedAfterText(was, tail, text, rest);
        }
      }
      assert View().carry == [] && Feed(View(), input) == Feed(was, tail);
      ok := ExtendAtBoundary(input);
    }

    /** The second half of `extend`: nothing is carried, so the input starts at a character boundary. */
    method ExtendAtBoundary(input: bytes) returns (ok: bool)
      requires incomplete.Valid() && View().carry == []
      modifies this
      ensures incomplete.Valid() && fresh(Repr() - old(Repr()))
      ensures Fed(View(), ok) == Feed(old(View()), input)
    {
      hide IsPartial, WellFormed, ErrorLen, ValidUpTo;
      assert [] + input == input;
      if input == [] {
        NothingToFeed(View());
        return true;
      }
      var verdict := FromUtf8(input);
      if verdict.Valid? {
        data := data + input;
        return true;
      }
      var valid, afterValid := input[..verdict.validUpTo], input[verdict.validUpTo..];
      data := data + valid;
      ErrorLenContract(afterValid);
      if verdict.errorLen.Some? {
        return false;
      }
      PartialIsShort(afterValid);
      incomplete := new Incomplete.FromBytes(afterValid);
      return true;
    }
  }

  lemma NothingToFeed(c: Collected)
    requires c.carry == []
    ensures Feed(c, []) == Fed(c, true)
  {
  }
}
