/** Byte strings: keys (UTF-8 text) compared the way Rust compares `str`, byte by byte. */
module Keys {

  type byte = x: int | 0 <= x < 256

  type Bytes = seq<byte>

  /** What a UTF-8 decoder still expects after some bytes (Table 3-7 of the Unicode Standard). */
  datatype Expect = Lead | Tail(n: nat) | AfterE0 | AfterED | AfterF0 | AfterF4 | Malformed

  function Advance(e: Expect, b: byte): Expect {
    match e
    case Lead =>
      if b < 0x80 then Lead
      else if 0xC2 <= b < 0xE0 then Tail(1)
      else if b == 0xE0 then AfterE0
      else if b == 0xED then AfterED
      else if 0xE0 < b < 0xF0 then Tail(2)
      else if b == 0xF0 then AfterF0
      else if 0xF0 < b < 0xF4 then Tail(3)
      else if b == 0xF4 then AfterF4
      else Malformed
    case Tail(n) => if 0x80 <= b < 0xC0 then (if n <= 1 then Lead else Tail(n - 1)) else Malformed
    case AfterE0 => if 0xA0 <= b < 0xC0 then Tail(1) else Malformed
    case AfterED => if 0x80 <= b < 0xA0 then Tail(1) else Malformed
    case AfterF0 => if 0x90 <= b < 0xC0 then Tail(2) else Malformed
    case AfterF4 => if 0x80 <= b < 0x90 then Tail(2) else Malformed
    case Malformed => Malformed
  }

  function Expected(s: Bytes, n: nat): Expect
    requires n <= |s|
  {
    if n == 0 then Lead else Advance(Expected(s, n - 1), s[n - 1])
  }

  /** `String::from_utf8` accepts `s`. */
  predicate Utf8(s: Bytes) {
    Expected(s, |s|) == Lead
  }

  /** Keys are `str`s: their bytes are UTF-8. */
  type Key = Bytes

  /** Strict lexicographic order on bytes, which is `str`'s order. */
  predicate Less(a: Bytes, b: Bytes) {
    b != [] && (a == [] || a[0] < b[0] || (a[0] == b[0] && Less(a[1..], b[1..])))
  }

  predicate Leq(a: Bytes, b: Bytes) {
    a == b || Less(a, b)
  }

  lemma LessIrreflexive(a: Bytes)
    ensures !Less(a, a)
  {
  }

  lemma LessTransitive(a: Bytes, b: Bytes, c: Bytes)
    requires Less(a, b) && Less(b, c)
    ensures Less(a, c)
  {
  }

  lemma LessTotal(a: Bytes, b: Bytes)
    ensures Less(a, b) || a == b || Less(b, a)
  {
    if a != [] && b != [] && a[0] == b[0] {
      LessTotal(a[1..], b[1..]);
      assert a == [a[0]] + a[1..] && b == [b[0]] + b[1..];
    }
  }

  lemma LessAsymmetric(a: Bytes, b: Bytes)
    requires Less(a, b)
    ensures !Less(b, a) && a != b
  {
    if Less(b, a) { LessTransitive(a, b, a); }
    LessIrreflexive(a);
  }

  /** `starts_with` */
  predicate HasPrefix(k: Bytes, p: Bytes) {
    p <= k
  }

  lemma PrefixIsBelow(p: Bytes, k: Bytes)
    requires HasPrefix(k, p)
    ensures Leq(p, k)
  {
    if p != [] {
      assert k[1..][..|p| - 1] == p[1..];
      PrefixIsBelow(p[1..], k[1..]);
      assert k == [k[0]] + k[1..] && p == [p[0]] + p[1..];
    }
  }

  /** The keys with a given prefix are an interval: once past it, never back in. */
  lemma {:induction false} PrefixRangeIsConvex(p: Bytes, a: Bytes, b: Bytes)
    requires Leq(p, a) && Less(a, b) && HasPrefix(b, p)
    ensures HasPrefix(a, p)
  {
    if p != [] {
      if p == a {
      } else {
        assert b[0] == p[0];
        assert a[0] == p[0];
        assert p == [p[0]] + p[1..] && a == [a[0]] + a[1..];
        assert b[1..][..|p| - 1] == p[1..];
        PrefixRangeIsConvex(p[1..], a[1..], b[1..]);
        assert a[..|p|] == [p[0]] + a[1..][..|p| - 1];
      }
    }
  }
}
