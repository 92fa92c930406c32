/** Claim codes: 100 bits of entropy as Crockford base 32, and the tolerant parser that undoes it. */
module ClaimCode {
  import opened Results
  import opened Keys

  // ---------------------------------------------------------------- the alphabet

  /** Symbol `i` of Crockford base 32: the digits, then the letters without I, L, O, U. */
  function Symbol(i: nat): (b: byte)
    requires i < 32
  {
    if i < 10 then 0x30 + i // 0-9
    else if i < 18 then 0x41 + (i - 10) // A-H
    else if i < 20 then 0x4A + (i - 18) // J K
    else if i < 22 then 0x4D + (i - 20) // M N
    else if i < 27 then 0x50 + (i - 22) // P-T
    else 0x56 + (i - 27) // V-Z
  }

  predicate InAlphabet(b: nat) {
    0x30 <= b <= 0x39 || (0x41 <= b <= 0x5A && b != 0x49 && b != 0x4C && b != 0x4F && b != 0x55)
  }

  lemma SymbolsAreTheAlphabet(b: byte)
    ensures InAlphabet(b) <==> exists i: nat :: i < 32 && Symbol(i) == b
  {
    if InAlphabet(b) {
      var i :=
        if b <= 0x39 then b - 0x30
        else if b <= 0x48 then b - 0x41 + 10
        else if b <= 0x4B then b - 0x4A + 18
        else if b <= 0x4E then b - 0x4D + 20
        else if b <= 0x54 then b - 0x50 + 22
        else b - 0x56 + 27;
      assert Symbol(i) == b;
    }
  }

  // ---------------------------------------------------------------- entropy to symbols

  function Pow2(n: nat): (p: nat)
    ensures p > 0
  {
    if n == 0 then 1 else 2 * Pow2(n - 1)
  }

  /** The first `n` bytes as one big-endian number. */
  function BigEndian(e: seq<byte>, n: nat): nat
    requires n <= |e|
  {
    if n == 0 then 0 else BigEndian(e, n - 1) * 256 + e[n - 1]
  }

  /** Base-32 digit `s` of the entropy, most significant first. */
  function Digit(e: seq<byte>, s: nat): (d: nat)
    requires |e| == 16 && s < 20
    ensures d < 32
  {
    BigEndian(e, 16) / Pow2(128 - 5 * (s + 1)) % 32
  }

  lemma {:induction false} Pow2Sum(a: nat, b: nat)
    ensures Pow2(a + b) == Pow2(a) * Pow2(b)
  {
    if a > 0 { Pow2Sum(a - 1, b); }
  }

  lemma DivDiv(x: nat, a: nat, b: nat)
    requires a > 0 && b > 0
    ensures x / a / b == x / (a * b)
  {
    var y := x / a;
    NestedQuotient(x, a, b, y, x % a, y / b, y % b);
  }

  lemma NestedQuotient(x: nat, a: nat, b: nat, y: nat, r1: nat, q: nat, r2: nat)
    requires x == y * a + r1 && r1 < a && y == q * b + r2 && r2 < b && a * b > 0
    ensures x / (a * b) == q
  {
    Distribute(q * b, r2, a);
    Regroup2(q, b, a);
    SmallerProduct(r2, b - 1, a);
    Distribute(b - 1, 1, a);
    QuotientUnique(x, a * b, q, r2 * a + r1);
  }

  lemma Distribute(x: int, y: int, z: int)
    ensures (x + y) * z == x * z + y * z
  {
  }

  lemma Regroup2(q: int, b: int, a: int)
    ensures q * b * a == q * (a * b)
  {
  }

  lemma SmallerProduct(x: nat, y: nat, z: nat)
    requires x <= y
    ensures 0 <= x * z <= y * z
  {
  }

  lemma MultipleIsFar(k: int, d: int)
    requires d > 0
    ensures k >= 1 ==> k * d >= d
    ensures k <= -1 ==> k * d <= -d
  {
  }

  lemma QuotientUnique(x: nat, d: nat, q: nat, r: nat)
    requires d > 0 && x == q * d + r && r < d
    ensures x / d == q
  {
    var q' := x / d;
    var r' := x % d;
    assert x == q' * d + r';
    assert (q - q') * d == r' - r;
    MultipleIsFar(q - q', d);
  }

  /** The leading bytes are the number shifted right. */
  lemma {:induction false} LeadingBytes(e: seq<byte>, n: nat, m: nat)
    requires n <= m <= |e|
    ensures BigEndian(e, m) / Pow2(8 * (m - n)) == BigEndian(e, n)
    decreases m
  {
    if n < m {
      LeadingBytes(e, n, m - 1);
      assert BigEndian(e, m) / 256 == BigEndian(e, m - 1);
      DivDiv(BigEndian(e, m), 256, Pow2(8 * (m - 1 - n)));
      Pow2Sum(8, 8 * (m - 1 - n));
      assert Pow2(8) == 256 by { SmallPowers(); }
    }
  }

  lemma SmallPowers()
    ensures Pow2(5) == 32 && Pow2(8) == 256 && Pow2(32) == 0x1_0000_0000
  {
    assert Pow2(4) == 16;
    Pow2Sum(4, 4);
    Pow2Sum(8, 8);
    Pow2Sum(16, 16);
  }

  lemma DropHigh(x: nat, p: nat, h: nat)
    requires p > 0 && h > 0
    ensures x % (p * 32 * h) / p % 32 == x / p % 32
  {
    var m := p * 32 * h;
    Positive(p, h);
    var hi, lo := x / m, x % m;
    assert x == hi * m + lo;
    Regroup(hi, p, h);
    var k := hi * h;
    ShiftedQuotient(lo, p, 32 * k);
    ModuloMultiple(lo / p, k);
  }

  lemma Positive(p: nat, h: nat)
    requires p > 0 && h > 0
    ensures p * 32 * h > 0
  {
  }

  lemma Regroup(hi: nat, p: nat, h: nat)
    ensures hi * (p * 32 * h) == (32 * (hi * h)) * p
  {
  }

  /** Dropping the bits above the 32nd does not touch a digit that lies below them. */
  lemma TruncationKeepsDigit(x: nat, bits: nat)
    requires bits + 5 <= 32
    ensures x % 0x1_0000_0000 / Pow2(bits) % 32 == x / Pow2(bits) % 32
  {
    hide Pow2;
    SmallPowers();
    Pow2Sum(bits, 5);
    Pow2Sum(bits + 5, 27 - bits);
    DropHigh(x, Pow2(bits), Pow2(27 - bits));
  }

  lemma ShiftedQuotient(lo: nat, p: nat, k: nat)
    requires p > 0
    ensures (k * p + lo) / p == k + lo / p
  {
    var q, r := lo / p, lo % p;
    assert k * p + lo == (k + q) * p + r;
    QuotientUnique(k * p + lo, p, k + q, r);
  }

  lemma ModuloMultiple(y: nat, k: nat)
    ensures (32 * k + y) % 32 == y % 32
  {
  }

  /** The digit read after `n` bytes and `s` symbols is the base-32 digit `s` of all the entropy. */
  lemma DigitFromPrefix(e: seq<byte>, n: nat, s: nat)
    requires |e| == 16 && n <= 16 && s < 20 && 5 * (s + 1) <= 8 * n
    ensures BigEndian(e, n) / Pow2(8 * n - 5 * (s + 1)) % 32 == Digit(e, s)
  {
    LeadingBytes(e, n, 16);
    DivDiv(BigEndian(e, 16), Pow2(8 * (16 - n)), Pow2(8 * n - 5 * (s + 1)));
    Pow2Sum(8 * (16 - n), 8 * n - 5 * (s + 1));
  }

  function Symbols(e: seq<byte>): (r: seq<byte>)
    requires |e| == 16
    ensures |r| == 20
  {
    seq(20, s requires 0 <= s < 20 => Symbol(Digit(e, s)))
  }

  const DASH: byte := 0x2D
  /** "CCOS" */
  const BRAND: seq<byte> := [0x43, 0x43, 0x4F, 0x53]
  /** What the brand folds to: "CC0S" */
  const FOLDED_BRAND: seq<byte> := [0x43, 0x43, 0x30, 0x53]

  /** `CCOS-` and four dash-separated groups of five. */
  function Layout(body: seq<byte>): seq<byte>
    requires |body| == 20
  {
    BRAND + [DASH] + body[0..5] + [DASH] + body[5..10] + [DASH] + body[10..15] + [DASH] + body[15..20]
  }

  /** The symbols drained from the accumulator once a byte has been shifted in. */
  method DrainSymbols(e: seq<byte>, n: nat, acc: nat, bits: nat, symbols: seq<byte>)
    returns (bits': nat, symbols': seq<byte>)
    requires |e| == 16 && n <= 16 && bits <= 12
    requires acc == BigEndian(e, n) % 0x1_0000_0000
    requires |symbols| <= 20 && bits + 5 * |symbols| == 8 * n
    requires forall s :: 0 <= s < |symbols| ==> symbols[s] == Symbol(Digit(e, s))
    ensures |symbols| <= |symbols'| <= 20 && bits' + 5 * |symbols'| == 8 * n
    ensures forall s :: 0 <= s < |symbols'| ==> symbols'[s] == Symbol(Digit(e, s))
    ensures bits' < 5 || |symbols'| == 20
  {
    hide Digit, BigEndian, Pow2;
    bits', symbols' := bits, symbols;
    while bits' >= 5 && |symbols'| < 20
      invariant bits' <= 12
      invariant |symbols| <= |symbols'| <= 20 && bits' + 5 * |symbols'| == 8 * n
      invariant forall s :: 0 <= s < |symbols'| ==> symbols'[s] == Symbol(Digit(e, s))
    {
      bits' := bits' - 5;
      TruncationKeepsDigit(BigEndian(e, n), bits');
      DigitFromPrefix(e, n, |symbols'|);
      symbols' := symbols' + [Symbol(acc / Pow2(bits') % 32)];
    }
  }

  /** Five bits a symbol through a 32-bit accumulator: the digits of the first 100 bits. */
  method CodeFromEntropy(e: seq<byte>) returns (code: seq<byte>)
    requires |e| == 16
    ensures code == Layout(Symbols(e))
  {
    hide Digit, BigEndian, Pow2;
    var symbols: seq<byte> := [];
    var acc: nat := 0;
    var bits: nat := 0;
    var i := 0;
    NothingRead(e);
    while i < 16 && |symbols| < 20
      invariant 0 <= i <= 16 && |symbols| <= 20
      invariant acc == BigEndian(e, i) % 0x1_0000_0000
      invariant bits + 5 * |symbols| == 8 * i
      invariant bits < 5 || |symbols| == 20
      invariant forall s :: 0 <= s < |symbols| ==> symbols[s] == Symbol(Digit(e, s))
    {
      ShiftIn(e, i, acc);
      acc := (acc * 256 + e[i]) % 0x1_0000_0000;
      bits := bits + 8;
      i := i + 1;
      bits, symbols := DrainSymbols(e, i, acc, bits, symbols);
    }
    assert symbols == Symbols(e);
    return Layout(symbols);
  }

  lemma NothingRead(e: seq<byte>)
    requires |e| == 16
    ensures BigEndian(e, 0) % 0x1_0000_0000 == 0
  {
  }

  lemma ShiftIn(e: seq<byte>, i: nat, acc: nat)
    requires i < |e| && acc == BigEndian(e, i) % 0x1_0000_0000
    ensures (acc * 256 + e[i]) % 0x1_0000_0000 == BigEndian(e, i + 1) % 0x1_0000_0000
  {
    var x := BigEndian(e, i);
    var hi := x / 0x1_0000_0000;
    assert BigEndian(e, i + 1) == hi * 256 * 0x1_0000_0000 + (acc * 256 + e[i]);
  }

  // ---------------------------------------------------------------- distinct entropy, distinct code

  lemma {:induction false} DigitsDetermine(x: nat, y: nat, k: nat)
    requires x < Pow2(5 * k) && y < Pow2(5 * k)
    requires forall t :: 0 <= t < k ==> DigitAt(x, t) == DigitAt(y, t)
    ensures x == y
    decreases k
  {
    SmallPowers();
    if k > 0 {
      Pow2Sum(5, 5 * (k - 1));
      assert DigitAt(x, 0) == x % 32 && DigitAt(y, 0) == y % 32;
      forall t | 0 <= t < k - 1
        ensures DigitAt(x / 32, t) == DigitAt(y / 32, t)
      {
        Pow2Sum(5, 5 * t);
        DivDiv(x, 32, Pow2(5 * t));
        DivDiv(y, 32, Pow2(5 * t));
        assert DigitAt(x, t + 1) == DigitAt(y, t + 1);
      }
      QuotientBound(x, 32, Pow2(5 * (k - 1)));
      QuotientBound(y, 32, Pow2(5 * (k - 1)));
      DigitsDetermine(x / 32, y / 32, k - 1);
    }
  }

  lemma QuotientBound(x: nat, a: nat, b: nat)
    requires a > 0 && x < a * b
    ensures x / a < b
  {
    assert a * (x / a) <= x;
  }

  lemma {:induction false} BigEndianBound(e: seq<byte>, n: nat)
    requires n <= |e|
    ensures BigEndian(e, n) < Pow2(8 * n)
  {
    SmallPowers();
    if n > 0 {
      BigEndianBound(e, n - 1);
      Pow2Sum(8, 8 * (n - 1));
    }
  }

  function Quotient(x: nat, p: nat): nat
    requires p > 0
  {
    x / p
  }

  /** The first 100 bits. */
  function LeadingBits(e: seq<byte>): nat
    requires |e| == 16
  {
    Quotient(BigEndian(e, 16), Pow2(28))
  }

  function DigitAt(x: nat, t: nat): nat {
    x / Pow2(5 * t) % 32
  }

  lemma DigitOfLeadingBits(e: seq<byte>, t: nat)
    requires |e| == 16 && t < 20
    ensures DigitAt(LeadingBits(e), t) == Digit(e, 19 - t)
  {
    hide BigEndian, Pow2;
    DivDiv(BigEndian(e, 16), Pow2(28), Pow2(5 * t));
    Pow2Sum(28, 5 * t);
  }

  lemma LeadingBitsBound(e: seq<byte>)
    requires |e| == 16
    ensures LeadingBits(e) < Pow2(5 * 20)
  {
    hide BigEndian, Pow2;
    BigEndianBound(e, 16);
    Pow2Sum(28, 100);
    QuotientBound(BigEndian(e, 16), Pow2(28), Pow2(100));
  }

  /** Two codes coincide exactly when the first 100 bits of the entropy do. */
  lemma CodesCoincideExactly(d: seq<byte>, e: seq<byte>)
    requires |d| == 16 && |e| == 16
    ensures Symbols(d) == Symbols(e) <==> LeadingBits(d) == LeadingBits(e)
  {
    hide BigEndian, Pow2, Digit, LeadingBits, DigitAt, Symbols;
    if Symbols(d) == Symbols(e) {
      forall t | 0 <= t < 20
        ensures DigitAt(LeadingBits(d), t) == DigitAt(LeadingBits(e), t)
      {
        DigitOfLeadingBits(d, t);
        DigitOfLeadingBits(e, t);
        SymbolsAreDigits(d, 19 - t);
        SymbolsAreDigits(e, 19 - t);
        SymbolsDiffer(Digit(d, 19 - t), Digit(e, 19 - t));
      }
      LeadingBitsBound(d);
      LeadingBitsBound(e);
      DigitsDetermine(LeadingBits(d), LeadingBits(e), 20);
    } else {
      var s :| 0 <= s < 20 && Symbols(d)[s] != Symbols(e)[s];
      SymbolsAreDigits(d, s);
      SymbolsAreDigits(e, s);
      DigitOfLeadingBits(d, 19 - s);
      DigitOfLeadingBits(e, 19 - s);
    }
  }

  lemma SymbolsAreDigits(e: seq<byte>, s: nat)
    requires |e| == 16 && s < 20
    ensures Symbols(e)[s] == Symbol(Digit(e, s))
  {
    hide Digit, Symbol;
  }

  lemma SymbolsDiffer(i: nat, j: nat)
    requires i < 32 && j < 32 && Symbol(i) == Symbol(j)
    ensures i == j
  {
  }

  // ---------------------------------------------------------------- operator input to code

  /** A Unicode scalar value. */
  type Scalar = c: nat | c < 0xD800 || 0xE000 <= c < 0x11_0000

  predicate IsSeparator(c: Scalar) {
    c == 0x2D || c == 0x20 || c == 0x5F || c == 0x09
  }

  function Upper(c: Scalar): Scalar {
    if 0x61 <= c <= 0x7A then c - 0x20 else c
  }

  /** Upper case with the Crockford confusions folded: O to 0, I and L to 1. */
  function Fold(c: Scalar): Scalar {
    var up := Upper(c);
    if up == 0x4F then 0x30 else if up == 0x49 || up == 0x4C then 0x31 else up
  }

  /** The bytes a character adds to a `String`. */
  function Utf8Bytes(c: Scalar): seq<byte> {
    if c < 0x80 then [c]
    else if c < 0x800 then [0xC0 + c / 64, 0x80 + c % 64]
    else if c < 0x1_0000 then [0xE0 + c / 4096, 0x80 + c / 64 % 64, 0x80 + c % 64]
    else [0xF0 + c / 0x4_0000, 0x80 + c / 4096 % 64, 0x80 + c / 64 % 64, 0x80 + c % 64]
  }

  /** A character is accepted by its low byte alone. */
  predicate Accepts(c: Scalar) {
    InAlphabet(Fold(c) % 256)
  }

  /** The folded symbols without separators; `None` at the first refused character. */
  function Cleaned(input: seq<Scalar>): Option<seq<byte>> {
    if input == [] then Some([])
    else
      var n := |input| - 1;
      var front := Cleaned(input[..n]);
      if front.None? || IsSeparator(input[n]) then front
      else if Accepts(input[n]) then Some(front.value + Utf8Bytes(Fold(input[n])))
      else None
  }

  function StripBrand(symbols: seq<byte>): seq<byte> {
    if FOLDED_BRAND <= symbols then symbols[4..] else symbols
  }

  /** Cutting a `str` inside a character panics. */
  predicate CutsCleanly(body: seq<byte>, i: nat)
    requires i < |body|
  {
    !(0x80 <= body[i] < 0xC0)
  }

  datatype Parsed = Code(text: seq<byte>) | NotACode | Panic

  function Canonical(input: seq<Scalar>): Parsed {
    var symbols := Cleaned(input);
    if symbols.None? then NotACode
    else
      var body := StripBrand(symbols.value);
      if |body| != 20 then NotACode
      else if CutsCleanly(body, 5) && CutsCleanly(body, 10) && CutsCleanly(body, 15) then Code(Layout(body))
      else Panic
  }

  lemma {:induction false} RefusalSticks(input: seq<Scalar>, n: nat)
    requires n <= |input| && Cleaned(input[..n]) == None
    ensures Cleaned(input) == None
    decreases |input|
  {
    if n < |input| {
      assert input[..|input| - 1][..n] == input[..n];
      RefusalSticks(input[..|input| - 1], n);
    } else {
      assert input[..n] == input;
    }
  }

  /** `canonical_code`: one pass over the characters, then length and layout. */
  method CanonicalCode(input: seq<Scalar>) returns (r: Parsed)
    ensures r == Canonical(input)
  {
    var symbols: seq<byte> := [];
    for i := 0 to |input|
      invariant Cleaned(input[..i]) == Some(symbols)
    {
      assert input[..i + 1][..i] == input[..i];
      var c := input[i];
      if c == 0x2D || c == 0x20 || c == 0x5F || c == 0x09 {
        continue;
      }
      var folded := Fold(c);
      if !InAlphabet(folded % 256) {
        RefusalSticks(input, i + 1);
        return NotACode;
      }
      symbols := symbols + Utf8Bytes(folded);
    }
    assert input[..|input|] == input;
    var body := if FOLDED_BRAND <= symbols then symbols[4..] else symbols;
    if |body| != 20 {
      return NotACode;
    }
    if CutsCleanly(body, 5) && CutsCleanly(body, 10) && CutsCleanly(body, 15) {
      return Code(Layout(body));
    }
    return Panic;
  }

  // ---------------------------------------------------------------- what is accepted

  /** The input without separators. */
  function Bare(input: seq<Scalar>): seq<Scalar> {
    if input == [] then []
    else
      var n := |input| - 1;
      Bare(input[..n]) + if IsSeparator(input[n]) then [] else [input[n]]
  }

  ghost predicate AllAscii(s: seq<Scalar>) {
    forall i :: 0 <= i < |s| ==> s[i] < 0x80
  }

  ghost predicate AllSymbols(s: seq<byte>) {
    forall i :: 0 <= i < |s| ==> InAlphabet(s[i])
  }

  ghost predicate FoldsTo(s: seq<Scalar>, symbols: seq<byte>) {
    |s| == |symbols| && forall i :: 0 <= i < |s| ==> Fold(s[i]) == symbols[i]
  }

  /** ASCII input cleans to its folded symbols, exactly when all of them are in the alphabet. */
  lemma {:induction false} CleanedAscii(input: seq<Scalar>)
    requires AllAscii(Bare(input))
    ensures Cleaned(input).Some? <==> forall i :: 0 <= i < |Bare(input)| ==> InAlphabet(Fold(Bare(input)[i]))
    ensures Cleaned(input).Some? ==> FoldsTo(Bare(input), Cleaned(input).value) && AllSymbols(Cleaned(input).value)
  {
    hide InAlphabet;
    if input != [] {
      var n := |input| - 1;
      var front := Bare(input[..n]);
      assert forall i :: 0 <= i < |front| ==> Bare(input)[i] == front[i];
      CleanedAscii(input[..n]);
      if !IsSeparator(input[n]) {
        assert Bare(input)[|front|] == input[n];
      } else {
        assert Bare(input) == front;
      }
    }
  }

  /** One well-formed body, laid out. */
  ghost predicate WellFormed(text: seq<byte>) {
    exists body :: |body| == 20 && AllSymbols(body) && text == Layout(body)
  }

  /** ASCII input is a code exactly when its symbols, less the brand, are twenty of the alphabet; it never panics. */
  lemma AsciiAcceptedExactly(input: seq<Scalar>)
    requires AllAscii(Bare(input))
    ensures Canonical(input) != Panic
    ensures Canonical(input).Code? <==>
              exists symbols :: FoldsTo(Bare(input), symbols) && AllSymbols(symbols) && |StripBrand(symbols)| == 20
    ensures Canonical(input).Code? ==> WellFormed(Canonical(input).text)
  {
    hide InAlphabet, Fold, Cleaned, Bare, Layout;
    CleanedAscii(input);
    if Cleaned(input).Some? {
      var symbols := Cleaned(input).value;
      StripKeepsSymbols(symbols);
      var body := StripBrand(symbols);
      if |body| == 20 {
        SymbolIsAscii(body[5]);
        SymbolIsAscii(body[10]);
        SymbolIsAscii(body[15]);
      }
      forall other | FoldsTo(Bare(input), other)
        ensures other == symbols
      {
      }
    }
  }

  lemma SymbolIsAscii(b: byte)
    ensures InAlphabet(b) ==> b < 0x80
  {
  }

  lemma StripKeepsSymbols(symbols: seq<byte>)
    requires AllSymbols(symbols)
    ensures AllSymbols(StripBrand(symbols))
  {
  }

  // ---------------------------------------------------------------- round trip

  /** What an operator may type for a code character: either case, O for 0, I or L for 1. */
  predicate LooksLike(c: Scalar, b: byte) {
    || Upper(c) == b
    || ((b == 0x30 || b == 0x4F) && (Upper(c) == 0x30 || Upper(c) == 0x4F))
    || (b == 0x31 && (Upper(c) == 0x49 || Upper(c) == 0x4C))
  }

  /** Input that reads as the code with body `body`, whatever its case, separators and confusions. */
  ghost predicate ReadsAs(input: seq<Scalar>, body: seq<byte>) {
    var bare, code := Bare(input), BRAND + body;
    |bare| == |code| && forall i :: 0 <= i < |bare| ==> LooksLike(bare[i], code[i])
  }

  lemma LooksLikeFolds(c: Scalar, b: byte)
    requires LooksLike(c, b) && (InAlphabet(b) || b == 0x4F)
    ensures c < 0x80 && Fold(c) == if b == 0x4F then 0x30 else b
  {
  }

  /** Every way of typing a generated code parses back to it. */
  lemma VariantsParseBack(input: seq<Scalar>, body: seq<byte>)
    requires |body| == 20 && AllSymbols(body) && ReadsAs(input, body)
    ensures Canonical(input) == Code(Layout(body))
  {
    hide InAlphabet, Fold, Cleaned, Bare, Layout, LooksLike;
    var bare, code := Bare(input), BRAND + body;
    assert InAlphabet(0x43) && InAlphabet(0x53) && InAlphabet(0x30) by { BrandSymbols(); }
    var symbols := FOLDED_BRAND + body;
    forall i | 0 <= i < |bare|
      ensures bare[i] < 0x80 && Fold(bare[i]) == symbols[i] && InAlphabet(symbols[i])
    {
      LooksLikeFolds(bare[i], code[i]);
      if i >= 4 { SymbolIsNotO(body[i - 4]); }
    }
    AsciiAcceptedExactly(input);
    CleanedAscii(input);
    assert Cleaned(input).value == symbols;
    assert StripBrand(symbols) == body;
  }

  lemma BrandSymbols()
    ensures InAlphabet(0x43) && InAlphabet(0x53) && InAlphabet(0x30)
  {
  }

  lemma SymbolIsNotO(b: byte)
    ensures InAlphabet(b) ==> b != 0x4F
  {
  }

  lemma {:induction false} BareAppend(a: seq<Scalar>, b: seq<Scalar>)
    ensures Bare(a + b) == Bare(a) + Bare(b)
    decreases |b|
  {
    if b == [] {
      assert a + b == a;
    } else {
      assert (a + b)[..|a + b| - 1] == a + b[..|b| - 1];
      BareAppend(a, b[..|b| - 1]);
    }
  }

  lemma {:induction false} BareSymbols(s: seq<byte>)
    requires forall i :: 0 <= i < |s| ==> InAlphabet(s[i]) || s[i] == 0x4F
    ensures Bare(s) == s
  {
    if s != [] {
      BareSymbols(s[..|s| - 1]);
      assert s == s[..|s| - 1] + [s[|s| - 1]];
    }
  }

  lemma BareDash()
    ensures Bare([DASH]) == []
  {
    assert [DASH][..0] == [];
  }

  /** The separators of the canonical layout drop out again. */
  lemma BareLayout(body: seq<byte>)
    requires |body| == 20 && AllSymbols(body)
    ensures Bare(Layout(body)) == BRAND + body
  {
    hide Bare, InAlphabet;
    BrandSymbols();
    BareDash();
    BareSymbols(BRAND);
    BareSymbols(body[0..5]);
    BareSymbols(body[5..10]);
    BareSymbols(body[10..15]);
    BareSymbols(body[15..20]);
    BareAppend(BRAND, [DASH]);
    BareAppend(BRAND + [DASH], body[0..5]);
    BareAppend(BRAND + [DASH] + body[0..5], [DASH]);
    BareAppend(BRAND + [DASH] + body[0..5] + [DASH], body[5..10]);
    BareAppend(BRAND + [DASH] + body[0..5] + [DASH] + body[5..10], [DASH]);
    BareAppend(BRAND + [DASH] + body[0..5] + [DASH] + body[5..10] + [DASH], body[10..15]);
    BareAppend(BRAND + [DASH] + body[0..5] + [DASH] + body[5..10] + [DASH] + body[10..15], [DASH]);
    BareAppend(BRAND + [DASH] + body[0..5] + [DASH] + body[5..10] + [DASH] + body[10..15] + [DASH], body[15..20]);
    assert body == body[0..5] + body[5..10] + body[10..15] + body[15..20];
  }

  lemma LooksLikeItself(b: byte)
    requires InAlphabet(b) || b == 0x4F
    ensures LooksLike(b, b)
  {
  }

  /** A canonical code is its own canonical form. */
  lemma CanonicalIsFixed(body: seq<byte>)
    requires |body| == 20 && AllSymbols(body)
    ensures Canonical(Layout(body)) == Code(Layout(body))
  {
    hide Bare, InAlphabet, Layout, Canonical, LooksLike;
    BareLayout(body);
    BrandSymbols();
    forall i | 0 <= i < 24
      ensures LooksLike((BRAND + body)[i], (BRAND + body)[i])
    {
      LooksLikeItself((BRAND + body)[i]);
    }
    VariantsParseBack(Layout(body), body);
  }

  /** Canonicalizing twice changes nothing, for ASCII input. */
  lemma CanonicalIsIdempotent(input: seq<Scalar>)
    requires AllAscii(Bare(input)) && Canonical(input).Code?
    ensures Canonical(Canonical(input).text) == Canonical(input)
  {
    hide Canonical, Bare, Layout, AllSymbols;
    AsciiAcceptedExactly(input);
    var text := Canonical(input).text;
    var body :| |body| == 20 && AllSymbols(body) && text == Layout(body);
    CanonicalIsFixed(body);
  }

  /** Codes made from entropy come back from every variant. */
  lemma EntropyRoundTrip(e: seq<byte>, input: seq<Scalar>)
    requires |e| == 16 && ReadsAs(input, Symbols(e))
    ensures Canonical(input) == Code(Layout(Symbols(e)))
  {
    hide ReadsAs, Canonical, Layout, Digit;
    forall s | 0 <= s < 20
      ensures InAlphabet(Symbols(e)[s])
    {
      SymbolsAreTheAlphabet(Symbols(e)[s]);
    }
    VariantsParseBack(input, Symbols(e));
  }

  /** A bare body without the brand is accepted exactly when it does not itself start like the brand. */
  lemma BareBodyExactly(body: seq<byte>)
    requires |body| == 20 && AllSymbols(body)
    ensures Canonical(body) == Code(Layout(body)) <==> !(FOLDED_BRAND <= body)
    ensures FOLDED_BRAND <= body ==> Canonical(body) == NotACode
  {
    hide Bare, InAlphabet, Layout, Cleaned, Fold;
    BareSymbols(body);
    forall i | 0 <= i < 20
      ensures body[i] < 0x80 && Fold(body[i]) == body[i]
    {
      SymbolIsAscii(body[i]);
      FoldKeepsSymbols(body[i]);
    }
    CleanedAscii(body);
    AsciiAcceptedExactly(body);
    assert Cleaned(body).value == body;
  }

  lemma FoldKeepsSymbols(b: byte)
    requires InAlphabet(b)
    ensures Fold(b) == b
  {
  }

  // ---------------------------------------------------------------- beyond ASCII

  lemma FoldAscii(c: Scalar)
    ensures Fold(c) < 0x80 <==> c < 0x80
    ensures c >= 0x80 ==> forall i :: 0 <= i < |Utf8Bytes(Fold(c))| ==> Utf8Bytes(Fold(c))[i] >= 0x80
    ensures |Utf8Bytes(Fold(c))| > 0
  {
  }

  /** Without non-ASCII characters the symbols are ASCII, and with one they are not. */
  lemma {:induction false} CleanedShowsNonAscii(input: seq<Scalar>)
    requires Cleaned(input).Some?
    ensures AllAscii(Bare(input)) <==> forall i :: 0 <= i < |Cleaned(input).value| ==> Cleaned(input).value[i] < 0x80
  {
    hide Fold, InAlphabet, Utf8Bytes;
    if input != [] {
      var n := |input| - 1;
      var front := Cleaned(input[..n]).value;
      var bare := Bare(input[..n]);
      CleanedShowsNonAscii(input[..n]);
      if IsSeparator(input[n]) {
        assert Bare(input) == bare;
      } else {
        var more := Utf8Bytes(Fold(input[n]));
        FoldAscii(input[n]);
        AsciiByte(Fold(input[n]));
        AllBelow(front, more);
        assert Cleaned(input).value == front + more;
        assert input[n] < 0x80 <==> forall i :: 0 <= i < |more| ==> more[i] < 0x80 by {
          if input[n] >= 0x80 { assert more[0] >= 0x80; }
        }
        assert Bare(input) == bare + [input[n]];
        assert AllAscii(Bare(input)) <==> AllAscii(bare) && input[n] < 0x80 by { AsciiAppend(bare, input[n]); }
      }
    }
  }

  lemma AsciiByte(c: Scalar)
    ensures c < 0x80 ==> Utf8Bytes(c) == [c]
  {
  }

  lemma AsciiAppend(s: seq<Scalar>, c: Scalar)
    ensures AllAscii(s + [c]) <==> AllAscii(s) && c < 0x80
  {
    if AllAscii(s + [c]) {
      assert (s + [c])[|s|] == c;
      forall i | 0 <= i < |s|
        ensures s[i] < 0x80
      {
        assert (s + [c])[i] == s[i];
      }
    }
  }

  lemma AllBelow(a: seq<byte>, b: seq<byte>)
    ensures (forall i :: 0 <= i < |a + b| ==> (a + b)[i] < 0x80) <==>
              (forall i :: 0 <= i < |a| ==> a[i] < 0x80) && (forall i :: 0 <= i < |b| ==> b[i] < 0x80)
  {
    if forall i :: 0 <= i < |a + b| ==> (a + b)[i] < 0x80 {
      forall i | 0 <= i < |a|
        ensures a[i] < 0x80
      {
        assert (a + b)[i] == a[i];
      }
      forall i | 0 <= i < |b|
        ensures b[i] < 0x80
      {
        assert (a + b)[|a| + i] == b[i];
      }
    }
  }

  /** An input that is not refused gives a well-formed code, and no panic, if and only if its symbols are ASCII. */
  lemma AcceptedIsWellFormedExactly(input: seq<Scalar>)
    requires Canonical(input) != NotACode
    ensures Canonical(input).Code? && WellFormed(Canonical(input).text) <==> AllAscii(Bare(input))
  {
    hide Fold, InAlphabet, Bare, Cleaned, Layout;
    var symbols := Cleaned(input).value;
    var body := StripBrand(symbols);
    CleanedShowsNonAscii(input);
    if AllAscii(Bare(input)) {
      AsciiAcceptedExactly(input);
    }
    if Canonical(input).Code? && WellFormed(Canonical(input).text) {
      var other :| |other| == 20 && AllSymbols(other) && Layout(body) == Layout(other);
      LayoutIsInjective(body, other);
      forall i | 0 <= i < |symbols|
        ensures symbols[i] < 0x80
      {
        if FOLDED_BRAND <= symbols {
          if i >= 4 { SymbolIsAscii(body[i - 4]); }
        } else {
          SymbolIsAscii(body[i]);
        }
      }
    }
  }

  lemma LayoutIsInjective(a: seq<byte>, b: seq<byte>)
    requires |a| == 20 && |b| == 20 && Layout(a) == Layout(b)
    ensures a == b
  {
    var s, t := Layout(a), Layout(b);
    assert s[5..10] == a[0..5] && s[11..16] == a[5..10] && s[17..22] == a[10..15] && s[23..28] == a[15..20];
    assert t[5..10] == b[0..5] && t[11..16] == b[5..10] && t[17..22] == b[10..15] && t[23..28] == b[15..20];
    assert a == a[0..5] + a[5..10] + a[10..15] + a[15..20];
    assert b == b[0..5] + b[5..10] + b[10..15] + b[15..20];
  }

  /** `n` letters A. */
  function Letters(n: nat): (s: seq<byte>)
    ensures |s| == n && forall i :: 0 <= i < n ==> s[i] == 0x41
  {
    if n == 0 then [] else Letters(n - 1) + [0x41]
  }

  lemma {:induction false} CleanedLetters(front: seq<Scalar>, n: nat)
    requires Cleaned(front).Some?
    ensures Cleaned(front + Letters(n)) == Some(Cleaned(front).value + Letters(n))
  {
    hide Cleaned, IsSeparator, Accepts, Utf8Bytes, Fold;
    if n == 0 {
      assert front + Letters(0) == front;
      assert Cleaned(front).value + Letters(0) == Cleaned(front).value;
    } else {
      CleanedLetters(front, n - 1);
      LetterIsPlain();
      CleanedSnoc(front + Letters(n - 1), 0x41);
      assert front + Letters(n) == front + Letters(n - 1) + [0x41];
      assert Cleaned(front).value + Letters(n) == Cleaned(front).value + Letters(n - 1) + [0x41];
    }
  }

  lemma LetterIsPlain()
    ensures !IsSeparator(0x41) && Accepts(0x41) && Utf8Bytes(Fold(0x41)) == [0x41]
  {
  }

  lemma CleanedSnoc(front: seq<Scalar>, c: Scalar)
    requires Cleaned(front).Some? && !IsSeparator(c) && Accepts(c)
    ensures Cleaned(front + [c]) == Some(Cleaned(front).value + Utf8Bytes(Fold(c)))
  {
    assert (front + [c])[..|front|] == front;
  }

  /** U+0141, L with stroke: its low byte is that of the letter A. */
  const STROKE: Scalar := 0x141

  function StrokeFirst(): seq<Scalar> {
    [STROKE] + Letters(18)
  }

  function StrokeFifth(): seq<Scalar> {
    Letters(4) + [STROKE] + Letters(14)
  }

  lemma StrokeBytes()
    ensures !IsSeparator(STROKE) && Accepts(STROKE) && Utf8Bytes(Fold(STROKE)) == [0xC5, 0x81]
  {
  }

  /** Such a character slips in: an accepted text that is no code. */
  lemma NonAsciiSlipsThrough()
    ensures Canonical(StrokeFirst()).Code? && !WellFormed(Canonical(StrokeFirst()).text)
  {
    hide Cleaned, WellFormed, Letters, Fold, Utf8Bytes;
    CleanedNothing();
    StrokeBytes();
    CleanedSnoc([], STROKE);
    var front: seq<Scalar> := [STROKE];
    assert [] + front == front;
    var none: seq<byte> := [];
    assert none + Utf8Bytes(Fold(STROKE)) == [0xC5, 0x81];
    CleanedLetters(front, 18);
    var symbols: seq<byte> := [0xC5, 0x81] + Letters(18);
    assert Cleaned(StrokeFirst()) == Some(symbols);
    assert symbols[0] == 0xC5;
    CleanedShowsNonAscii(StrokeFirst());
    AcceptedIsWellFormedExactly(StrokeFirst());
  }

  lemma CleanedNothing()
    ensures Cleaned([]) == Some([])
  {
  }

  /** The same character across a group boundary makes the parser panic. */
  lemma NonAsciiCanPanic()
    ensures Canonical(StrokeFifth()) == Panic
  {
    hide Cleaned, Letters, Fold, Utf8Bytes;
    CleanedNothing();
    StrokeBytes();
    CleanedLetters([], 4);
    assert [] + Letters(4) == Letters(4);
    var front: seq<Scalar> := Letters(4) + [STROKE];
    CleanedSnoc(Letters(4), STROKE);
    CleanedLetters(front, 14);
    var symbols: seq<byte> := Letters(4) + [0xC5, 0x81] + Letters(14);
    assert Cleaned(StrokeFifth()) == Some(symbols);
    assert symbols[0] == 0x41 && symbols[5] == 0x81;
  }
}
