/** Text against its code points: which byte strings are UTF-8, and what is trimmed from them. */
module TextProofs {
  import opened Bytes
  import opened PercentProofs

  /** A Unicode scalar value: a code point that is not a surrogate. */
  predicate Scalar(c: int) { 0 <= c < 0xD800 || 0xE000 <= c <= 0x10FFFF }

  /** The UTF-8 encoding of a scalar value. */
  function EncodeScalar(c: int): (r: bytes)
    requires Scalar(c)
    ensures 1 <= |r| <= 4
  {
    if c < 0x80 then [c]
    else if c < 0x800 then [0xC0 + c / 64, 0x80 + c % 64]
    else if c < 0x10000 then [0xE0 + c / 64 / 64, 0x80 + c / 64 % 64, 0x80 + c % 64]
    else [0xF0 + c / 64 / 64 / 64, 0x80 + c / 64 / 64 % 64, 0x80 + c / 64 % 64, 0x80 + c % 64]
  }

  function EncodeText(cs: seq<int>): bytes
    requires forall i :: 0 <= i < |cs| ==> Scalar(cs[i])
  {
    if cs == [] then [] else EncodeScalar(cs[0]) + EncodeText(cs[1..])
  }

  /** The first byte tells the length, the others are continuation bytes, and the ends of the ranges are kept. */
  lemma LeadBytes(c: int)
    requires Scalar(c)
    ensures var e := EncodeScalar(c);
            && (|e| == 1 ==> e[0] < 0x80) && (|e| == 2 ==> 0xC2 <= e[0] <= 0xDF)
            && (|e| == 3 ==> 0xE0 <= e[0] <= 0xEF && (e[0] == 0xE0 ==> e[1] >= 0xA0) && (e[0] == 0xED ==> e[1] <= 0x9F))
            && (|e| == 4 ==> 0xF0 <= e[0] <= 0xF4 && (e[0] == 0xF0 ==> e[1] >= 0x90) && (e[0] == 0xF4 ==> e[1] <= 0x8F))
            && forall i :: 1 <= i < |e| ==> Continuation(e[i])
  {}

  lemma HeadOfScalar(c: int, rest: bytes)
    requires Scalar(c)
    ensures Utf8Head(EncodeScalar(c) + rest) == |EncodeScalar(c)|
  {
    LeadBytes(c);
    hide EncodeScalar, Scalar;
    var e, s := EncodeScalar(c), EncodeScalar(c) + rest;
    assert forall i :: 0 <= i < |e| ==> s[i] == e[i];
  }

  lemma Digits(x: int, y: int)
    requires 0 <= x && 0 <= y < 64
    ensures (x * 64 + y) / 64 == x && (x * 64 + y) % 64 == y
  {}

  lemma TwoBytes(a: byte, b: byte)
    requires 0xC2 <= a <= 0xDF && Continuation(b)
    ensures var c := (a - 0xC0 as int) * 64 + (b - 0x80); Scalar(c) && EncodeScalar(c) == [a, b]
  {
    Digits(a - 0xC0, b - 0x80);
  }

  lemma ThreeBytes(a: byte, b: byte, d: byte)
    requires 0xE0 <= a <= 0xEF && Continuation(b) && Continuation(d)
    requires (a == 0xE0 ==> b >= 0xA0) && (a == 0xED ==> b <= 0x9F)
    ensures var c := ((a - 0xE0 as int) * 64 + (b - 0x80)) * 64 + (d - 0x80); Scalar(c) && EncodeScalar(c) == [a, b, d]
  {
    var hi: int := (a - 0xE0 as int) * 64 + (b - 0x80);
    Digits(a - 0xE0, b - 0x80);
    Digits(hi, d - 0x80);
  }

  lemma FourBytes(a: byte, b: byte, d: byte, e: byte)
    requires 0xF0 <= a <= 0xF4 && Continuation(b) && Continuation(d) && Continuation(e)
    requires (a == 0xF0 ==> b >= 0x90) && (a == 0xF4 ==> b <= 0x8F)
    ensures var c := (((a - 0xF0 as int) * 64 + (b - 0x80)) * 64 + (d - 0x80)) * 64 + (e - 0x80);
            Scalar(c) && EncodeScalar(c) == [a, b, d, e]
  {
    var hi: int := (a - 0xF0 as int) * 64 + (b - 0x80);
    var mid: int := hi * 64 + (d - 0x80);
    Digits(a - 0xF0, b - 0x80);
    Digits(hi, d - 0x80);
    Digits(mid, e - 0x80);
  }

  lemma ScalarOfHead(s: bytes) returns (c: int)
    requires Utf8Head(s) > 0
    ensures Scalar(c) && EncodeScalar(c) == s[..Utf8Head(s)]
  {
    hide EncodeScalar, Scalar;
    var n := Utf8Head(s);
    if n == 1 {
      c := s[0];
      OneByte(s[0]);
    } else if n == 2 {
      c := (s[0] - 0xC0 as int) * 64 + (s[1] - 0x80);
      TwoBytes(s[0], s[1]);
    } else if n == 3 {
      c := ((s[0] - 0xE0 as int) * 64 + (s[1] - 0x80)) * 64 + (s[2] - 0x80);
      ThreeBytes(s[0], s[1], s[2]);
    } else {
      c := (((s[0] - 0xF0 as int) * 64 + (s[1] - 0x80)) * 64 + (s[2] - 0x80)) * 64 + (s[3] - 0x80);
      FourBytes(s[0], s[1], s[2], s[3]);
    }
  }

  lemma OneByte(a: byte)
    requires a < 0x80
    ensures Scalar(a) && EncodeScalar(a) == [a]
  {}

  /** Encoded text is valid ... */
  lemma {:induction false} TextIsValid(cs: seq<int>)
    requires forall i :: 0 <= i < |cs| ==> Scalar(cs[i])
    ensures Utf8Valid(EncodeText(cs))
  {
    hide Utf8Head, EncodeScalar;
    if cs != [] {
      TextIsValid(cs[1..]);
      HeadOfScalar(cs[0], EncodeText(cs[1..]));
      assert EncodeText(cs)[|EncodeScalar(cs[0])|..] == EncodeText(cs[1..]);
    }
  }

  /** ... and only encoded text is. */
  lemma {:induction false} ValidIsText(s: bytes) returns (cs: seq<int>)
    requires Utf8Valid(s)
    ensures (forall i :: 0 <= i < |cs| ==> Scalar(cs[i])) && EncodeText(cs) == s
    decreases |s|
  {
    hide Utf8Head, EncodeScalar, Scalar;
    if s == [] {
      cs := [];
    } else {
      var c := ScalarOfHead(s);
      var rest := ValidIsText(s[Utf8Head(s)..]);
      cs := [c] + rest;
      assert cs[1..] == rest;
      assert s == s[..Utf8Head(s)] + s[Utf8Head(s)..];
    }
  }

  // ----------------------------------------------------------------- whitespace

  /** The code points with the White_Space property. */
  predicate WhiteSpace(c: int) {
    || 9 <= c <= 13 || c == 0x20 || c == 0x85 || c == 0xA0 || c == 0x1680 || 0x2000 <= c <= 0x200A
    || c == 0x2028 || c == 0x2029 || c == 0x202F || c == 0x205F || c == 0x3000
  }

  /** White-space characters by their bytes. */
  lemma WhiteBytes(c: int)
    requires Scalar(c)
    ensures var e := EncodeScalar(c);
            WhiteSpace(c) <==>
              || (|e| == 1 && AsciiWhite(e[0]))
              || (|e| == 2 && White2(e[0], e[1]))
              || (|e| == 3 && White3(e[0], e[1], e[2]))
  {}

  /** What is trimmed from the front is one white-space character at a time ... */
  lemma WhiteHeads(c: int, rest: bytes)
    requires Scalar(c)
    ensures WhiteHead(EncodeScalar(c) + rest) == if WhiteSpace(c) then |EncodeScalar(c)| else 0
  {
    WhiteBytes(c);
    LeadBytes(c);
    hide EncodeScalar, WhiteSpace, Scalar;
  }

  /** ... and likewise from the back. */
  lemma WhiteTails(before: bytes, c: int)
    requires Scalar(c)
    ensures WhiteTail(before + EncodeScalar(c)) == if WhiteSpace(c) then |EncodeScalar(c)| else 0
  {
    WhiteBytes(c);
    LeadBytes(c);
    hide EncodeScalar, WhiteSpace, Scalar;
  }

  // --------------------------------------------------------- letters and numbers

  /** Lower-casing turns each capital into its small letter and leaves everything else. */
  lemma LowerCase(b: byte, rest: bytes)
    ensures Lower([b] + rest)[1..] == Lower(rest)
    ensures forall i :: 0 <= i < 26 && b == UPPER[i] as int ==> Lower([b] + rest)[0] == LOWER[i] as int
    ensures !OneOf(b, UPPER) ==> Lower([b] + rest)[0] == b
  {
    forall i | 0 <= i < 26 ensures UPPER[i] as int == 65 + i && LOWER[i] as int == 97 + i { LettersAre(i); }
    if 65 <= b <= 90 { assert UPPER[b - 65] as int == b; }
    assert Lower([b] + rest)[1..] == Lower(rest);
  }

  /** Decimal numbers up to the bound are read, with or without a plus sign, and larger ones are not. */
  lemma NumbersAreRead(n: nat, max: nat)
    ensures ParseUnsigned(Decimal(n), 10, max) == (if n <= max then Some(n) else None)
    ensures ParseUnsigned([43] + Decimal(n), 10, max) == ParseUnsigned(Decimal(n), 10, max)
    ensures ParseUnsigned([], 10, max) == None && ParseUnsigned([43], 10, max) == None
  {
    DecimalDigits(n);
    hide Decimal;
    assert ([43] + Decimal(n))[1..] == Decimal(n);
    var plus: bytes := [43];
    assert plus[..0] == [] && DigitValue(43, 10) == None;
    assert DigitsValue(plus, 10) == None;
  }

  /** Text with anything else in it is not a number. */
  lemma {:induction false} OtherTextIsNoNumber(s: bytes, i: nat, radix: nat, max: nat)
    requires i < |s| && 2 <= radix <= 16 && DigitValue(s[i], radix) == None && (i == 0 ==> s[0] != 43)
    ensures ParseUnsigned(s, radix, max) == None
  {
    if |s| > 1 && s[0] == 43 {
      NotAllDigits(s[1..], i - 1, radix);
    } else {
      NotAllDigits(s, i, radix);
    }
  }

  lemma {:induction false} NotAllDigits(s: bytes, i: nat, radix: nat)
    requires i < |s| && 2 <= radix <= 16 && DigitValue(s[i], radix) == None
    ensures DigitsValue(s, radix) == None
    decreases |s|
  {
    if i < |s| - 1 { NotAllDigits(s[..|s| - 1], i, radix); }
  }
}
