/**
  Byte strings and the few text operations of Rust's standard library that the
  endpoint relies on. A Rust `String` is modelled by the bytes of its UTF-8
  encoding, so `&str` and `&[u8]` share one type and validity is a predicate.
*/
module Bytes {

  type byte = b: int | 0 <= b < 256
  type bytes = seq<byte>

  datatype Option<+T> = None | Some(value: T)

  datatype Result<+T, +E> = Ok(value: T) | Err(error: E)

  const CR: byte := 13
  const LF: byte := 10
  const CRLF: bytes := [CR, LF]

  const USIZE_MAX: nat := 0xFFFF_FFFF_FFFF_FFFF
  const U64_MAX: nat := 0xFFFF_FFFF_FFFF_FFFF

  type u64 = n: nat | n <= U64_MAX

  /** Configuration refuses empty buffers. */
  type BufferSize = n: nat | n > 0 witness 1

  /** The bytes of an ASCII literal. */
  function Ascii(s: string): (r: bytes)
    ensures |r| == |s|
    ensures forall i :: 0 <= i < |s| && s[i] < 128 as char ==> r[i] == s[i] as int
  {
    seq(|s|, i requires 0 <= i < |s| => (s[i] as int) % 256)
  }

  /** `u64::saturating_add` on values that may already be out of range. */
  function SaturatingAdd(a: nat, b: nat): nat {
    if a + b > U64_MAX then U64_MAX else a + b
  }

  // ---------------------------------------------------------------- searching

  predicate CrlfAt(b: bytes, i: int) {
    0 <= i && i + 1 < |b| && b[i] == CR && b[i + 1] == LF
  }

  /** Position of the first CR LF pair at or after `k`. */
  function FindCrlfFrom(b: bytes, k: nat): (r: Option<nat>)
    requires k <= |b|
    ensures r.Some? ==> k <= r.value && CrlfAt(b, r.value)
    ensures r.Some? ==> forall j :: k <= j < r.value ==> !CrlfAt(b, j)
    ensures r.None? ==> forall j :: k <= j ==> !CrlfAt(b, j)
    decreases |b| - k
  {
    if k + 1 >= |b| then None
    else if CrlfAt(b, k) then Some(k)
    else FindCrlfFrom(b, k + 1)
  }

  function FindCrlf(b: bytes): (r: Option<nat>)
    ensures r.Some? ==> CrlfAt(b, r.value) && forall j :: 0 <= j < r.value ==> !CrlfAt(b, j)
    ensures r.None? ==> forall j :: 0 <= j ==> !CrlfAt(b, j)
  {
    FindCrlfFrom(b, 0)
  }

  /** A line terminator already in view does not move when more bytes arrive. */
  lemma FindCrlfStable(b: bytes, x: bytes)
    requires FindCrlf(b).Some?
    ensures FindCrlf(b + x) == FindCrlf(b)
  {
    var i := FindCrlf(b).value;
    assert CrlfAt(b + x, i);
    assert forall j :: 0 <= j < i ==> (CrlfAt(b + x, j) <==> CrlfAt(b, j));
    var r := FindCrlf(b + x);
    assert r.Some?;
  }

  /** A line without CR LF inside, followed by CR LF, is found whole. */
  lemma FindCrlfOfLine(line: bytes, x: bytes)
    requires forall j :: !CrlfAt(line, j)
    requires line == [] || line[|line| - 1] != CR
    ensures FindCrlf(line + CRLF + x) == Some(|line|)
  {
    var b := line + CRLF + x;
    assert CrlfAt(b, |line|);
    forall j | 0 <= j < |line| ensures !CrlfAt(b, j) {
      assert b[j] == line[j];
      if j + 1 < |line| {
        assert b[j + 1] == line[j + 1];
        assert !CrlfAt(line, j);
      }
    }
  }

  /** `str::split_once` for a one-byte pattern. */
  function SplitOnce(s: bytes, c: byte): (r: Option<(bytes, bytes)>)
    ensures r.Some? ==> s == r.value.0 + [c] + r.value.1 && c !in r.value.0
    ensures r.None? <==> c !in s
  {
    if s == [] then None
    else if s[0] == c then Some(([], s[1..]))
    else match SplitOnce(s[1..], c)
      case None => None
      case Some((a, b)) =>
        assert s == [s[0]] + s[1..];
        Some(([s[0]] + a, b))
  }

  lemma {:induction false} SplitOnceAt(a: bytes, c: byte, b: bytes)
    requires c !in a
    ensures SplitOnce(a + [c] + b, c) == Some((a, b))
  {
    var s := a + [c] + b;
    if a == [] {
      assert s[1..] == b;
    } else {
      assert s[1..] == a[1..] + [c] + b;
      SplitOnceAt(a[1..], c, b);
      assert [a[0]] + a[1..] == a;
    }
  }

  /** `str::split` for a one-byte pattern: never empty. */
  function Split(s: bytes, c: byte): (r: seq<bytes>)
    ensures |r| >= 1
    ensures forall i :: 0 <= i < |r| ==> c !in r[i]
    decreases |s|
  {
    match SplitOnce(s, c)
    case None => [s]
    case Some((a, b)) => [a] + Split(b, c)
  }

  /** `[_]::join` with a one-byte separator, for at least one piece. */
  function Join(ps: seq<bytes>, c: byte): (r: bytes)
    requires |ps| >= 1
  {
    if |ps| == 1 then ps[0] else ps[0] + [c] + Join(ps[1..], c)
  }

  /** Splitting undoes joining when no piece holds the separator ... */
  lemma {:induction false} SplitOfJoin(ps: seq<bytes>, c: byte)
    requires |ps| >= 1
    requires forall i :: 0 <= i < |ps| ==> c !in ps[i]
    ensures Split(Join(ps, c), c) == ps
    decreases |ps|
  {
    if |ps| == 1 {
    } else {
      SplitOnceAt(ps[0], c, Join(ps[1..], c));
      SplitOfJoin(ps[1..], c);
      assert ps == [ps[0]] + ps[1..];
    }
  }

  /** ... and joining always undoes splitting. */
  lemma {:induction false} JoinOfSplit(s: bytes, c: byte)
    ensures Join(Split(s, c), c) == s
    decreases |s|
  {
    match SplitOnce(s, c)
    case None =>
    case Some((a, b)) =>
      JoinOfSplit(b, c);
      assert Split(s, c)[1..] == Split(b, c);
  }

  function Flatten(fs: seq<bytes>): bytes {
    if fs == [] then [] else fs[0] + Flatten(fs[1..])
  }

  lemma {:induction false} FlattenAppend(fs: seq<bytes>, gs: seq<bytes>)
    ensures Flatten(fs + gs) == Flatten(fs) + Flatten(gs)
  {
    if fs == [] {
      assert fs + gs == gs;
    } else {
      FlattenAppend(fs[1..], gs);
      assert (fs + gs)[1..] == fs[1..] + gs;
      assert fs[0] + (Flatten(fs[1..]) + Flatten(gs)) == (fs[0] + Flatten(fs[1..])) + Flatten(gs);
    }
  }

  lemma TailMultiset<T>(a: seq<T>)
    requires a != []
    ensures multiset(a[1..]) == multiset(a) - multiset{a[0]}
  {
    assert a == [a[0]] + a[1..];
  }

  /** The first element of one arrangement, found and taken out of another. */
  lemma TakeOut<T>(a: seq<T>, b: seq<T>) returns (j: nat)
    requires a != [] && multiset(a) == multiset(b)
    ensures j < |b| && b[j] == a[0]
    ensures multiset(a[1..]) == multiset(b[..j] + b[j + 1..])
  {
    assert a[0] in multiset(b);
    j :| 0 <= j < |b| && b[j] == a[0];
    var rest := b[..j] + b[j + 1..];
    assert a == [a[0]] + a[1..];
    assert b == b[..j] + [b[j]] + b[j + 1..];
    assert multiset(a[1..]) == multiset(a) - multiset{a[0]};
    assert multiset(rest) == multiset(b) - multiset{b[j]};
  }

  function Map<A, B>(f: A -> B, s: seq<A>): (r: seq<B>)
    ensures |r| == |s| && forall i :: 0 <= i < |s| ==> r[i] == f(s[i])
  {
    seq(|s|, i requires 0 <= i < |s| => f(s[i]))
  }

  lemma MapAround<A, B>(f: A -> B, before: seq<A>, x: A, after: seq<A>)
    ensures multiset(Map(f, before + [x] + after)) == multiset(Map(f, before + after)) + multiset{f(x)}
  {
    var l, r := Map(f, before), Map(f, after);
    assert Map(f, before + [x] + after) == l + [f(x)] + r;
    assert Map(f, before + after) == l + r;
  }

  /** Mapping rearranged elements gives rearranged images. */
  lemma {:induction false} MapRearranged<A, B>(f: A -> B, a: seq<A>, b: seq<A>)
    requires multiset(a) == multiset(b)
    ensures multiset(Map(f, a)) == multiset(Map(f, b))
    decreases |a|
  {
    hide Map;
    if a == [] {
      assert |multiset(b)| == 0;
      assert b == [];
    } else {
      var j := TakeOut(a, b);
      MapTakenOut(f, a, b, j);
      MapRearranged(f, a[1..], b[..j] + b[j + 1..]);
    }
  }

  lemma MapTakenOut<A, B>(f: A -> B, a: seq<A>, b: seq<A>, j: nat)
    requires a != [] && j < |b| && b[j] == a[0]
    ensures multiset(Map(f, a)) == multiset(Map(f, a[1..])) + multiset{f(a[0])}
    ensures multiset(Map(f, b)) == multiset(Map(f, b[..j] + b[j + 1..])) + multiset{f(a[0])}
  {
    hide Map;
    MapAround(f, [], a[0], a[1..]);
    assert [] + [a[0]] + a[1..] == a && [] + a[1..] == a[1..];
    MapAround(f, b[..j], b[j], b[j + 1..]);
    assert b[..j] + [b[j]] + b[j + 1..] == b;
  }

  // -------------------------------------------------------------------- UTF-8

  predicate Continuation(b: byte) { 0x80 <= b <= 0xBF }

  /** Length of the well-formed UTF-8 sequence that `s` starts with, or 0. */
  function Utf8Head(s: bytes): (n: nat)
    ensures n <= |s|
    ensures s != [] && s[0] < 0x80 ==> n == 1
  {
    if |s| >= 1 && s[0] < 0x80 then 1
    else if |s| >= 2 && 0xC2 <= s[0] <= 0xDF && Continuation(s[1]) then 2
    else if |s| >= 3 && 0xE0 <= s[0] <= 0xEF && Continuation(s[1]) && Continuation(s[2])
            && (s[0] == 0xE0 ==> s[1] >= 0xA0) && (s[0] == 0xED ==> s[1] <= 0x9F) then 3
    else if |s| >= 4 && 0xF0 <= s[0] <= 0xF4 && Continuation(s[1]) && Continuation(s[2]) && Continuation(s[3])
            && (s[0] == 0xF0 ==> s[1] >= 0x90) && (s[0] == 0xF4 ==> s[1] <= 0x8F) then 4
    else 0
  }

  /** What `str::from_utf8` accepts. */
  predicate Utf8Valid(s: bytes) {
    s == [] || (Utf8Head(s) > 0 && Utf8Valid(s[Utf8Head(s)..]))
  }

  predicate AllAscii(s: bytes) { forall i :: 0 <= i < |s| ==> s[i] < 0x80 }

  lemma {:induction false} AsciiIsUtf8(s: bytes)
    requires AllAscii(s)
    ensures Utf8Valid(s)
  {
    if s != [] { AsciiIsUtf8(s[1..]); }
  }

  // --------------------------------------------------------------- whitespace

  predicate AsciiWhite(b: byte) { 9 <= b <= 13 || b == 32 }

  /** The multi-byte members of Unicode White_Space, in UTF-8. */
  predicate White2(a: byte, b: byte) { a == 0xC2 && (b == 0x85 || b == 0xA0) }

  predicate White3(a: byte, b: byte, c: byte) {
    || (a == 0xE1 && b == 0x9A && c == 0x80)
    || (a == 0xE2 && b == 0x80 && (c <= 0x8A || c == 0xA8 || c == 0xA9 || c == 0xAF) && c >= 0x80)
    || (a == 0xE2 && b == 0x81 && c == 0x9F)
    || (a == 0xE3 && b == 0x80 && c == 0x80)
  }

  function WhiteHead(s: bytes): (n: nat)
    ensures n <= |s|
  {
    if |s| >= 1 && AsciiWhite(s[0]) then 1
    else if |s| >= 2 && White2(s[0], s[1]) then 2
    else if |s| >= 3 && White3(s[0], s[1], s[2]) then 3
    else 0
  }

  function WhiteTail(s: bytes): (n: nat)
    ensures n <= |s|
  {
    var k := |s|;
    if k >= 1 && AsciiWhite(s[k - 1]) then 1
    else if k >= 2 && White2(s[k - 2], s[k - 1]) then 2
    else if k >= 3 && White3(s[k - 3], s[k - 2], s[k - 1]) then 3
    else 0
  }

  function TrimStart(s: bytes): bytes {
    if WhiteHead(s) == 0 then s else TrimStart(s[WhiteHead(s)..])
  }

  function TrimEnd(s: bytes): bytes {
    if WhiteTail(s) == 0 then s else TrimEnd(s[..|s| - WhiteTail(s)])
  }

  /** `str::trim`. */
  function Trim(s: bytes): bytes { TrimEnd(TrimStart(s)) }

  predicate Trimmed(s: bytes) { WhiteHead(s) == 0 && WhiteTail(s) == 0 }

  lemma TrimmedStays(s: bytes)
    requires Trimmed(s)
    ensures Trim(s) == s
  {
    hide WhiteHead, WhiteTail;
    assert TrimStart(s) == s;
    assert TrimEnd(s) == s;
  }

  /** Text that starts and ends with visible ASCII has nothing to trim. */
  lemma VisibleEndsStay(s: bytes)
    requires s == [] || (32 < s[0] < 127 && 32 < s[|s| - 1] < 127)
    ensures Trim(s) == s
  {
    assert Trimmed(s);
    TrimmedStays(s);
  }

  // ---------------------------------------------------------- ASCII and digits

  function LowerByte(b: byte): byte { if 65 <= b <= 90 then b + 32 else b }

  /** `str::to_ascii_lowercase`. */
  function Lower(s: bytes): (r: bytes)
    ensures |r| == |s|
  {
    seq(|s|, i requires 0 <= i < |s| => LowerByte(s[i]))
  }

  /** Value of an ASCII digit in a radix up to 16, `char::to_digit`. */
  function DigitValue(b: byte, radix: nat): (r: Option<nat>)
    requires 2 <= radix <= 16
    ensures r.Some? ==> r.value < radix
  {
    var v := if 48 <= b <= 57 then b - 48
             else if 97 <= b <= 102 then b - 87
             else if 65 <= b <= 70 then b - 55
             else 16;
    if v < radix then Some(v) else None
  }

  /** Positional value of a digit string; None when some byte is not a digit. */
  function DigitsValue(s: bytes, radix: nat): Option<nat>
    requires 2 <= radix <= 16
  {
    if s == [] then Some(0)
    else
      match (DigitsValue(s[..|s| - 1], radix), DigitValue(s[|s| - 1], radix))
      case (Some(hi), Some(lo)) => Some(hi * radix + lo)
      case _ => None
  }

  /** `from_str_radix` for an unsigned type: one optional '+', then digits that fit. */
  function ParseUnsigned(s: bytes, radix: nat, max: nat): (r: Option<nat>)
    requires 2 <= radix <= 16
    ensures r.Some? ==> r.value <= max
  {
    var digits := if |s| > 1 && s[0] == 43 then s[1..] else s;
    if digits == [] then None
    else match DigitsValue(digits, radix)
      case None => None
      case Some(v) => if v <= max then Some(v) else None
  }

  function Decimal(n: nat): bytes {
    if n < 10 then [48 + n] else Decimal(n / 10) + [48 + n % 10]
  }

  lemma {:induction false} DecimalDigits(n: nat)
    ensures Decimal(n) != [] && DigitsValue(Decimal(n), 10) == Some(n)
    ensures forall i :: 0 <= i < |Decimal(n)| ==> 48 <= Decimal(n)[i] <= 57
  {
    var d := Decimal(n);
    assert DigitValue(48 + n % 10, 10) == Some(n % 10);
    if n < 10 {
      assert d[..0] == [];
    } else {
      DecimalDigits(n / 10);
      assert d[..|d| - 1] == Decimal(n / 10);
    }
  }

  lemma DecimalIsInjective(m: nat, n: nat)
    requires Decimal(m) == Decimal(n)
    ensures m == n
  {
    hide Decimal;
    DecimalDigits(m);
    DecimalDigits(n);
  }

  function HexDigit(n: nat): (b: byte)
    requires n < 16
    ensures DigitValue(b, 16) == Some(n) && b < 0x80
  {
    if n < 10 then 48 + n else 87 + n
  }

  /** Lower-case hexadecimal without leading zeros, `{:x}`. */
  function Hex(n: nat): (s: bytes)
    ensures s != []
    ensures forall i :: 0 <= i < |s| ==> DigitValue(s[i], 16).Some? && s[i] < 0x80
    ensures DigitsValue(s, 16) == Some(n)
  {
    if n < 16 then
      var d := [HexDigit(n)];
      assert d[..0] == [];
      d
    else
      var hi := Hex(n / 16);
      var s := hi + [HexDigit(n % 16)];
      assert s[..|s| - 1] == hi;
      s
  }

  function HexByte(b: byte): bytes { [HexDigit(b / 16), HexDigit(b % 16)] }

  /** `hex::encode`. */
  function HexEncode(s: bytes): bytes {
    if s == [] then [] else HexByte(s[0]) + HexEncode(s[1..])
  }

  lemma {:induction false} HexAt(d: bytes, i: nat)
    requires i < |d|
    ensures |HexEncode(d)| == 2 * |d|
    ensures HexEncode(d)[2 * i] == HexDigit(d[i] / 16) && HexEncode(d)[2 * i + 1] == HexDigit(d[i] % 16)
  {
    if |d| > 1 { HexAt(d[1..], if i == 0 then 0 else i - 1); }
    assert HexEncode(d) == HexByte(d[0]) + HexEncode(d[1..]);
  }

  lemma {:induction false} HexIsLower(d: bytes)
    ensures |HexEncode(d)| == 2 * |d|
    ensures forall i :: 0 <= i < |HexEncode(d)| ==> 48 <= HexEncode(d)[i] <= 57 || 97 <= HexEncode(d)[i] <= 102
  {
    if d != [] {
      HexIsLower(d[1..]);
      assert HexEncode(d) == HexByte(d[0]) + HexEncode(d[1..]);
    }
  }

  /** Hexadecimal text determines the bytes. */
  lemma {:induction false} HexIsInjective(x: bytes, y: bytes)
    requires HexEncode(x) == HexEncode(y)
    ensures x == y
  {
    HexIsLower(x);
    HexIsLower(y);
    hide HexEncode, DigitValue;
    forall i | 0 <= i < |x| ensures x[i] == y[i] {
      HexAt(x, i);
      HexAt(y, i);
      HexDigitIsInjective(x[i] / 16, y[i] / 16);
      HexDigitIsInjective(x[i] % 16, y[i] % 16);
    }
  }

  lemma HexDigitIsInjective(m: nat, n: nat)
    requires m < 16 && n < 16 && HexDigit(m) == HexDigit(n)
    ensures m == n
  {}

  lemma ParseHexOfHex(n: nat, max: nat)
    requires n <= max
    ensures ParseUnsigned(Hex(n), 16, max) == Some(n)
  {
    assert DigitValue(43, 16).None?;
  }

  // ------------------------------------------------------- lexicographic order

  /** `Ord` on byte strings. */
  predicate LexLeq(a: bytes, b: bytes) {
    a == [] || (b != [] && (a[0] < b[0] || (a[0] == b[0] && LexLeq(a[1..], b[1..]))))
  }

  lemma {:induction false} LexTotal(a: bytes, b: bytes)
    ensures LexLeq(a, b) || LexLeq(b, a)
  {
    if a != [] && b != [] { LexTotal(a[1..], b[1..]); }
  }

  lemma {:induction false} LexAntisymmetric(a: bytes, b: bytes)
    requires LexLeq(a, b) && LexLeq(b, a)
    ensures a == b
  {
    if a != [] {
      LexAntisymmetric(a[1..], b[1..]);
      assert a == [a[0]] + a[1..] && b == [b[0]] + b[1..];
    }
  }

  lemma {:induction false} LexTransitive(a: bytes, b: bytes, c: bytes)
    requires LexLeq(a, b) && LexLeq(b, c)
    ensures LexLeq(a, c)
  {
    if a != [] && a[0] == b[0] == c[0] { LexTransitive(a[1..], b[1..], c[1..]); }
  }

  /** `a` comes before `b`: it is a proper prefix, or smaller at the first difference. */
  predicate BeforeAt(a: bytes, b: bytes, k: nat) {
    && k <= |a| && k < |b| && a[..k] == b[..k]
    && (k == |a| || a[k] < b[k])
  }

  ghost predicate Before(a: bytes, b: bytes) { exists k :: BeforeAt(a, b, k) }

  /** The order is bytewise. */
  lemma {:induction false} LexIsBytewise(a: bytes, b: bytes)
    ensures LexLeq(a, b) <==> a == b || Before(a, b)
  {
    if a == [] {
      assert b == [] || BeforeAt(a, b, 0);
    } else if b != [] {
      if a[0] == b[0] {
        LexIsBytewise(a[1..], b[1..]);
        assert a == [a[0]] + a[1..] && b == [b[0]] + b[1..];
        if Before(a[1..], b[1..]) {
          var k: nat :| BeforeAt(a[1..], b[1..], k);
          assert a[..k + 1] == [a[0]] + a[1..][..k] && b[..k + 1] == [b[0]] + b[1..][..k];
          assert BeforeAt(a, b, k + 1);
        }
        if Before(a, b) {
          var k: nat :| BeforeAt(a, b, k);
          assert k > 0;
          assert a[1..][..k - 1] == a[..k][1..] && b[1..][..k - 1] == b[..k][1..];
          assert BeforeAt(a[1..], b[1..], k - 1);
        }
      } else {
        assert a[0] < b[0] ==> BeforeAt(a, b, 0);
        assert forall k: nat :: k > 0 && k <= |a| && k <= |b| && a[..k] == b[..k] ==> a[..k][0] == b[..k][0];
      }
    }
  }
}
