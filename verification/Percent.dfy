/**
  Percent-encoding as SigV4 canonicalisation uses it (src/auth.rs), against the decoding
  that request routing uses (sections 2.1 and 2.3 of RFC 3986).
*/
module Percent {
  import opened Bytes

  const PERCENT: byte := 37
  const SLASH: byte := 47

  predicate IsHex(b: byte) { DigitValue(b, 16).Some? }

  predicate Unreserved(b: byte) {
    65 <= b <= 90 || 97 <= b <= 122 || 48 <= b <= 57 || b == 45 || b == 46 || b == 95 || b == 126
  }

  function UpperByte(b: byte): byte { if 97 <= b <= 122 then b - 32 else b }

  function UpperHex(n: nat): (b: byte)
    requires n < 16
    ensures DigitValue(b, 16) == Some(n) && UpperByte(b) == b
  {
    if n < 10 then 48 + n else 55 + n
  }

  /** `%XX` in upper case. */
  function Escape(b: byte): bytes { [PERCENT, UpperHex(b / 16), UpperHex(b % 16)] }

  /** The text starts with a well-formed escape. */
  predicate Escaped(s: bytes) { |s| >= 3 && s[0] == PERCENT && IsHex(s[1]) && IsHex(s[2]) }

  function EscapeValue(s: bytes): byte
    requires Escaped(s)
  {
    16 * DigitValue(s[1], 16).value + DigitValue(s[2], 16).value
  }

  /** `percent_decode_str`: escapes become bytes, a stray '%' stays. */
  function Decode(s: bytes): bytes {
    if s == [] then []
    else if Escaped(s) then [EscapeValue(s)] + Decode(s[3..])
    else [s[0]] + Decode(s[1..])
  }

  /** `aws_uri_encode` with slashes encoded. */
  function Encode(s: bytes): bytes {
    if s == [] then []
    else (if Unreserved(s[0]) then [s[0]] else Escape(s[0])) + Encode(s[1..])
  }

  function CanonicalUri(s: bytes): bytes {
    if s == [] then []
    else if Unreserved(s[0]) || s[0] == SLASH then [s[0]] + CanonicalUri(s[1..])
    else if Escaped(s) then [PERCENT, UpperByte(s[1]), UpperByte(s[2])] + CanonicalUri(s[3..])
    else Escape(s[0]) + CanonicalUri(s[1..])
  }

  /** One turn of the loop: what it emits, and where it goes on. */
  method EncodeHead(path: bytes, index: nat) returns (piece: bytes, next: nat)
    requires index < |path|
    ensures index < next <= |path|
    ensures CanonicalUri(path[index..]) == piece + CanonicalUri(path[next..])
  {
    ghost var rest := path[index..];
    var b := path[index];
    next := index + 1;
    assert rest[1..] == path[index + 1..];
    if Unreserved(b) || b == SLASH {
      piece := [b];
    } else if b == PERCENT && index + 2 < |path| && IsHex(path[index + 1]) && IsHex(path[index + 2]) {
      piece := [PERCENT, UpperByte(path[index + 1]), UpperByte(path[index + 2])];
      next := index + 3;
      assert rest[3..] == path[next..];
    } else {
      piece := Escape(b);
    }
  }

  /** The loop over the path computes `CanonicalUri`. */
  method ComputeCanonicalUri(path: bytes) returns (encoded: bytes)
    ensures encoded == CanonicalUri(path)
  {
    encoded := [];
    var index := 0;
    assert path[0..] == path;
    while index < |path|
      invariant index <= |path|
      invariant CanonicalUri(path) == encoded + CanonicalUri(path[index..])
    {
      var piece, next := EncodeHead(path, index);
      hide CanonicalUri;
      assert encoded + (piece + CanonicalUri(path[next..])) == (encoded + piece) + CanonicalUri(path[next..]);
      encoded := encoded + piece;
      index := next;
    }
  }

  // ------------------------------------------------------------ decoding is undone

  lemma DecodeEscape(b: byte, rest: bytes)
    ensures Decode(Escape(b) + rest) == [b] + Decode(rest)
  {
    var s := Escape(b) + rest;
    assert Escaped(s) && EscapeValue(s) == b && s[3..] == rest;
  }

  lemma DecodeLiteral(b: byte, rest: bytes)
    requires b != PERCENT
    ensures Decode([b] + rest) == [b] + Decode(rest)
  {
    assert ([b] + rest)[1..] == rest;
  }

  lemma DecodeUppered(s: bytes, rest: bytes)
    requires Escaped(s)
    ensures Decode([PERCENT, UpperByte(s[1]), UpperByte(s[2])] + rest) == [EscapeValue(s)] + Decode(rest)
  {
    var u := [PERCENT, UpperByte(s[1]), UpperByte(s[2])] + rest;
    assert Escaped(u) && EscapeValue(u) == EscapeValue(s) && u[3..] == rest;
  }

  /** Encoding is undone by decoding. */
  lemma {:induction false} DecodeOfEncode(s: bytes)
    ensures Decode(Encode(s)) == s
  {
    if s != [] {
      DecodeOfEncode(s[1..]);
      if Unreserved(s[0]) { DecodeLiteral(s[0], Encode(s[1..])); } else { DecodeEscape(s[0], Encode(s[1..])); }
      assert s == [s[0]] + s[1..];
    }
  }

  /** Canonicalising a path does not change what it decodes to. */
  lemma {:induction false} CanonicalUriDecodesTheSame(s: bytes)
    ensures Decode(CanonicalUri(s)) == Decode(s)
  {
    if s == [] {
    } else if Unreserved(s[0]) || s[0] == SLASH {
      CanonicalUriDecodesTheSame(s[1..]);
      DecodeLiteral(s[0], CanonicalUri(s[1..]));
    } else if Escaped(s) {
      CanonicalUriDecodesTheSame(s[3..]);
      DecodeUppered(s, CanonicalUri(s[3..]));
    } else {
      CanonicalUriDecodesTheSame(s[1..]);
      DecodeEscape(s[0], CanonicalUri(s[1..]));
    }
  }

  // -------------------------------------------------------------- structure is kept

  lemma CanonicalOfEscaped(u: bytes, rest: bytes)
    requires |u| == 3 && Escaped(u) && UpperByte(u[1]) == u[1] && UpperByte(u[2]) == u[2]
    ensures CanonicalUri(u + rest) == u + CanonicalUri(rest)
  {
    var s := u + rest;
    assert Escaped(s) && s[3..] == rest && !Unreserved(s[0]);
    assert [PERCENT, UpperByte(s[1]), UpperByte(s[2])] == u;
  }

  /** A canonical path is its own canonical form. */
  lemma {:induction false} CanonicalUriIsIdempotent(s: bytes)
    ensures CanonicalUri(CanonicalUri(s)) == CanonicalUri(s)
  {
    if s == [] {
    } else if Unreserved(s[0]) || s[0] == SLASH {
      CanonicalUriIsIdempotent(s[1..]);
      assert ([s[0]] + CanonicalUri(s[1..]))[1..] == CanonicalUri(s[1..]);
    } else if Escaped(s) {
      CanonicalUriIsIdempotent(s[3..]);
      CanonicalOfEscaped([PERCENT, UpperByte(s[1]), UpperByte(s[2])], CanonicalUri(s[3..]));
    } else {
      CanonicalUriIsIdempotent(s[1..]);
      CanonicalOfEscaped(Escape(s[0]), CanonicalUri(s[1..]));
    }
  }

  /** No escape reaches across a slash, so canonicalisation works segment by segment. */
  lemma {:induction false} CanonicalUriDistributesOverSlash(a: bytes, b: bytes)
    ensures CanonicalUri(a + [SLASH] + b) == CanonicalUri(a) + [SLASH] + CanonicalUri(b)
  {
    var s := a + [SLASH] + b;
    if a == [] {
      assert s[1..] == b;
    } else {
      assert s[1..] == a[1..] + [SLASH] + b;
      if Unreserved(a[0]) || a[0] == SLASH {
        CanonicalUriDistributesOverSlash(a[1..], b);
      } else if Escaped(a) {
        assert s[3..] == a[3..] + [SLASH] + b;
        CanonicalUriDistributesOverSlash(a[3..], b);
      } else {
        assert !Escaped(s);
        CanonicalUriDistributesOverSlash(a[1..], b);
      }
    }
  }

  lemma {:induction false} CanonicalUriAddsNoSlash(s: bytes)
    requires SLASH !in s
    ensures SLASH !in CanonicalUri(s)
  {
    if s != [] {
      CanonicalUriAddsNoSlash(s[1..]);
      if Escaped(s) { CanonicalUriAddsNoSlash(s[3..]); }
    }
  }

  lemma CanonicalUriOfNothing(s: bytes)
    ensures CanonicalUri(s) == [] <==> s == []
    ensures s != [] ==> (CanonicalUri(s)[0] == SLASH <==> s[0] == SLASH)
    ensures s != [] && s[0] == SLASH ==> CanonicalUri(s)[1..] == CanonicalUri(s[1..])
  {}

  /** The first slash of a path is the first slash of its canonical form. */
  lemma CanonicalUriSplits(s: bytes)
    ensures match SplitOnce(s, SLASH)
            case None => SplitOnce(CanonicalUri(s), SLASH) == None
            case Some((a, b)) => SplitOnce(CanonicalUri(s), SLASH) == Some((CanonicalUri(a), CanonicalUri(b)))
  {
    match SplitOnce(s, SLASH)
    case None => CanonicalUriAddsNoSlash(s);
    case Some((a, b)) =>
      CanonicalUriDistributesOverSlash(a, b);
      CanonicalUriAddsNoSlash(a);
      SplitOnceAt(CanonicalUri(a), SLASH, CanonicalUri(b));
  }
}
