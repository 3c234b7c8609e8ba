/** The encoding byte by byte, against the character sets of sections 2.1 and 2.3 of RFC 3986. */
module PercentProofs {
  import opened Bytes
  import opened Percent

  const UPPER: string := "ABCDEFGHIJKLMNOPQRSTUVWXYZ"
  const LOWER: string := "abcdefghijklmnopqrstuvwxyz"
  const OTHERS: string := "0123456789-._~"
  const HEX: string := "0123456789ABCDEF"

  /** The byte is one of these characters. */
  ghost predicate OneOf(b: byte, text: string) { exists i :: 0 <= i < |text| && text[i] as int == b }

  /** The byte is an unreserved character. */
  ghost predicate UnreservedText(b: byte) { OneOf(b, UPPER) || OneOf(b, LOWER) || OneOf(b, OTHERS) }

  lemma LettersAre(i: nat)
    requires i < 26
    ensures |UPPER| == 26 && UPPER[i] as int == 65 + i && |LOWER| == 26 && LOWER[i] as int == 97 + i
  {
    assert i in {0, 1, 2, 3, 4, 5, 6, 7, 8, 9, 10, 11, 12, 13, 14, 15, 16, 17, 18, 19, 20, 21, 22, 23, 24, 25};
  }

  /** Letters, digits, '-', '.', '_' and '~' are unreserved, and nothing else. */
  lemma UnreservedCharacters(b: byte)
    ensures Unreserved(b) <==> UnreservedText(b)
  {
    if 65 <= b <= 90 { LettersAre(b - 65); }
    if 97 <= b <= 122 { LettersAre(b - 97); }
    assert |OTHERS| == 14 && forall i :: 0 <= i < 10 ==> OTHERS[i] as int == 48 + i;
    assert OTHERS[10] == '-' && OTHERS[11] == '.' && OTHERS[12] == '_' && OTHERS[13] == '~';
    assert 48 <= b <= 57 ==> OTHERS[b - 48] as int == b;
    if OneOf(b, UPPER) {
      var i :| 0 <= i < |UPPER| && UPPER[i] as int == b;
      LettersAre(i);
    }
    if OneOf(b, LOWER) {
      var i :| 0 <= i < |LOWER| && LOWER[i] as int == b;
      LettersAre(i);
    }
    if OneOf(b, OTHERS) {
      var i :| 0 <= i < |OTHERS| && OTHERS[i] as int == b;
      assert i < 10 || i == 10 || i == 11 || i == 12 || i == 13;
    }
  }

  /** The escape of a byte is '%' and its two digits in upper case. */
  lemma EscapeText(b: byte)
    ensures Escape(b) == ['%' as int, HEX[b / 16] as int, HEX[b % 16] as int]
  {
    assert |HEX| == 16 && forall n :: 0 <= n < 16 ==> HEX[n] as int == if n < 10 then 48 + n else 55 + n;
  }

  /** Encoding goes byte by byte: unreserved bytes stay, every other byte becomes its escape. */
  lemma EncodeByte(b: byte, rest: bytes)
    ensures Encode([b] + rest) ==
              (if UnreservedText(b) then [b]
               else ['%' as int, HEX[b / 16] as int, HEX[b % 16] as int]) + Encode(rest)
  {
    hide Escape, Unreserved, UnreservedText;
    UnreservedCharacters(b);
    EscapeText(b);
    assert ([b] + rest)[1..] == rest;
  }

  /** In a path slashes stay too, and a '%' that starts an escape is not escaped again. */
  lemma CanonicalByte(b: byte, rest: bytes)
    requires !Escaped([b] + rest)
    ensures CanonicalUri([b] + rest) ==
              (if UnreservedText(b) || b == '/' as int then [b]
               else ['%' as int, HEX[b / 16] as int, HEX[b % 16] as int]) + CanonicalUri(rest)
  {
    hide Escape, Unreserved, UnreservedText, Escaped;
    UnreservedCharacters(b);
    EscapeText(b);
    assert ([b] + rest)[1..] == rest;
  }

  /** An escape is read in upper and in lower case, and comes out in upper case. */
  lemma EscapesInEitherCase(b: byte, rest: bytes)
    ensures Decode(['%' as int, HexDigit(b / 16), HexDigit(b % 16)] + rest) == [b] + Decode(rest)
    ensures Decode(Escape(b) + rest) == [b] + Decode(rest)
    ensures CanonicalUri(['%' as int, HexDigit(b / 16), HexDigit(b % 16)] + rest) == Escape(b) + CanonicalUri(rest)
    ensures CanonicalUri(Escape(b) + rest) == Escape(b) + CanonicalUri(rest)
  {
    var low: bytes := ['%' as int, HexDigit(b / 16), HexDigit(b % 16)];
    assert (low + rest)[3..] == rest && (Escape(b) + rest)[3..] == rest;
    assert Escaped(low + rest) && EscapeValue(low + rest) == b;
    assert Escaped(Escape(b) + rest) && EscapeValue(Escape(b) + rest) == b;
    assert UpperByte(HexDigit(b / 16)) == UpperHex(b / 16) && UpperByte(HexDigit(b % 16)) == UpperHex(b % 16);
    assert UpperByte(UpperHex(b / 16)) == UpperHex(b / 16) && UpperByte(UpperHex(b % 16)) == UpperHex(b % 16);
  }

  /** A '%' without two hexadecimal digits after it stands for itself. */
  lemma StrayPercent(rest: bytes)
    requires |rest| < 2 || !IsHex(rest[0]) || !IsHex(rest[1])
    ensures Decode(['%' as int] + rest) == ['%' as int] + Decode(rest)
  {
    assert (['%' as int] + rest)[1..] == rest;
  }
}
