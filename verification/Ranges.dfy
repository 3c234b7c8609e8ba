/** Byte ranges (src/handlers/get_object.rs; section 14.1.2 of RFC 9110). */
module Ranges {
  import opened Bytes
  import opened Checksums

  datatype ByteRange = ByteRange(start: nat, end: nat)

  datatype RangeError = RangeNotAscii | NotBytes | Multiple | NoDash | BadNumber | Unsatisfiable

  const DASH: byte := 45
  const PREFIX: bytes := Ascii("bytes=")

  function ParseNumber(s: bytes): Option<nat> { ParseUnsigned(s, 10, U64_MAX) }

  /** The range `start-end`, with either end possibly left out, of an object of `size` bytes. */
  function ResolveRange(start: bytes, end: bytes, size: nat): (r: Result<ByteRange, RangeError>)
    ensures r.Ok? ==> r.value.start <= r.value.end < size
  {
    if size == 0 then Err(Unsatisfiable)
    else if start != [] && end != [] then
      match (ParseNumber(start), ParseNumber(end))
      case (Some(a), Some(b)) =>
        if a > b || a >= size then Err(Unsatisfiable) else Ok(ByteRange(a, if b < size - 1 then b else size - 1))
      case _ => Err(BadNumber)
    else if start != [] then
      match ParseNumber(start)
      case None => Err(BadNumber)
      case Some(a) => if a >= size then Err(Unsatisfiable) else Ok(ByteRange(a, size - 1))
    else if end != [] then
      match ParseNumber(end)
      case None => Err(BadNumber)
      case Some(n) => if n == 0 then Err(Unsatisfiable) else Ok(ByteRange(if n < size then size - n else 0, size - 1))
    else Err(Unsatisfiable)
  }

  /** `parse_range_header`: None when the request has no Range. Every accepted range lies in the object. */
  function ParseRange(values: seq<bytes>, size: nat): (r: Result<Option<ByteRange>, RangeError>)
    ensures r.Ok? && r.value.Some? ==> r.value.value.start <= r.value.value.end < size
  {
    if values == [] then Ok(None)
    else if !VisibleAscii(values[0]) then Err(RangeNotAscii)
    else if !(PREFIX <= values[0]) then Err(NotBytes)
    else
      var range := values[0][|PREFIX|..];
      if 44 in range then Err(Multiple)
      else match SplitOnce(range, DASH)
        case None => Err(NoDash)
        case Some((start, end)) =>
          match ResolveRange(start, end, size) case Err(e) => Err(e) case Ok(r) => Ok(Some(r))
  }

  function Length(r: ByteRange): nat
    requires r.start <= r.end
  {
    r.end - r.start + 1
  }

  /** The bytes of a file from `start` up to `end`, as far as the file goes. */
  function Slice(file: bytes, start: nat, end: nat): bytes
    requires start <= end
  {
    if |file| <= start then [] else if |file| <= end then file[start..] else file[start..end]
  }

  /**
    Streaming a range: seek, then reads of at most a buffer, never past the remaining
    count. Whatever the buffer and the reads, the body is the slice, as long as the
    Content-Length says unless the file has been shortened. `fails` says which reads
    fail; None only when one does.
  */
  method StreamRange(file: bytes, range: ByteRange, bufferSize: BufferSize, fails: nat -> bool)
    returns (body: Option<bytes>)
    requires range.start <= range.end
    ensures body.None? ==> exists i :: 0 <= i < Length(range) && fails(i)
    ensures body.Some? ==> body.value == Slice(file, range.start, range.end + 1)
    ensures body.Some? ==> (|body.value| == Length(range) <==> range.end < |file|)
  {
    var out: bytes := [];
    var position := range.start;
    var remaining := Length(range);
    var count := 0;
    while remaining > 0
      invariant 0 <= remaining && position + remaining == range.end + 1 && range.start <= position
      invariant out == Slice(file, range.start, position) && count <= position - range.start
      invariant position == range.start || position <= |file|
      decreases remaining
    {
      var limit := if remaining < bufferSize then remaining else bufferSize;
      if fails(count) { return None; }
      count := count + 1;
      if |file| <= position { return Some(out); }
      var read: nat :| 1 <= read <= limit && read <= |file| - position;
      assert file[range.start..position + read] == file[range.start..position] + file[position..position + read];
      out := out + file[position..position + read];
      position := position + read;
      remaining := remaining - read;
    }
    body := Some(out);
  }

  // ------------------------------------------------------------ ranges as requested

  lemma DecimalReadsBack(n: nat)
    requires n <= U64_MAX
    ensures Decimal(n) != [] && ParseNumber(Decimal(n)) == Some(n)
    ensures forall i :: 0 <= i < |Decimal(n)| ==> 48 <= Decimal(n)[i] <= 57
  {
    DecimalDigits(n);
  }

  /** The header a client sends for bytes a to b. */
  function RangeHeader(a: nat, b: nat): bytes { PREFIX + (Decimal(a) + [DASH] + Decimal(b)) }

  /** Asking for bytes a to b of an object that has them yields exactly that range. */
  lemma RequestedRangeIsParsed(a: nat, b: nat, size: nat)
    requires a <= b < size <= U64_MAX
    ensures ParseRange([RangeHeader(a, b)], size) == Ok(Some(ByteRange(a, b)))
  {
    NumberedRange(a, b, size);
  }

  /** Two numbers are clipped to the object, and refused when they start past it or end before they start. */
  lemma NumberedRange(a: nat, b: nat, size: nat)
    requires a <= U64_MAX && b <= U64_MAX && 0 < size
    ensures ParseRange([RangeHeader(a, b)], size) ==
              if a <= b && a < size then Ok(Some(ByteRange(a, if b < size then b else size - 1)))
              else Err(Unsatisfiable)
  {
    DecimalDigits(a);
    DecimalDigits(b);
    RangeHeaderSplits(Decimal(a), Decimal(b));
    hide Decimal;
    DecimalReadsBack(a);
    DecimalReadsBack(b);
  }

  /** `bytes=start-` goes to the end of the object. */
  lemma OpenRange(a: nat, size: nat)
    requires a <= U64_MAX && 0 < size
    ensures ParseRange([PREFIX + (Decimal(a) + [DASH] + [])], size) ==
              if a < size then Ok(Some(ByteRange(a, size - 1))) else Err(Unsatisfiable)
  {
    DecimalDigits(a);
    RangeHeaderSplits(Decimal(a), []);
    hide Decimal;
    DecimalReadsBack(a);
  }

  /** `bytes=-n` is the last n bytes, or all of them. */
  lemma SuffixRange(n: nat, size: nat)
    requires n <= U64_MAX && 0 < size
    ensures ParseRange([PREFIX + ([] + [DASH] + Decimal(n))], size) ==
              if n == 0 then Err(Unsatisfiable)
              else Ok(Some(ByteRange(if n < size then size - n else 0, size - 1)))
  {
    DecimalDigits(n);
    RangeHeaderSplits([], Decimal(n));
    hide Decimal;
    DecimalReadsBack(n);
  }

  /** No range without a header, and none of an empty object. */
  lemma NoRange(a: nat, b: nat, size: nat)
    requires a <= U64_MAX && b <= U64_MAX
    ensures ParseRange([], size) == Ok(None)
    ensures ParseRange([RangeHeader(a, b)], 0) == Err(Unsatisfiable)
  {
    DecimalDigits(a);
    DecimalDigits(b);
    RangeHeaderSplits(Decimal(a), Decimal(b));
    hide Decimal;
  }

  predicate Digits(s: bytes) { forall i :: 0 <= i < |s| ==> 48 <= s[i] <= 57 }

  lemma RangeHeaderSplits(start: bytes, end: bytes)
    requires Digits(start) && Digits(end)
    ensures var text := start + [DASH] + end; var h := PREFIX + text;
            && VisibleAscii(h) && |h| >= |PREFIX| && h[..|PREFIX|] == PREFIX && h[|PREFIX|..] == text
            && 44 !in text && SplitOnce(text, DASH) == Some((start, end))
  {
    var text := start + [DASH] + end;
    var h := PREFIX + text;
    assert VisibleAscii(PREFIX) && VisibleAscii(text);
    hide Ascii;
    assert h[..|PREFIX|] == PREFIX && h[|PREFIX|..] == text;
    SplitOnceAt(start, DASH, end);
  }

  /** A suffix range is the end of the object, all of it when the suffix is longer. */
  lemma SuffixRangeIsTheEnd(n: nat, data: bytes)
    requires 0 < n <= U64_MAX && 0 < |data|
    ensures ResolveRange([], Decimal(n), |data|).Ok?
    ensures var r := ResolveRange([], Decimal(n), |data|).value;
            r.end == |data| - 1 && data[r.start..r.end + 1] == (if n < |data| then data[|data| - n..] else data)
  {
    hide Decimal;
    DecimalReadsBack(n);
  }

  // -------------------------------------------------------------------- reassembly

  /** Ascending cut points: consecutive ranges covering `from` to `to`. */
  predicate Cuts(cuts: seq<nat>, from: nat, to: nat) {
    if cuts == [] then from == to else from < cuts[0] <= to && Cuts(cuts[1..], cuts[0], to)
  }

  /** What the ranges between consecutive cuts return, one after the other. */
  function Fetched(data: bytes, from: nat, cuts: seq<nat>): bytes
    requires Cuts(cuts, from, |data|)
    decreases |cuts|
  {
    if cuts == [] then []
    else
      (match ParseRange([RangeHeader(from, cuts[0] - 1)], |data|)
       case Ok(Some(r)) => data[r.start..r.end + 1]
       case _ => [])
      + Fetched(data, cuts[0], cuts[1..])
  }

  /** Fetching an object by any partition into ranges and concatenating gives the object. */
  lemma {:induction false} RangesReassemble(data: bytes, from: nat, cuts: seq<nat>)
    requires from <= |data| <= U64_MAX && Cuts(cuts, from, |data|)
    ensures Fetched(data, from, cuts) == data[from..]
    decreases |cuts|
  {
    hide ParseRange, RangeHeader;
    if cuts != [] {
      RequestedRangeIsParsed(from, cuts[0] - 1, |data|);
      RangesReassemble(data, cuts[0], cuts[1..]);
      assert data[from..] == data[from..cuts[0]] + data[cuts[0]..];
    }
  }
}
