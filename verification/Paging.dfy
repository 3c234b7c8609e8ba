/** ListParts pagination (src/handlers/multipart.rs). */
module Paging {
  import opened Bytes
  import opened Percent
  import opened Target
  import opened Query
  import opened Operations

  datatype PageRequest = PageRequest(maxParts: nat, marker: nat)

  datatype PageError = BadLookup(cause: DetectError) | BadMaxParts | BadMarker

  const MAX_PARTS_LIMIT: nat := 1000

  /** Accepted page sizes are 1 to 1000, larger ones being clipped; markers are 0 to 10000. */
  function ParsePageRequest(q: bytes): (r: Result<PageRequest, PageError>)
    ensures r.Ok? ==> 1 <= r.value.maxParts <= MAX_PARTS_LIMIT && r.value.marker <= 10000
  {
    match UniqueParam(q, Ascii("max-parts"))
    case Err(e) => Err(BadLookup(e))
    case Ok(size) =>
      var max := match size
        case None => Some(MAX_PARTS_LIMIT)
        case Some(v) => (match ParseUnsigned(v, 10, USIZE_MAX) case None => None case Some(n) =>
                           if n == 0 then None else Some(if n < MAX_PARTS_LIMIT then n else MAX_PARTS_LIMIT));
      if max.None? then Err(BadMaxParts)
      else match UniqueParam(q, Ascii("part-number-marker"))
        case Err(e) => Err(BadLookup(e))
        case Ok(None) => Ok(PageRequest(max.value, 0))
        case Ok(Some(v)) =>
          match ParseUnsigned(v, 10, 65535)
          case None => Err(BadMarker)
          case Some(m) => if m > 10000 then Err(BadMarker) else Ok(PageRequest(max.value, m))
  }

  function SizePiece(size: nat): bytes { Ascii("max-parts") + [EQUALS] + Decimal(size) }

  function MarkerPiece(marker: nat): bytes { Ascii("part-number-marker") + [EQUALS] + Decimal(marker) }

  /** The query that asks for a page of `size` parts after `marker`, either of which may be left to the server. */
  function PageQuery(size: Option<nat>, marker: Option<nat>): bytes {
    match (size, marker)
    case (None, None) => []
    case (Some(n), None) => SizePiece(n)
    case (None, Some(m)) => MarkerPiece(m)
    case (Some(n), Some(m)) => Join([SizePiece(n), MarkerPiece(m)], AMPERSAND)
  }

  lemma {:induction false} DecodePlain(s: bytes)
    requires PERCENT !in s
    ensures Decode(s) == s
  {
    if s != [] {
      DecodePlain(s[1..]);
      DecodeLiteral(s[0], s[1..]);
      assert s == [s[0]] + s[1..];
    }
  }

  /** A parameter with a plain name and a number for a value, read from its piece of the query. */
  lemma NumberedPiece(name: bytes, n: nat)
    requires forall i :: 0 <= i < |name| ==> 38 < name[i] < 0x80 && name[i] != EQUALS
    ensures var piece := name + [EQUALS] + Decimal(n); var (k, v) := RawPair(piece);
            AMPERSAND !in piece && DecodeText(k) == Some(name) && DecodeText(v) == Some(Decimal(n))
  {
    hide Decimal, Decode, Utf8Valid;
    DecimalDigits(n);
    SplitOnceAt(name, EQUALS, Decimal(n));
    DecodePlain(name);
    DecodePlain(Decimal(n));
    AsciiIsUtf8(name);
    AsciiIsUtf8(Decimal(n));
  }

  lemma DecimalParses(n: nat, max: nat)
    requires n <= max
    ensures ParseUnsigned(Decimal(n), 10, max) == Some(n)
  {
    hide Decimal;
    DecimalDigits(n);
  }

  /** What a lookup finds in one or two pieces. */
  lemma PageLookups(size: Option<nat>, marker: Option<nat>)
    ensures ValuesChecked(Split(PageQuery(size, marker), AMPERSAND), Ascii("max-parts")) ==
              Some(if size.Some? then [Decimal(size.value)] else [])
    ensures ValuesChecked(Split(PageQuery(size, marker), AMPERSAND), Ascii("part-number-marker")) ==
              Some(if marker.Some? then [Decimal(marker.value)] else [])
  {
    PlainPageNames();
    var maxParts, after := Ascii("max-parts"), Ascii("part-number-marker");
    hide Ascii, Decimal, RawPair, DecodeText, Split, Join;
    var a, b := SizePiece(if size.Some? then size.value else 0), MarkerPiece(if marker.Some? then marker.value else 0);
    NumberedPiece(maxParts, if size.Some? then size.value else 0);
    NumberedPiece(after, if marker.Some? then marker.value else 0);
    var both: seq<bytes>, first: seq<bytes>, last: seq<bytes>, none: seq<bytes> := [a, b], [a], [b], [];
    assert forall v: bytes :: [v] + none == [v];
    assert both[1..] == last && last[1..] == none && first[1..] == none;
    assert ValuesChecked(none, maxParts) == Some(none) && ValuesChecked(none, after) == Some(none);
    assert ValuesChecked(last, maxParts) == Some(none) && ValuesChecked(first, after) == Some(none);
    match (size, marker)
    case (None, None) =>
      NothingToLookUp(maxParts);
      NothingToLookUp(after);
    case (Some(n), None) => SplitOfJoin(first, AMPERSAND); JoinOne(a);
    case (None, Some(m)) => SplitOfJoin(last, AMPERSAND); JoinOne(b);
    case (Some(n), Some(m)) => SplitOfJoin(both, AMPERSAND);
  }

  lemma JoinOne(p: bytes)
    ensures Join([p], AMPERSAND) == p
  {}

  lemma PlainPageNames()
    ensures Ascii("max-parts") != [] && Ascii("part-number-marker") != []
    ensures Ascii("max-parts") != Ascii("part-number-marker")
    ensures forall i :: 0 <= i < 9 ==> 38 < Ascii("max-parts")[i] < 0x80 && Ascii("max-parts")[i] != EQUALS
    ensures forall i :: 0 <= i < 18 ==>
              38 < Ascii("part-number-marker")[i] < 0x80 && Ascii("part-number-marker")[i] != EQUALS
    ensures |Ascii("max-parts")| == 9 && |Ascii("part-number-marker")| == 18
  {}

  /** Asking for a page reads back as that page, clipped to the largest size; left out, they are 1000 and 0. */
  lemma PageQueryReadsBack(size: Option<nat>, marker: Option<nat>)
    requires size.Some? ==> 1 <= size.value <= USIZE_MAX
    requires marker.Some? ==> marker.value <= 10000
    ensures ParsePageRequest(PageQuery(size, marker)) == Ok(PageRequest(
              if size.Some? && size.value < 1000 then size.value else 1000,
              if marker.Some? then marker.value else 0))
  {
    PageLookups(size, marker);
    hide Ascii, Decimal, Split, ValuesChecked, PageQuery, ParseUnsigned;
    if size.Some? { DecimalParses(size.value, USIZE_MAX); }
    if marker.Some? { DecimalParses(marker.value, 65535); }
  }

  /** A size of zero and a marker past the last part number are refused. */
  lemma BadPagesAreRefused(marker: nat)
    requires 10000 < marker
    ensures ParsePageRequest(PageQuery(Some(0), None)) == Err(BadMaxParts)
    ensures ParsePageRequest(PageQuery(None, Some(marker))) == Err(BadMarker)
  {
    PageLookups(Some(0), None);
    PageLookups(None, Some(marker));
    hide Ascii, Split, ValuesChecked, PageQuery;
    DecimalDigits(0);
    DecimalDigits(marker);
    hide Decimal;
  }

  /** Part numbers in the order a BTreeMap yields them. */
  predicate StrictlyAscending(parts: seq<nat>) {
    forall i, j :: 0 <= i < j < |parts| ==> parts[i] < parts[j]
  }

  /** The parts after a marker. */
  function Above(parts: seq<nat>, marker: nat): (r: seq<nat>)
    ensures forall i :: 0 <= i < |r| ==> r[i] > marker
  {
    if parts == [] then []
    else if parts[0] > marker then [parts[0]] + Above(parts[1..], marker)
    else Above(parts[1..], marker)
  }

  datatype Page = Page(listed: seq<nat>, next: Option<nat>)

  /** Take one more than a page; truncated if it was there; the marker is the last listed. */
  function ListPage(parts: seq<nat>, request: PageRequest): Page {
    var after := Above(parts, request.marker);
    var matching := if |after| > request.maxParts + 1 then after[..request.maxParts + 1] else after;
    var truncated := |matching| > request.maxParts;
    var listed := if truncated then matching[..request.maxParts] else matching;
    Page(listed, if truncated && listed != [] then Some(listed[|listed| - 1]) else None)
  }

  lemma {:induction false} AboveKeepsBound(parts: seq<nat>, marker: nat, low: nat)
    requires forall i :: 0 <= i < |parts| ==> parts[i] > low
    ensures forall i :: 0 <= i < |Above(parts, marker)| ==> Above(parts, marker)[i] > low
    decreases |parts|
  {
    if parts != [] { AboveKeepsBound(parts[1..], marker, low); }
  }

  lemma {:induction false} AboveIsSuffix(parts: seq<nat>, marker: nat)
    requires StrictlyAscending(parts)
    ensures StrictlyAscending(Above(parts, marker))
    decreases |parts|
  {
    if parts != [] {
      AboveIsSuffix(parts[1..], marker);
      AboveKeepsBound(parts[1..], marker, parts[0]);
    }
  }

  lemma {:induction false} AboveEverything(parts: seq<nat>, marker: nat)
    requires forall i :: 0 <= i < |parts| ==> parts[i] > marker
    ensures Above(parts, marker) == parts
    decreases |parts|
  {
    if parts != [] {
      AboveEverything(parts[1..], marker);
      assert parts == [parts[0]] + parts[1..];
    }
  }

  lemma {:induction false} AboveNothing(parts: seq<nat>, marker: nat)
    requires forall i :: 0 <= i < |parts| ==> parts[i] <= marker
    ensures Above(parts, marker) == []
    decreases |parts|
  {
    if parts != [] { AboveNothing(parts[1..], marker); }
  }

  lemma {:induction false} AboveAppend(a: seq<nat>, b: seq<nat>, marker: nat)
    ensures Above(a + b, marker) == Above(a, marker) + Above(b, marker)
    decreases |a|
  {
    if a == [] {
      assert a + b == b;
    } else {
      AboveAppend(a[1..], b, marker);
      assert (a + b)[1..] == a[1..] + b && (a + b)[0] == a[0];
    }
  }

  lemma {:induction false} AboveTwice(parts: seq<nat>, low: nat, high: nat)
    requires low <= high
    ensures Above(Above(parts, low), high) == Above(parts, high)
    decreases |parts|
  {
    if parts != [] {
      AboveTwice(parts[1..], low, high);
      if parts[0] > low {
        assert ([parts[0]] + Above(parts[1..], low))[1..] == Above(parts[1..], low);
      }
    }
  }

  /** What lies above the k-th part after a marker is what follows it. */
  lemma AboveTheLast(parts: seq<nat>, marker: nat, k: nat)
    requires StrictlyAscending(parts) && 0 < k <= |Above(parts, marker)|
    ensures Above(parts, Above(parts, marker)[k - 1]) == Above(parts, marker)[k..]
  {
    hide Above;
    var after := Above(parts, marker);
    AboveIsSuffix(parts, marker);
    var m := after[k - 1];
    var head, tail := after[..k], after[k..];
    AboveTwice(parts, marker, m);
    AboveAppend(head, tail, m);
    assert after == head + tail;
    AboveNothing(head, m);
    AboveEverything(tail, m);
  }

  lemma PageIsPrefix(parts: seq<nat>, request: PageRequest)
    requires request.maxParts > 0
    ensures var page := ListPage(parts, request); var after := Above(parts, request.marker);
            if |after| > request.maxParts
            then page == Page(after[..request.maxParts], Some(after[request.maxParts - 1]))
            else page == Page(after, None)
  {
    hide Above;
  }

  /** Following the next marker continues exactly where the page stopped. */
  lemma NextPageContinues(parts: seq<nat>, request: PageRequest)
    requires StrictlyAscending(parts) && request.maxParts > 0
    ensures var page := ListPage(parts, request); var after := Above(parts, request.marker);
            && |page.listed| <= request.maxParts
            && (page.next.None? ==> page.listed == after)
            && (page.next.Some? ==>
                 && |page.listed| == request.maxParts
                 && page.next.value > request.marker
                 && after == page.listed + Above(parts, page.next.value)
                 && |Above(parts, page.next.value)| < |after|)
  {
    hide Above, ListPage, StrictlyAscending;
    PageIsPrefix(parts, request);
    var after := Above(parts, request.marker);
    if |after| > request.maxParts {
      AboveTheLast(parts, request.marker, request.maxParts);
      assert after == after[..request.maxParts] + after[request.maxParts..];
    }
  }

  /** Every page from a marker on, each request using the marker the page before returned. */
  function AllPages(parts: seq<nat>, request: PageRequest): seq<Page>
    requires StrictlyAscending(parts) && request.maxParts > 0
    decreases |Above(parts, request.marker)|
  {
    NextPageContinues(parts, request);
    var page := ListPage(parts, request);
    if page.next.None? then [page] else [page] + AllPages(parts, request.(marker := page.next.value))
  }

  function Listed(pages: seq<Page>): seq<nat> {
    if pages == [] then [] else pages[0].listed + Listed(pages[1..])
  }

  /** Full pages with a next marker, then one last page without. */
  predicate WellPaged(pages: seq<Page>, max: nat) {
    && pages != []
    && if |pages| == 1 then |pages[0].listed| <= max && pages[0].next.None?
       else |pages[0].listed| == max && pages[0].next.Some? && WellPaged(pages[1..], max)
  }

  lemma {:induction false} WellPagedMeans(pages: seq<Page>, max: nat, i: nat)
    requires WellPaged(pages, max) && i < |pages|
    ensures if i < |pages| - 1 then |pages[i].listed| == max && pages[i].next.Some?
            else |pages[i].listed| <= max && pages[i].next.None?
    decreases i
  {
    if i > 0 { WellPagedMeans(pages[1..], max, i - 1); }
  }

  lemma {:induction false} PagesCover(parts: seq<nat>, request: PageRequest)
    requires StrictlyAscending(parts) && request.maxParts > 0
    ensures Listed(AllPages(parts, request)) == Above(parts, request.marker)
    ensures WellPaged(AllPages(parts, request), request.maxParts)
    decreases |Above(parts, request.marker)|
  {
    NextPageContinues(parts, request);
    var page := ListPage(parts, request);
    var pages := AllPages(parts, request);
    hide ListPage, Above, StrictlyAscending;
    if page.next.None? {
      assert pages == [page] && pages[1..] == [];
      assert page.listed + [] == page.listed;
    } else {
      var later := AllPages(parts, request.(marker := page.next.value));
      PagesCover(parts, request.(marker := page.next.value));
      assert pages == [page] + later && pages[1..] == later;
    }
  }

  /**
    Paging is exact: from marker 0, following NextPartNumberMarker ends and yields every
    part once in ascending order, in pages of at most the requested size, all full but
    the last.
  */
  lemma PagingIsExact(parts: seq<nat>, maxParts: nat)
    requires StrictlyAscending(parts) && maxParts > 0 && forall i :: 0 <= i < |parts| ==> parts[i] >= 1
    ensures var pages := AllPages(parts, PageRequest(maxParts, 0));
            && Listed(pages) == parts
            && (forall i :: 0 <= i < |pages| ==> |pages[i].listed| <= maxParts)
            && (forall i :: 0 <= i < |pages| - 1 ==> |pages[i].listed| == maxParts)
  {
    hide AllPages, WellPaged, Above;
    PagesCover(parts, PageRequest(maxParts, 0));
    AboveEverything(parts, 0);
    var pages := AllPages(parts, PageRequest(maxParts, 0));
    forall i | 0 <= i < |pages|
      ensures |pages[i].listed| <= maxParts && (i < |pages| - 1 ==> |pages[i].listed| == maxParts)
    {
      WellPagedMeans(pages, maxParts, i);
    }
  }
}
