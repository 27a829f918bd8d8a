/** The pure parts of the movie-catalogue client: the media-type tag, the
    poster-image URL builder, and the decisions `searchMulti` takes around
    its one HTTP request (key check, blank query, result filter). The
    request itself is an input: the response it would receive. */
module Tmdb {
  import opened Wrappers

  datatype MediaType = Movie | Tv

  function MediaName(m: MediaType): string
  {
    match m
    case Movie => "movie"
    case Tv => "tv"
  }

  /** `s === "movie" || s === "tv"`, as the title screen reads its route
      parameter and the search reads each result's `media_type`. */
  function ParseMediaType(s: Option<string>): (r: Option<MediaType>)
    ensures r.Some? ==> s == Some(MediaName(r.value))
    ensures r.None? ==> forall m :: s != Some(MediaName(m))
  {
    if s == Some("movie") then Some(Movie)
    else if s == Some("tv") then Some(Tv)
    else None
  }

  // ---------------------------------------------------------------------
  // Poster URLs

  /** The three image widths the builder accepts. */
  datatype PosterSize = W185 | W342 | W500

  const DefaultPosterSize: PosterSize := W342

  const ImageBase: string := "https://image.tmdb.org/t/p/"

  function SizeName(s: PosterSize): (r: string)
    ensures |r| == 4
  {
    match s
    case W185 => "w185"
    case W342 => "w342"
    case W500 => "w500"
  }

  /** The size parameter's accepted values: "w185", "w342" and "w500". */
  function ParseSize(s: string): (r: Option<PosterSize>)
    ensures r.Some? ==> SizeName(r.value) == s
    ensures r.None? ==> forall z :: SizeName(z) != s
  {
    if s == "w185" then Some(W185)
    else if s == "w342" then Some(W342)
    else if s == "w500" then Some(W500)
    else None
  }

  /** `posterUrl(path, size = "w342")`: no URL for a missing or empty
      path; otherwise the image base, the width and the path, in that
      order, recoverable from the URL. */
  function PosterUrl(path: Option<string>, size: PosterSize := DefaultPosterSize): (r: Option<string>)
    ensures r.None? <==> path.None? || path.value == ""
    ensures r.Some? ==> ParsePosterUrl(r.value) == Some((path.value, size))
  {
    if path.None? || path.value == "" then None
    else
      var url := ImageBase + SizeName(size) + path.value;
      assert url[..|ImageBase|] == ImageBase;
      assert url[|ImageBase|..|ImageBase| + 4] == SizeName(size);
      assert url[|ImageBase| + 4..] == path.value;
      assert ParseSize(SizeName(size)) == Some(size);
      Some(url)
  }

  /** Reads a poster URL back into its path and width. */
  function ParsePosterUrl(url: string): Option<(string, PosterSize)>
  {
    var n := |ImageBase|;
    if |url| <= n + 4 || url[..n] != ImageBase then None
    else match ParseSize(url[n..n + 4])
      case None => None
      case Some(size) => Some((url[n + 4..], size))
  }

  /** Different (non-empty path, width) pairs never share a URL. */
  lemma PosterUrlInjective(p1: string, s1: PosterSize, p2: string, s2: PosterSize)
    requires p1 != "" && p2 != ""
    requires PosterUrl(Some(p1), s1) == PosterUrl(Some(p2), s2)
    ensures p1 == p2 && s1 == s2
  {
    assert ParsePosterUrl(PosterUrl(Some(p1), s1).value) == Some((p1, s1));
  }

  // ---------------------------------------------------------------------
  // String.prototype.trim

  /** The characters ECMAScript's `trim` removes: WhiteSpace and
      LineTerminator code points (section 12.2 and 12.3 of ECMA-262). */
  predicate IsJsSpace(c: char)
  {
    var n := c as int;
    || 0x09 <= n <= 0x0D  // tab, line feed, vertical tab, form feed, carriage return
    || n == 0x20 || n == 0xA0 || n == 0x1680 || 0x2000 <= n <= 0x200A
    || n == 0x2028 || n == 0x2029 || n == 0x202F || n == 0x205F || n == 0x3000 || n == 0xFEFF
  }

  /** Every character of s is a space of the class `sp`. */
  predicate AllIn(s: string, sp: char -> bool)
  {
    forall i :: 0 <= i < |s| ==> sp(s[i])
  }

  predicate AllSpace(s: string)
  {
    AllIn(s, IsJsSpace)
  }

  /** The first position at or after i that is not of class `sp`. */
  function SkipForward(s: string, sp: char -> bool, i: nat): (j: nat)
    requires i <= |s|
    ensures i <= j <= |s|
    ensures forall k :: i <= k < j ==> sp(s[k])
    ensures j < |s| ==> !sp(s[j])
    decreases |s| - i
  {
    if i == |s| || !sp(s[i]) then i else SkipForward(s, sp, i + 1)
  }

  /** The end of s[lo..j] once characters of class `sp` are dropped from
      its back. */
  function SkipBackward(s: string, sp: char -> bool, lo: nat, j: nat): (e: nat)
    requires lo <= j <= |s|
    ensures lo <= e <= j
    ensures forall k :: e <= k < j ==> sp(s[k])
    ensures e > lo ==> !sp(s[e - 1])
    decreases j
  {
    if j == lo || !sp(s[j - 1]) then j else SkipBackward(s, sp, lo, j - 1)
  }

  /** s[lo..hi] with only characters of class `sp` outside it, and none at
      either of its ends. */
  predicate TrimmedAt(s: string, sp: char -> bool, lo: int, hi: int)
  {
    && 0 <= lo <= hi <= |s|
    && (forall k :: 0 <= k < lo ==> sp(s[k]))
    && (forall k :: hi <= k < |s| ==> sp(s[k]))
    && (lo < hi ==> !sp(s[lo]) && !sp(s[hi - 1]))
  }

  /** Trimming both ends with the class `sp`: an infix of s with only such
      characters cut on either side and none left at its ends; it is empty
      exactly when s consists of them. */
  function TrimWith(s: string, sp: char -> bool): (r: string)
    ensures exists lo, hi :: TrimmedAt(s, sp, lo, hi) && r == s[lo..hi]
    ensures |r| == 0 <==> AllIn(s, sp)
  {
    var lo := SkipForward(s, sp, 0);
    var hi := SkipBackward(s, sp, lo, |s|);
    TrimmedAll(s, sp, lo, hi);
    s[lo..hi]
  }

  lemma TrimmedAll(s: string, sp: char -> bool, lo: int, hi: int)
    requires TrimmedAt(s, sp, lo, hi)
    ensures lo == hi <==> AllIn(s, sp)
  {
    if lo < hi {
      assert !sp(s[lo]);
    }
  }

  /** `s.trim()`: trimming with JavaScript's whitespace class. */
  function Trim(s: string): (r: string)
    ensures exists lo, hi :: TrimmedAt(s, IsJsSpace, lo, hi) && r == s[lo..hi]
    ensures |r| > 0 ==> !IsJsSpace(r[0]) && !IsJsSpace(r[|r| - 1])
    ensures |r| == 0 <==> AllSpace(s)
  {
    TrimWith(s, IsJsSpace)
  }

  // ---------------------------------------------------------------------
  // searchMulti

  /** One element of the search response's `results` array, with the
      fields the client reads. */
  datatype SearchItem = SearchItem(
    id: int,
    mediaType: Option<string>,
    title: Option<string>,
    name: Option<string>,
    posterPath: Option<string>)

  /** The HTTP response: its `ok` flag, status, and the `results` field of
      the JSON body (absent when the body has none). */
  datatype Response = Response(ok: bool, status: int, results: Option<seq<SearchItem>>)

  datatype SearchError = MissingKey | HttpStatus(status: int)

  /** Whether a request was issued (and for which trimmed query) and what
      the call resolves to. */
  datatype Search = Search(request: Option<string>, outcome: Result<seq<SearchItem>, SearchError>)

  /** The API key is absent: undefined or the empty string. */
  predicate KeyMissing(apiKey: Option<string>)
  {
    apiKey.None? || apiKey.value == ""
  }

  predicate IsTitleItem(item: SearchItem)
  {
    ParseMediaType(item.mediaType).Some?
  }

  /** `results.filter(r => r.media_type === "movie" || r.media_type === "tv")`. */
  function FilterTitles(items: seq<SearchItem>): (r: seq<SearchItem>)
    ensures |r| <= |items|
    ensures forall i :: 0 <= i < |r| ==> IsTitleItem(r[i])
  {
    if |items| == 0 then []
    else
      var init, last := items[..|items| - 1], items[|items| - 1];
      assert items == init + [last];
      FilterTitles(init) + (if IsTitleItem(last) then [last] else [])
  }

  /** The filter keeps every movie and TV result, as often as it occurs,
      and nothing else. */
  lemma {:induction false} FilterTitlesCounts(items: seq<SearchItem>, x: SearchItem)
    ensures multiset(FilterTitles(items))[x] == if IsTitleItem(x) then multiset(items)[x] else 0
  {
    if |items| > 0 {
      var init, last := items[..|items| - 1], items[|items| - 1];
      assert items == init + [last];
      FilterTitlesCounts(init, x);
    }
  }

  /** The filter keeps the results' relative order: it distributes over
      concatenation. */
  lemma {:induction false} FilterTitlesAppend(a: seq<SearchItem>, b: seq<SearchItem>)
    ensures FilterTitles(a + b) == FilterTitles(a) + FilterTitles(b)
    decreases |b|
  {
    if |b| == 0 {
      assert a + b == a;
    } else {
      var b', last := b[..|b| - 1], b[|b| - 1];
      assert (a + b)[..|a + b| - 1] == a + b';
      assert (a + b)[|a + b| - 1] == last;
      FilterTitlesAppend(a, b');
    }
  }

  /** A list of titles passes the filter unchanged, so filtering twice is
      filtering once. */
  lemma {:induction false} FilterTitlesKeepsTitles(items: seq<SearchItem>)
    requires forall i :: 0 <= i < |items| ==> IsTitleItem(items[i])
    ensures FilterTitles(items) == items
  {
    if |items| > 0 {
      var init := items[..|items| - 1];
      FilterTitlesKeepsTitles(init);
      assert items == init + [items[|items| - 1]];
    }
  }

  /** `searchMulti(query)`: the key check comes first (a missing key fails
      even for a blank query); with a key, a query that trims to nothing
      resolves to no results without a request; otherwise the trimmed
      query is sent, a non-success status fails, and a success keeps the
      movie and TV results in their original order. */
  function SearchMulti(apiKey: Option<string>, query: string, response: Response): (r: Search)
    ensures r.outcome == Err(MissingKey) <==> KeyMissing(apiKey)
    ensures r.request.Some? <==> !KeyMissing(apiKey) && !AllSpace(query)
    ensures r.request.Some? ==> r.request.value == Trim(query) && r.request.value != ""
    ensures !KeyMissing(apiKey) && AllSpace(query) ==> r.outcome == Ok([])
    ensures r.request.Some? && !response.ok ==> r.outcome == Err(HttpStatus(response.status))
    ensures r.request.Some? && response.ok ==>
      r.outcome.Ok? && r.outcome.value == FilterTitles(if response.results.Some? then response.results.value else [])
  {
    if KeyMissing(apiKey) then Search(None, Err(MissingKey))
    else
      var q := Trim(query);
      if q == "" then Search(None, Ok([]))
      else if !response.ok then Search(Some(q), Err(HttpStatus(response.status)))
      else
        var results := if response.results.Some? then response.results.value else [];
        Search(Some(q), Ok(FilterTitles(results)))
  }
}
