/**
 * The scraping core of app.py: building one listing record from a listing element,
 * `extract_items` with its session deduplication, `scroll_page`, the incremental
 * dataset merge `update_csv_with_data`, the dataset file name and the required-field
 * check of the grid-search request.
 */
module AppScraper {
  import opened Wrappers
  import opened PyStr
  import opened Keyed
  import opened Listings
  import opened Paging
  import opened CsvStore
  import opened Zoom

  // ---------------------------------------------------------------------------
  // One listing (app.py:43-101)
  // ---------------------------------------------------------------------------

  /** `.text.strip()`, or the sentinel when the element is missing. */
  function TextField(l: Lookup): (r: string)
    ensures !l.Found? ==> r == NA
    ensures Trimmed(r)
  {
    if l.Found? then Strip(l.value) else NA
  }

  /** The review count: parentheses removed, then stripped. */
  function ReviewsField(l: Lookup): (r: string)
    ensures !l.Found? ==> r == NA
    ensures Trimmed(r)
    ensures l.Found? ==> '(' !in r && ')' !in r
  {
    if l.Found? then
      var once := ReplaceChar(l.value, '(', "");
      var twice := ReplaceChar(once, ')', "");
      RemoveChar(l.value, '(');
      RemoveChar(once, ')');
      assert '(' !in twice by {
        assert multiset(twice)['('] == multiset(once)['('];
      }
      StripKeepsOut(twice, '(');
      StripKeepsOut(twice, ')');
      Strip(twice)
    else NA
  }

  /** Address and category: the middle dot removed, then stripped. */
  function DotlessField(l: Lookup): (r: string)
    ensures !l.Found? ==> r == NA
    ensures Trimmed(r)
    ensures l.Found? ==> MiddleDot !in r
  {
    if l.Found? then
      var removed := ReplaceChar(l.value, MiddleDot, "");
      RemoveChar(l.value, MiddleDot);
      StripKeepsOut(removed, MiddleDot);
      Strip(removed)
    else NA
  }

  /**
   * The raw `href`, not stripped. An anchor without one gives Python `None`, which the
   * dataset writer stores as the empty field.
   */
  function AppWebsite(l: Lookup): string {
    match l
    case Found(h) => h
    case NoValue => ""
    case NotFound => NA
  }

  /**
   * The four link fields (app.py:91-101). `link.split(m)[1]` raises when `m` does not
   * occur, and a missing `href` raises on the first `split`; either way the handler
   * overwrites all four fields, the already assigned `link` included, with the sentinel.
   * On success each coordinate is the text after the first occurrence of its marker, up
   * to the next occurrence of that marker, cut at the first end marker.
   */
  function AppLinkData(link: Lookup): (r: LinkData)
    ensures r == NoLinkData <==>
              !(link.Found? && Contains(link.value, LatMarker) && Contains(link.value, LonMarker)
                && Contains(link.value, IdMarker))
    ensures r != NoLinkData ==>
              r.link == link.value
              && r.latitude == Upto(Upto(After(link.value, LatMarker).value, LatMarker), LonMarker)
              && r.longitude == Upto(Upto(After(link.value, LonMarker).value, LonMarker), LonEndMarker)
              && r.dataId == Upto(Upto(After(link.value, IdMarker).value, IdMarker), IdEndMarker)
  {
    match link
    case Found(s) =>
      SplitSecond(s, LatMarker);
      SplitSecond(s, LonMarker);
      SplitSecond(s, IdMarker);
      if |Split(s, LatMarker)| < 2 || |Split(s, LonMarker)| < 2 || |Split(s, IdMarker)| < 2 then
        NoLinkData
      else
        var lat, lat' := Split(s, LatMarker)[1], Split(Split(s, LatMarker)[1], LonMarker);
        var lon, lon' := Split(s, LonMarker)[1], Split(Split(s, LonMarker)[1], LonEndMarker);
        var id, id' := Split(s, IdMarker)[1], Split(Split(s, IdMarker)[1], IdEndMarker);
        SplitFirst(lat, LonMarker);
        SplitFirst(lon, LonEndMarker);
        SplitFirst(id, IdEndMarker);
        assert s != NA by {
          assert !Contains(NA, LatMarker);
        }
        LinkData(s, lat'[0], lon'[0], id'[0])
    case NoValue => NoLinkData
    case NotFound => NoLinkData
  }

  /** The record app.py:43-101 builds for one listing element. */
  function AppListing(el: Element, search: PhoneSearch): Listing {
    var ld := AppLinkData(el.link);
    Listing(
      TextField(el.title), TextField(el.rating), ReviewsField(el.reviews),
      DotlessField(el.address), AppWebsite(el.website), DotlessField(el.category),
      PhoneNumber(el.description, search), ld.latitude, ld.longitude, ld.link, ld.dataId)
  }

  /**
   * Every field fails soft on its own: a failed lookup gives the sentinel in that field
   * only, and a present one gives text cleaned as app.py:44-73 cleans it.
   */
  lemma AppListingFields(el: Element, search: PhoneSearch)
    ensures var r := AppListing(el, search);
      (!el.title.Found? ==> r.title == NA)
      && (!el.rating.Found? ==> r.avgRating == NA)
      && (!el.reviews.Found? ==> r.reviews == NA)
      && (!el.address.Found? ==> r.address == NA)
      && (!el.category.Found? ==> r.category == NA)
      && (el.website.NotFound? ==> r.website == NA)
      && (el.website.NoValue? ==> r.website == "")
      && (el.website.Found? ==> r.website == el.website.value)
      && Trimmed(r.title) && Trimmed(r.avgRating) && Trimmed(r.reviews)
      && Trimmed(r.address) && Trimmed(r.category)
      && (el.reviews.Found? ==> '(' !in r.reviews && ')' !in r.reviews)
      && (el.address.Found? ==> MiddleDot !in r.address)
      && (el.category.Found? ==> MiddleDot !in r.category)
  {
    var r := AppListing(el, search);
    assert r.title == TextField(el.title) && r.avgRating == TextField(el.rating);
    assert r.reviews == ReviewsField(el.reviews);
    assert r.address == DotlessField(el.address) && r.category == DotlessField(el.category);
    assert r.website == AppWebsite(el.website);
  }

  /** Each field depends on its own lookup only; the link lookup decides the four link fields. */
  lemma AppFieldsIndependent(a: Element, b: Element, search: PhoneSearch)
    ensures var ra, rb := AppListing(a, search), AppListing(b, search);
      (a.title == b.title ==> ra.title == rb.title)
      && (a.rating == b.rating ==> ra.avgRating == rb.avgRating)
      && (a.reviews == b.reviews ==> ra.reviews == rb.reviews)
      && (a.address == b.address ==> ra.address == rb.address)
      && (a.category == b.category ==> ra.category == rb.category)
      && (a.website == b.website ==> ra.website == rb.website)
      && (a.description == b.description ==> ra.phoneNum == rb.phoneNum)
      && (a.link == b.link ==> ra.link == rb.link && ra.latitude == rb.latitude
                               && ra.longitude == rb.longitude && ra.dataId == rb.dataId)
  {
  }

  /** Link decoding is a unit: all four fields decoded from the one link, or all the sentinel. */
  lemma AppLinkAllOrNothing(link: Lookup)
    ensures var r := AppLinkData(link);
      r == NoLinkData || (link.Found? && r.link == link.value && r.link != NA)
    ensures var r := AppLinkData(link);
      r != NoLinkData ==>
        !Contains(r.latitude, LonMarker) && !Contains(r.longitude, LonEndMarker)
        && !Contains(r.dataId, IdEndMarker)
  {
    var r := AppLinkData(link);
    if r != NoLinkData {
      assert !Contains(NA, LatMarker);
    }
  }

  /** The candidates of one batch, in page order. */
  function Candidates(els: seq<Element>, search: PhoneSearch): seq<Listing> {
    seq(|els|, i requires 0 <= i < |els| => AppListing(els[i], search))
  }

  // ---------------------------------------------------------------------------
  // extract_items (app.py:37-106)
  // ---------------------------------------------------------------------------

  /**
   * What one call of `extract_items` returns and leaves in `found_places`: nothing when
   * waiting for listing elements fails, otherwise the not yet seen candidates, and every
   * candidate's key is added.
   */
  function AppExtract(visible: Option<seq<Element>>, search: PhoneSearch, found: set<Key>)
    : (seq<Listing>, set<Key>)
  {
    match visible
    case None => ([], found)
    case Some(els) =>
      var cs := Candidates(els, search);
      (Kept(cs, found), found + KeysOf(cs))
  }

  /** `extract_items`: one pass over the visible listing elements. */
  method ExtractItems(visible: Option<seq<Element>>, search: PhoneSearch, found: set<Key>)
    returns (mapsData: seq<Listing>, found': set<Key>)
    ensures (mapsData, found') == AppExtract(visible, search, found)
  {
    mapsData, found' := [], found;
    if visible.None? {
      return;
    }
    var items := visible.value;
    ghost var cs := Candidates(items, search);
    var i := 0;
    KeptStart(cs, found);
    while i < |items|
      invariant 0 <= i <= |items|
      invariant mapsData == Kept(cs[..i], found)
      invariant found' == found + KeysOf(cs[..i])
    {
      var data := AppListing(items[i], search);
      var placeKey := KeyOf(data);
      assert cs[i] == data;
      KeptStep(cs, i, found, mapsData, found');
      if placeKey !in found' {
        found' := found' + {placeKey};
        mapsData := mapsData + [data];
      }
      i := i + 1;
    }
    assert cs[..|items|] == cs;
  }

  /**
   * One extraction emits pairwise-distinct keys, none already found, in page order, and
   * `found_places` grows by exactly the keys of the visible listings.
   */
  lemma AppExtractProperties(visible: Option<seq<Element>>, search: PhoneSearch, found: set<Key>)
    ensures var (items, found') := AppExtract(visible, search, found);
      UniqueKeys(items) && KeysOf(items) !! found && KeysOf(items) <= found'
      && found <= found'
    ensures visible.None? ==> AppExtract(visible, search, found) == ([], found)
    ensures visible.Some? ==>
              IsSubsequence(AppExtract(visible, search, found).0, Candidates(visible.value, search))
              && AppExtract(visible, search, found).1 == found + KeysOf(Candidates(visible.value, search))
  {
    if visible.Some? {
      var cs := Candidates(visible.value, search);
      KeptUnique(cs, found);
      KeptKeys(cs, found);
      KeptInOrder(cs, found);
    }
  }

  // ---------------------------------------------------------------------------
  // scroll_page (app.py:108-135)
  // ---------------------------------------------------------------------------

  /**
   * The outer loop from its `k`-th extraction on, with `items` gathered so far: stop on
   * an empty batch, or once the target is reached, else go on with the next batch.
   */
  function AppScrollFrom(batches: seq<Option<seq<Element>>>, search: PhoneSearch, target: int,
                         k: nat, items: seq<Listing>, found: set<Key>): Scroll
    requires |items| < target
    decreases target - |items|
  {
    var (newItems, found') := AppExtract(Batch(batches, k), search, found);
    if newItems == [] then Scroll(items, found', k + 1)
    else if |items + newItems| >= target then Scroll(items + newItems, found', k + 1)
    else AppScrollFrom(batches, search, target, k + 1, items + newItems, found')
  }

  /**
   * `scroll_page`: what it returns (cut to the target by `items[:target]`) depends on the
   * batches only, not on the height readings: a poll that times out does not end it.
   */
  function AppScrolled(batches: seq<Option<seq<Element>>>, search: PhoneSearch, target: int,
                       found: set<Key>): Scroll
  {
    if target <= 0 then Scroll([], found, 0)
    else
      var s := AppScrollFrom(batches, search, target, 0, [], found);
      s.(items := SliceTo(s.items, target))
  }

  method ScrollPage(page: Page, search: PhoneSearch, target: int, found: set<Key>)
    returns (items: seq<Listing>, found': set<Key>)
    ensures items == AppScrolled(page.batches, search, target, found).items
    ensures found' == AppScrolled(page.batches, search, target, found).found
  {
    items, found' := [], found;
    var previousHeight := HeightAt(page, 0);
    var cursor: nat := 1;
    var k: nat := 0;
    while |items| < target
      invariant target > 0 ==> |items| < target
      invariant target <= 0 ==> items == [] && found' == found
      invariant target > 0 ==>
                  AppScrollFrom(page.batches, search, target, k, items, found')
                  == AppScrollFrom(page.batches, search, target, 0, [], found)
      decreases target - |items|
    {
      ghost var before := AppScrollFrom(page.batches, search, target, k, items, found');
      var newItems, f := ExtractItems(Batch(page.batches, k), search, found');
      found' := f;
      k := k + 1;
      if newItems == [] {
        assert before == Scroll(items, found', k);
        break;
      }
      items := items + newItems;
      var h, next := WaitForGrowth(page, previousHeight, cursor);
      previousHeight, cursor := h, next;
      if |items| >= target {
        assert before == Scroll(items, found', k);
        break;
      }
    }
    items := SliceTo(items, target);
  }

  /** A pagination continued from `k` keeps distinct keys, all recorded, and runs a bounded number of extractions. */
  lemma {:induction false} AppScrollFromInvariant(batches: seq<Option<seq<Element>>>, search: PhoneSearch,
                                                 target: int, k: nat, items: seq<Listing>, found: set<Key>)
    requires |items| < target
    requires UniqueKeys(items) && KeysOf(items) <= found
    ensures var s := AppScrollFrom(batches, search, target, k, items, found);
      UniqueKeys(s.items) && KeysOf(s.items) <= s.found && found <= s.found
      && |items| <= |s.items| && s.items[..|items|] == items
      && KeysOf(s.items[|items|..]) !! found
      && s.calls <= k + (target - |items|)
    decreases target - |items|
  {
    var e := AppExtract(Batch(batches, k), search, found);
    var newItems, found' := e.0, e.1;
    AppExtractProperties(Batch(batches, k), search, found);
    var s := AppScrollFrom(batches, search, target, k, items, found);
    var next := items + newItems;
    KeysByConcat(items, newItems, KeyOf);
    UniqueByConcat(items, newItems, KeyOf);
    assert next[..|items|] == items && next[|items|..] == newItems;
    if newItems == [] {
      assert s == Scroll(items, found', k + 1);
      assert s.items[|items|..] == [];
    } else if |next| >= target {
      assert s == Scroll(next, found', k + 1);
    } else {
      AppScrollFromInvariant(batches, search, target, k + 1, next, found');
      assert s == AppScrollFrom(batches, search, target, k + 1, next, found');
      PrefixParts(items, newItems, s.items);
      KeysByConcat(newItems, s.items[|next|..], KeyOf);
    }
  }

  /**
   * `scroll_page` returns at most the target number of items (none for a target of 0 or
   * less, without extracting), with distinct keys, none of them found before, all of
   * them recorded; it extracts at most `target` times, since every batch that does not
   * end it adds at least one item.
   */
  lemma AppScrollProperties(batches: seq<Option<seq<Element>>>, search: PhoneSearch, target: int,
                            found: set<Key>)
    ensures var s := AppScrolled(batches, search, target, found);
      |s.items| <= (if target > 0 then target else 0)
      && UniqueKeys(s.items) && KeysOf(s.items) !! found
      && KeysOf(s.items) <= s.found && found <= s.found
      && s.calls <= (if target > 0 then target else 0)
    ensures target <= 0 ==> AppScrolled(batches, search, target, found) == Scroll([], found, 0)
  {
    if target > 0 {
      AppScrollFromInvariant(batches, search, target, 0, [], found);
      var s := AppScrollFrom(batches, search, target, 0, [], found);
      var r := SliceTo(s.items, target);
      UniqueByPrefix(s.items, |r|, KeyOf);
      KeysByPrefix(s.items, |r|, KeyOf);
      assert s.items[0..] == s.items;
    }
  }

  /** A batch that only repeats listings already seen ends pagination short of the target. */
  lemma AppScrollStopsOnRepeat(el: Element, search: PhoneSearch)
    ensures var s := AppScrolled([Some([el]), Some([el])], search, 5, {});
      s.items == [AppListing(el, search)] && s.calls == 2
  {
    var c := AppListing(el, search);
    assert Candidates([el], search) == [c];
    assert Kept([c], {}) == [c];
    assert KeysOf([c]) == {KeyOf(c)};
    assert KeyOf([c][0]) in {} + KeysOf([c][..0]) + {KeyOf(c)};
  }

  // ---------------------------------------------------------------------------
  // update_csv_with_data (app.py:167-189) and the dataset file name (app.py:206, 222)
  // ---------------------------------------------------------------------------

  /**
   * `update_csv_with_data`: the merge of the dataset file, keyed by title and phone
   * number, with the column names as what a repeated header reads back as. The file is
   * missing or one an earlier merge wrote, and it stays so.
   */
  method UpdateCsvWithData(file: CsvFile<Listing>, newData: seq<Listing>) returns (file': CsvFile<Listing>)
    requires WellFormed(file)
    ensures file' == Merged(file, newData, HeaderListing, KeyOf)
    ensures WellFormed(file')
  {
    var existingData := ReadExisting(file, HeaderListing, KeyOf);
    ghost var snapshot := Snapshot(file, HeaderListing, KeyOf);
    assert existingData == map[] <==> ReadRows(file, HeaderListing) == [] by {
      KeysByEmpty(ReadRows(file, HeaderListing), KeyOf);
      assert existingData == map[] <==> existingData.Keys == {};
    }
    // the lines the writer appends to the file
    var written: seq<Line<Listing>> := [];
    if existingData == map[] {
      written := [Header];
    }
    ghost var header := written;
    assert header == HeaderIfNoRows(file, HeaderListing);
    var j := 0;
    while j < |newData|
      invariant 0 <= j <= |newData|
      invariant written == header + RecordLines(Unwritten(newData[..j], snapshot, KeyOf))
    {
      var data := newData[j];
      assert KeyOf(data) in existingData <==> KeyOf(data) in snapshot;
      WriteStep(newData, j, snapshot, KeyOf, header, written);
      if KeyOf(data) !in existingData {
        written := written + [Record(data)];
      }
      j := j + 1;
    }
    WriteDone(file, newData, HeaderListing, KeyOf, header, snapshot, written);
    MergeKeepsUnique(file, newData, HeaderListing, KeyOf);
    file' := CsvFile(true, file.lines + written);
  }

  const CsvSuffix: string := "_maps_data.csv"

  /** The dataset file of an establishment type: spaces become underscores. */
  function CsvFileName(establishmentType: string): (name: string) {
    ReplaceChar(establishmentType, ' ', "_") + CsvSuffix
  }

  /** The name has no space, keeps the type's length and ends with the suffix. */
  lemma CsvFileNameShape(t: string)
    ensures var name := CsvFileName(t);
      ' ' !in name && |name| == |t| + |CsvSuffix| && name[|t|..] == CsvSuffix
  {
    ReplaceCharPointwise(t, ' ', '_');
    var r := ReplaceChar(t, ' ', "_");
    var name := r + CsvSuffix;
    assert ' ' !in r by {
      forall i | 0 <= i < |r| ensures r[i] != ' ' {}
    }
    assert ' ' !in CsvSuffix;
  }

  /**
   * Two types share a file exactly when they agree once spaces are read as
   * underscores, so "a b" and "a_b" collide.
   */
  lemma CsvFileNameCollision(t: string, u: string)
    ensures CsvFileName(t) == CsvFileName(u)
            <==> ReplaceChar(t, ' ', "_") == ReplaceChar(u, ' ', "_")
    ensures CsvFileName("a b") == CsvFileName("a_b")
  {
    var rt, ru := ReplaceChar(t, ' ', "_"), ReplaceChar(u, ' ', "_");
    if rt + CsvSuffix == ru + CsvSuffix {
      assert |rt| == |ru|;
      assert rt == (rt + CsvSuffix)[..|rt|];
      assert ru == (ru + CsvSuffix)[..|ru|];
    }
    assert ReplaceChar("a b", ' ', "_") == "a_b";
    assert ReplaceChar("a_b", ' ', "_") == "a_b";
  }

  // ---------------------------------------------------------------------------
  // The grid-search request (app.py:325-337) and one scraping job (app.py:192-208)
  // ---------------------------------------------------------------------------

  /**
   * The parsed fields the check at app.py:336 looks at. A type missing from the request
   * is `None`; the numbers have already gone through `float()` and `int()`.
   */
  datatype GridRequest = GridRequest(
    establishmentType: Option<string>,
    minLatitude: real, maxLatitude: real, minLongitude: real, maxLongitude: real,
    searchRadius: int)

  /**
   * `all([...])`: a missing or empty type, a zero coordinate or a zero radius is falsy,
   * so a box that touches the equator or the prime meridian is rejected. An admitted
   * radius is never zero, so `radius_to_zoom` cannot divide by zero on it; a negative
   * one still gets through and fails in `radius_to_zoom` (`Zoom.RadiusToZoom`).
   */
  predicate RequiredFieldsPresent(q: GridRequest) {
    q.establishmentType.Some? && q.establishmentType.value != ""
    && q.minLatitude != 0.0 && q.maxLatitude != 0.0
    && q.minLongitude != 0.0 && q.maxLongitude != 0.0
    && q.searchRadius != 0
  }

  /**
   * One job of `get_maps_data`: the zoom level first, whose exception ends the job before
   * anything is scraped or written; then paginate with a fresh `found_places` and merge
   * into the type's dataset file.
   */
  function AppJob(f: CsvFile<Listing>, batches: seq<Option<seq<Element>>>, search: PhoneSearch,
                  radius: int, target: int): Result<CsvFile<Listing>, MathError>
  {
    match RadiusToZoom(radius)
    case Failure(e) => Failure(e)
    case Success(_) => Success(Merged(f, AppScrolled(batches, search, target, {}).items, HeaderListing, KeyOf))
  }

  /**
   * The browser calls are taken not to raise (a `Page` never fails). Under that, a job
   * fails exactly when its zoom level does, with the same exception; otherwise it keeps a well-formed dataset well formed, with distinct keys across its records.
   */
  lemma AppJobKeepsUnique(f: CsvFile<Listing>, batches: seq<Option<seq<Element>>>,
                          search: PhoneSearch, radius: int, target: int)
    requires WellFormed(f) && UniqueKeys(Records(f.lines))
    ensures AppJob(f, batches, search, radius, target).Failure? <==> RadiusToZoom(radius).Failure?
    ensures AppJob(f, batches, search, radius, target).Failure? ==>
              AppJob(f, batches, search, radius, target).error == RadiusToZoom(radius).error
    ensures AppJob(f, batches, search, radius, target).Success? ==>
              WellFormed(AppJob(f, batches, search, radius, target).value)
              && UniqueKeys(Records(AppJob(f, batches, search, radius, target).value.lines))
  {
    AppScrollProperties(batches, search, target, {});
    MergeKeepsUnique(f, AppScrolled(batches, search, target, {}).items, HeaderListing, KeyOf);
  }
}
