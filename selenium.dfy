/**
 * The scraping core of selenium_test.py: the grid step sizes of `calculate_increments`,
 * one listing record built by `extract_item_data` from `safe_find`,
 * `extract_phone_number` and `extract_link_data`, `extract_items`, `scroll_page` (which
 * cuts each batch to the target), the merge into the combined dataset keyed by
 * title, phone number and establishment type, and the job list of `grid_search`.
 */
module SeleniumScraper {
  import opened Wrappers
  import opened PyStr
  import opened Keyed
  import opened Listings
  import opened Paging
  import opened CsvStore
  import opened Zoom

  // ---------------------------------------------------------------------------
  // calculate_increments (selenium_test.py:30-47)
  // ---------------------------------------------------------------------------

  const DefaultTargetPoints: int := 100
  const DefaultMinIncrement: real := 0.001
  const DefaultMaxIncrement: real := 0.3

  /** The search box of `grid_search`, in degrees. */
  datatype Box = Box(minLat: real, maxLat: real, minLon: real, maxLon: real)

  datatype Increments = Increments(lat: real, lon: real)

  /** Python's `min(a, b)` and `max(a, b)` on numbers. */
  function Min(a: real, b: real): real {
    if b < a then b else a
  }

  function Max(a: real, b: real): real {
    if b > a then b else a
  }

  /** `max(min(x, hi), lo)`: with `lo <= hi` the point of [lo, hi] nearest to `x`; otherwise `lo`. */
  function Clamp(x: real, lo: real, hi: real): (r: real)
    ensures lo <= hi ==> lo <= r <= hi
    ensures lo <= x <= hi ==> r == x
    ensures lo <= hi && x > hi ==> r == hi
    ensures x < lo || lo > hi ==> r == lo
  {
    Max(Min(x, hi), lo)
  }

  lemma ClampMonotone(x: real, y: real, lo: real, hi: real)
    requires x <= y
    ensures Clamp(x, lo, hi) <= Clamp(y, lo, hi)
  {
  }

  /** `(lat_range * lon_range) / target_points`: the area one grid point should cover. */
  function AreaPerPoint(b: Box, targetPoints: int): real
    requires targetPoints != 0
  {
    ((b.maxLat - b.minLat) * (b.maxLon - b.minLon)) / (targetPoints as real)
  }

  function MidLatitude(b: Box): real {
    (b.minLat + b.maxLat) / 2.0
  }

  /**
   * The square root `math.sqrt` computes is not modelled; what is used of it is that the
   * root of a non-negative number is non-negative.
   */
  ghost predicate NonNegativeRoot(sqrt: real -> real) {
    forall x :: x >= 0.0 ==> sqrt(x) >= 0.0
  }

  /**
   * `calculate_increments`, with `math.sqrt` and `math.cos(math.radians(.))` given as
   * functions. The latitude step is the root of the area per point, the longitude step
   * that over the cosine of the middle latitude, and both are clamped. Python raises on
   * a zero point count, on the square root of a negative area (a box whose ranges have
   * opposite signs) and on a zero cosine.
   */
  function CalculateIncrements(b: Box, targetPoints: int, minInc: real, maxInc: real,
                               sqrt: real -> real, cosDeg: real -> real): (r: Result<Increments, MathError>)
    ensures targetPoints == 0 ==> r == Failure(ZeroDivision)
    ensures targetPoints != 0 ==> (r == Failure(MathDomain) <==> AreaPerPoint(b, targetPoints) < 0.0)
    ensures targetPoints != 0 && AreaPerPoint(b, targetPoints) >= 0.0 ==>
              (r.Success? <==> cosDeg(MidLatitude(b)) != 0.0)
    ensures r.Success? && minInc <= maxInc ==>
              minInc <= r.value.lat <= maxInc && minInc <= r.value.lon <= maxInc
    ensures r.Success? ==>
              var raw := sqrt(AreaPerPoint(b, targetPoints));
              (minInc <= raw <= maxInc ==> r.value.lat == raw)
              && (minInc <= raw / cosDeg(MidLatitude(b)) <= maxInc ==>
                    r.value.lon == raw / cosDeg(MidLatitude(b)))
  {
    if targetPoints == 0 then Failure(ZeroDivision)
    else
      var area := AreaPerPoint(b, targetPoints);
      if area < 0.0 then Failure(MathDomain)
      else
        var latIncrement := sqrt(area);
        var c := cosDeg(MidLatitude(b));
        if c == 0.0 then Failure(ZeroDivision)
        else
          var lonIncrement := latIncrement / c;
          Success(Increments(Clamp(latIncrement, minInc, maxInc), Clamp(lonIncrement, minInc, maxInc)))
  }

  /**
   * Where the cosine is in (0, 1], as it is for every latitude strictly between the
   * poles, the longitude step is never smaller than the latitude step.
   */
  lemma LonStepAtLeastLatStep(b: Box, targetPoints: int, minInc: real, maxInc: real,
                              sqrt: real -> real, cosDeg: real -> real)
    requires NonNegativeRoot(sqrt) && 0.0 < cosDeg(MidLatitude(b)) <= 1.0
    ensures var r := CalculateIncrements(b, targetPoints, minInc, maxInc, sqrt, cosDeg);
      r.Success? ==> r.value.lat <= r.value.lon
  {
    if CalculateIncrements(b, targetPoints, minInc, maxInc, sqrt, cosDeg).Success? {
      var raw := sqrt(AreaPerPoint(b, targetPoints));
      var c := cosDeg(MidLatitude(b));
      DivideByAtMostOne(raw, c);
      ClampMonotone(raw, raw / c, minInc, maxInc);
    }
  }

  lemma DivideByAtMostOne(x: real, c: real)
    requires x >= 0.0 && 0.0 < c <= 1.0
    ensures x <= x / c
  {
    var q := x / c;
    assert q * c == x;
    assert q >= 0.0;
    assert q - q * c == q * (1.0 - c);
    assert q * (1.0 - c) >= 0.0;
  }

  /**
   * With the defaults (100 points, steps between 0.001 and 0.3 degrees), a box whose
   * ranges have the same sign, away from the poles, gets both steps in that range.
   */
  lemma DefaultIncrements(b: Box, sqrt: real -> real, cosDeg: real -> real)
    requires (b.maxLat - b.minLat) * (b.maxLon - b.minLon) >= 0.0
    requires cosDeg(MidLatitude(b)) != 0.0
    ensures var r := CalculateIncrements(b, DefaultTargetPoints, DefaultMinIncrement,
                                         DefaultMaxIncrement, sqrt, cosDeg);
      r.Success?
      && 0.001 <= r.value.lat <= 0.3 && 0.001 <= r.value.lon <= 0.3
  {
    var area := (b.maxLat - b.minLat) * (b.maxLon - b.minLon);
    assert AreaPerPoint(b, DefaultTargetPoints) == area / 100.0;
  }

  // ---------------------------------------------------------------------------
  // One listing: extract_item_data, safe_find, extract_link_data
  // (selenium_test.py:72-124)
  // ---------------------------------------------------------------------------

  /** `lambda x: x.replace("(", "").replace(")", "")`. */
  function RemoveParens(x: string): string {
    ReplaceChar(ReplaceChar(x, '(', ""), ')', "")
  }

  /** `lambda x: x.replace("·", "")`. */
  function RemoveDot(x: string): string {
    ReplaceChar(x, MiddleDot, "")
  }

  /**
   * `safe_find`: the element's text or attribute, stripped, then given to `process`.
   * A missing element raises, and so does an absent attribute (`None.strip()`); both
   * give the sentinel.
   */
  function SafeFind(l: Lookup, process: Option<string -> string>): string {
    match l
    case Found(v) => if process.Some? then process.value(Strip(v)) else Strip(v)
    case NoValue => NA
    case NotFound => NA
  }

  /**
   * `extract_link_data`. The latitude and longitude come from unpacking
   * `link.split("!8m2!3d")[1].split("!4d")` into two names, so the text after the first
   * latitude marker, up to the next one, must hold the longitude marker exactly once;
   * the id needs the `1s` marker. Any failure, or a missing `href`, gives all four
   * fields the sentinel.
   */
  function SeleniumLinkData(link: Lookup): (r: LinkData)
    ensures r == NoLinkData <==>
              !(link.Found? && Contains(link.value, LatMarker)
                && Contains(Upto(After(link.value, LatMarker).value, LatMarker), LonMarker)
                && !Contains(After(Upto(After(link.value, LatMarker).value, LatMarker), LonMarker).value, LonMarker)
                && Contains(link.value, IdMarker))
    ensures r != NoLinkData ==>
              var segment := Upto(After(link.value, LatMarker).value, LatMarker);
              r.link == link.value
              && r.latitude == Upto(segment, LonMarker)
              && r.longitude == Upto(After(segment, LonMarker).value, LonEndMarker)
              && r.dataId == Upto(Upto(After(link.value, IdMarker).value, IdMarker), IdEndMarker)
  {
    match link
    case Found(s) =>
      SplitSecond(s, LatMarker);
      SplitSecond(s, IdMarker);
      if |Split(s, LatMarker)| < 2 then NoLinkData
      else
        var segment := Split(s, LatMarker)[1];
        SplitPair(segment, LonMarker);
        if |Split(segment, LonMarker)| != 2 || |Split(s, IdMarker)| < 2 then NoLinkData
        else
          var latitude, longitude := Split(segment, LonMarker)[0], Split(segment, LonMarker)[1];
          var id := Split(s, IdMarker)[1];
          SplitFirst(longitude, LonEndMarker);
          SplitFirst(id, IdEndMarker);
          assert s != NA by {
            assert !Contains(NA, LatMarker);
          }
          LinkData(s, latitude, Split(longitude, LonEndMarker)[0], Split(id, IdEndMarker)[0])
    case NoValue => NoLinkData
    case NotFound => NoLinkData
  }

  /** The record `extract_item_data` builds for one listing element. */
  function SeleniumListing(el: Element, search: PhoneSearch): Listing {
    var ld := SeleniumLinkData(el.link);
    Listing(
      SafeFind(el.title, None), SafeFind(el.rating, None), SafeFind(el.reviews, Some(RemoveParens)),
      SafeFind(el.address, Some(RemoveDot)), SafeFind(el.website, None),
      SafeFind(el.category, Some(RemoveDot)), PhoneNumber(el.description, search),
      ld.latitude, ld.longitude, ld.link, ld.dataId)
  }

  /**
   * Every field fails soft on its own, the website included when its `href` is absent;
   * a present title, rating or website is stripped. The website, unlike app.py's, is
   * stripped.
   */
  lemma SeleniumListingFields(el: Element, search: PhoneSearch)
    ensures var r := SeleniumListing(el, search);
      (!el.title.Found? ==> r.title == NA)
      && (!el.rating.Found? ==> r.avgRating == NA)
      && (!el.reviews.Found? ==> r.reviews == NA)
      && (!el.address.Found? ==> r.address == NA)
      && (!el.category.Found? ==> r.category == NA)
      && (!el.website.Found? ==> r.website == NA)
      && (el.website.Found? ==> r.website == Strip(el.website.value))
      && Trimmed(r.title) && Trimmed(r.avgRating) && Trimmed(r.website)
  {
    SafeFindPlain(el.title);
    SafeFindPlain(el.rating);
    SafeFindPlain(el.website);
    SafeFindFails(el.reviews, Some(RemoveParens));
    SafeFindFails(el.address, Some(RemoveDot));
    SafeFindFails(el.category, Some(RemoveDot));
  }

  /** Without a `process`, a present value is stripped and a failed lookup is the sentinel. */
  lemma SafeFindPlain(l: Lookup)
    ensures l.Found? ==> SafeFind(l, None) == Strip(l.value)
    ensures !l.Found? ==> SafeFind(l, None) == NA
    ensures Trimmed(SafeFind(l, None))
  {
  }

  lemma SafeFindFails(l: Lookup, process: Option<string -> string>)
    ensures !l.Found? ==> SafeFind(l, process) == NA
  {
  }

  /**
   * The cleaned fields: reviews lose their parentheses, address and category their
   * middle dots, removed after stripping.
   */
  lemma SeleniumCleanedFields(el: Element, search: PhoneSearch)
    ensures var r := SeleniumListing(el, search);
      (el.reviews.Found? ==> r.reviews == RemoveParens(Strip(el.reviews.value))
                             && '(' !in r.reviews && ')' !in r.reviews)
      && (el.address.Found? ==> r.address == RemoveDot(Strip(el.address.value)) && MiddleDot !in r.address)
      && (el.category.Found? ==> r.category == RemoveDot(Strip(el.category.value)) && MiddleDot !in r.category)
  {
    var r := SeleniumListing(el, search);
    assert r.reviews == SafeFind(el.reviews, Some(RemoveParens));
    assert r.address == SafeFind(el.address, Some(RemoveDot));
    assert r.category == SafeFind(el.category, Some(RemoveDot));
    if el.reviews.Found? {
      var once := ReplaceChar(Strip(el.reviews.value), '(', "");
      RemoveChar(Strip(el.reviews.value), '(');
      RemoveChar(once, ')');
      assert '(' !in ReplaceChar(once, ')', "") by {
        assert multiset(ReplaceChar(once, ')', ""))['('] == multiset(once)['('];
      }
    }
    if el.address.Found? {
      RemoveChar(Strip(el.address.value), MiddleDot);
    }
    if el.category.Found? {
      RemoveChar(Strip(el.category.value), MiddleDot);
    }
  }

  /** Link decoding is a unit, and the decoded coordinates hold none of the markers they were cut at. */
  lemma SeleniumLinkAllOrNothing(link: Lookup)
    ensures var r := SeleniumLinkData(link);
      r == NoLinkData || (link.Found? && r.link == link.value && r.link != NA)
    ensures var r := SeleniumLinkData(link);
      r != NoLinkData ==>
        !Contains(r.latitude, LonMarker) && !Contains(r.longitude, LonMarker)
        && !Contains(r.longitude, LonEndMarker) && !Contains(r.dataId, IdEndMarker)
  {
    var r := SeleniumLinkData(link);
    if r != NoLinkData {
      assert !Contains(NA, LatMarker);
      var segment := Upto(After(link.value, LatMarker).value, LatMarker);
      var rest := After(segment, LonMarker).value;
      if Contains(r.longitude, LonMarker) {
        ContainsSlice(rest, LonMarker, 0, |r.longitude|);
      }
    }
  }

  /** The candidates of one batch, in page order. */
  function SeleniumCandidates(els: seq<Element>, search: PhoneSearch): seq<Listing> {
    seq(|els|, i requires 0 <= i < |els| => SeleniumListing(els[i], search))
  }

  // ---------------------------------------------------------------------------
  // extract_items (selenium_test.py:49-70)
  // ---------------------------------------------------------------------------

  /**
   * What one call of `extract_items` returns and leaves in `found_places`: nothing when
   * waiting for listing elements fails, otherwise the not yet seen candidates, and every
   * candidate's key is added.
   */
  function SeleniumExtract(visible: Option<seq<Element>>, search: PhoneSearch, found: set<Key>)
    : (seq<Listing>, set<Key>)
  {
    match visible
    case None => ([], found)
    case Some(els) =>
      var cs := SeleniumCandidates(els, search);
      (Kept(cs, found), found + KeysOf(cs))
  }

  method ExtractItems(visible: Option<seq<Element>>, search: PhoneSearch, found: set<Key>)
    returns (mapsData: seq<Listing>, found': set<Key>)
    ensures (mapsData, found') == SeleniumExtract(visible, search, found)
  {
    mapsData, found' := [], found;
    if visible.None? {
      return;
    }
    var items := visible.value;
    ghost var cs := SeleniumCandidates(items, search);
    var i := 0;
    KeptStart(cs, found);
    while i < |items|
      invariant 0 <= i <= |items|
      invariant mapsData == Kept(cs[..i], found)
      invariant found' == found + KeysOf(cs[..i])
    {
      var data := SeleniumListing(items[i], search);
      var placeKey := KeyOf(data);
      assert cs[i] == data;
      KeptStep(cs, i, found, mapsData, found');
      if placeKey !in found' {
        found' := found' + {placeKey};
        mapsData := mapsData + [data];
      }
      i := i + 1;
    }
    assert cs[..|items|] == cs;
  }

  /** The keys of every listing one extraction sees. */
  function BatchKeys(visible: Option<seq<Element>>, search: PhoneSearch): set<Key> {
    match visible
    case None => {}
    case Some(els) => KeysOf(SeleniumCandidates(els, search))
  }

  /**
   * One extraction emits pairwise-distinct keys, none already found, in page order, and
   * `found_places` grows by exactly the keys of the visible listings.
   */
  lemma SeleniumExtractProperties(visible: Option<seq<Element>>, search: PhoneSearch, found: set<Key>)
    ensures var (items, found') := SeleniumExtract(visible, search, found);
      UniqueKeys(items) && KeysOf(items) !! found && KeysOf(items) <= found'
      && found' == found + BatchKeys(visible, search)
    ensures visible.None? ==> SeleniumExtract(visible, search, found) == ([], found)
    ensures visible.Some? ==>
              IsSubsequence(SeleniumExtract(visible, search, found).0, SeleniumCandidates(visible.value, search))
  {
    if visible.Some? {
      var cs := SeleniumCandidates(visible.value, search);
      KeptUnique(cs, found);
      KeptKeys(cs, found);
      KeptInOrder(cs, found);
    }
  }

  // ---------------------------------------------------------------------------
  // scroll_page (selenium_test.py:126-170)
  // ---------------------------------------------------------------------------

  /**
   * The outer loop from its `k`-th extraction on, with `items` gathered so far: stop on
   * an empty batch; otherwise take as many of the batch as the target still allows, and
   * stop once it is reached.
   */
  function SeleniumScrollFrom(batches: seq<Option<seq<Element>>>, search: PhoneSearch, target: int,
                              k: nat, items: seq<Listing>, found: set<Key>): Scroll
    requires |items| < target
    decreases target - |items|
  {
    var (newItems, found') := SeleniumExtract(Batch(batches, k), search, found);
    if newItems == [] then Scroll(items, found', k + 1)
    else
      var items' := items + SliceTo(newItems, target - |items|);
      if |items'| >= target then Scroll(items', found', k + 1)
      else SeleniumScrollFrom(batches, search, target, k + 1, items', found')
  }

  /** `scroll_page`: nothing, without extracting, for a target of 0 or less. */
  function SeleniumScrolled(batches: seq<Option<seq<Element>>>, search: PhoneSearch, target: int,
                            found: set<Key>): Scroll
  {
    if target <= 0 then Scroll([], found, 0)
    else SeleniumScrollFrom(batches, search, target, 0, [], found)
  }

  method ScrollPage(page: Page, search: PhoneSearch, target: int, found: set<Key>)
    returns (items: seq<Listing>, found': set<Key>)
    ensures items == SeleniumScrolled(page.batches, search, target, found).items
    ensures found' == SeleniumScrolled(page.batches, search, target, found).found
  {
    items, found' := [], found;
    var previousHeight := HeightAt(page, 0);
    var cursor: nat := 1;
    var k: nat := 0;
    while |items| < target
      invariant target > 0 ==> |items| < target
      invariant target <= 0 ==> items == [] && found' == found
      invariant target > 0 ==>
                  SeleniumScrollFrom(page.batches, search, target, k, items, found')
                  == SeleniumScrollFrom(page.batches, search, target, 0, [], found)
      decreases target - |items|
    {
      ghost var before := SeleniumScrollFrom(page.batches, search, target, k, items, found');
      var newItems, f := ExtractItems(Batch(page.batches, k), search, found');
      found' := f;
      k := k + 1;
      if newItems == [] {
        assert before == Scroll(items, found', k);
        break;
      }
      items := items + SliceTo(newItems, target - |items|);
      var h, next := WaitForGrowth(page, previousHeight, cursor);
      previousHeight, cursor := h, next;
      if |items| >= target {
        assert before == Scroll(items, found', k);
        break;
      }
    }
  }

  /** The keys of every listing visible to extractions `lo` up to `hi`, the ones cut off included. */
  function SeenKeys(batches: seq<Option<seq<Element>>>, search: PhoneSearch, lo: nat, hi: nat): set<Key>
    decreases hi - lo
  {
    if lo >= hi then {} else BatchKeys(Batch(batches, lo), search) + SeenKeys(batches, search, lo + 1, hi)
  }

  /**
   * A pagination continued from `k` keeps distinct keys, never exceeds the target,
   * runs a bounded number of extractions, and records the key of every listing those
   * extractions saw.
   */
  lemma {:induction false} SeleniumScrollFromInvariant(batches: seq<Option<seq<Element>>>, search: PhoneSearch,
                                                      target: int, k: nat, items: seq<Listing>, found: set<Key>)
    requires |items| < target
    requires UniqueKeys(items) && KeysOf(items) <= found
    ensures var s := SeleniumScrollFrom(batches, search, target, k, items, found);
      UniqueKeys(s.items) && KeysOf(s.items) <= s.found
      && |items| <= |s.items| <= target && s.items[..|items|] == items
      && KeysOf(s.items[|items|..]) !! found
      && k < s.calls <= k + (target - |items|)
      && s.found == found + SeenKeys(batches, search, k, s.calls)
    decreases target - |items|
  {
    var e := SeleniumExtract(Batch(batches, k), search, found);
    var newItems, found' := e.0, e.1;
    SeleniumExtractProperties(Batch(batches, k), search, found);
    var s := SeleniumScrollFrom(batches, search, target, k, items, found);
    var taken := SliceTo(newItems, target - |items|);
    TakenPart(newItems, taken, found);
    var next := items + taken;
    KeysByConcat(items, taken, KeyOf);
    UniqueByConcat(items, taken, KeyOf);
    assert next[..|items|] == items && next[|items|..] == taken;
    assert SeenKeys(batches, search, k, k + 1) == BatchKeys(Batch(batches, k), search);
    if newItems == [] {
      assert s == Scroll(items, found', k + 1);
      assert s.items[|items|..] == [];
    } else if |next| >= target {
      assert s == Scroll(next, found', k + 1);
    } else {
      SeleniumScrollFromInvariant(batches, search, target, k + 1, next, found');
      assert s == SeleniumScrollFrom(batches, search, target, k + 1, next, found');
      PrefixParts(items, taken, s.items);
      KeysByConcat(taken, s.items[|next|..], KeyOf);
    }
  }

  /** A prefix of a batch keeps the batch's distinct keys, none of them found before. */
  lemma TakenPart(newItems: seq<Listing>, taken: seq<Listing>, found: set<Key>)
    requires |taken| <= |newItems| && taken == newItems[..|taken|]
    requires UniqueKeys(newItems) && KeysOf(newItems) !! found
    ensures UniqueKeys(taken) && KeysOf(taken) !! found && KeysOf(taken) <= KeysOf(newItems)
  {
    UniqueByPrefix(newItems, |taken|, KeyOf);
    KeysByPrefix(newItems, |taken|, KeyOf);
  }

  /**
   * `scroll_page` never holds more than the target number of items (none for a target
   * of 0 or less, without extracting), with distinct keys, none of them found before;
   * it extracts at most `target` times, since every batch that does not end it adds at
   * least one item; and `found_places` ends up holding the key of every listing the
   * extractions saw, those cut off by the target included.
   */
  lemma SeleniumScrollProperties(batches: seq<Option<seq<Element>>>, search: PhoneSearch, target: int,
                                 found: set<Key>)
    ensures var s := SeleniumScrolled(batches, search, target, found);
      |s.items| <= (if target > 0 then target else 0)
      && UniqueKeys(s.items) && KeysOf(s.items) !! found && KeysOf(s.items) <= s.found
      && s.calls <= (if target > 0 then target else 0)
      && s.found == found + SeenKeys(batches, search, 0, s.calls)
    ensures target <= 0 ==> SeleniumScrolled(batches, search, target, found) == Scroll([], found, 0)
  {
    if target > 0 {
      SeleniumScrollFromInvariant(batches, search, target, 0, [], found);
      var s := SeleniumScrollFrom(batches, search, target, 0, [], found);
      assert s.items[0..] == s.items;
    } else {
      assert SeenKeys(batches, search, 0, 0) == {};
    }
  }

  /**
   * A batch of two new listings against a target of one: the second is cut off, but its
   * key stays in `found_places`, so a later batch showing it again would drop it.
   */
  lemma SeleniumScrollCutKeepsKey(a: Element, b: Element, search: PhoneSearch)
    requires KeyOf(SeleniumListing(a, search)) != KeyOf(SeleniumListing(b, search))
    ensures var s := SeleniumScrolled([Some([a, b])], search, 1, {});
      s.items == [SeleniumListing(a, search)] && KeyOf(SeleniumListing(b, search)) in s.found
  {
    var ca, cb := SeleniumListing(a, search), SeleniumListing(b, search);
    var cs := SeleniumCandidates([a, b], search);
    assert cs == [ca, cb];
    TwoNewKept(ca, cb);
    assert Batch([Some([a, b])], 0) == Some([a, b]);
    assert SeleniumExtract(Some([a, b]), search, {}) == ([ca, cb], {} + KeysOf(cs));
    FirstBatchFills([Some([a, b])], search, 1, {});
    assert [ca, cb][..1] == [ca];
  }

  /** A first extraction with at least the target number of new listings ends pagination, cut to the target. */
  lemma FirstBatchFills(batches: seq<Option<seq<Element>>>, search: PhoneSearch, target: int, found: set<Key>)
    requires target > 0 && |SeleniumExtract(Batch(batches, 0), search, found).0| >= target
    ensures var e := SeleniumExtract(Batch(batches, 0), search, found);
      SeleniumScrolled(batches, search, target, found) == Scroll(e.0[..target], e.1, 1)
  {
    var e := SeleniumExtract(Batch(batches, 0), search, found);
    assert [] + SliceTo(e.0, target) == e.0[..target];
  }

  /** Two listings with different keys, against an empty `found_places`, are both kept. */
  lemma TwoNewKept(ca: Listing, cb: Listing)
    requires KeyOf(ca) != KeyOf(cb)
    ensures Kept([ca, cb], {}) == [ca, cb] && KeyOf(cb) in KeysOf([ca, cb])
  {
    assert [ca, cb] == [ca] + [cb];
    assert [ca] == [] + [ca];
    KeptAppend([], ca, {});
    KeysByAppend([], ca, KeyOf);
    KeptAppend([ca], cb, {});
    KeysByAppend([ca], cb, KeyOf);
  }

  // ---------------------------------------------------------------------------
  // update_csv_with_data (selenium_test.py:200-223)
  // ---------------------------------------------------------------------------

  /** A row of the combined dataset: the establishment type and the listing. */
  datatype TypedRow = TypedRow(establishmentType: string, listing: Listing)

  /** The column names, which is what a repeated header line reads back as. */
  const TypedHeader: TypedRow := TypedRow("establishment_type", HeaderListing)

  /** The identity of a dataset row: title, phone number and establishment type. */
  type TypedKey = (string, string, string)

  function TypedKeyOf(r: TypedRow): TypedKey {
    (r.listing.title, r.listing.phoneNum, r.establishmentType)
  }

  /** The batch with every listing tagged with the job's type, as `data["establishment_type"]` sets it. */
  function Tagged(newData: seq<Listing>, establishmentType: string): seq<TypedRow> {
    seq(|newData|, i requires 0 <= i < |newData| => TypedRow(establishmentType, newData[i]))
  }

  /** All jobs write to this one file, whatever their type. */
  const CombinedFileName: string := "combined_maps_data.csv"

  /**
   * `update_csv_with_data`: the merge of the combined dataset, keyed by title, phone
   * number and type. The file is missing or one an earlier merge wrote, and it stays so.
   */
  method UpdateCsvWithData(file: CsvFile<TypedRow>, newData: seq<Listing>, establishmentType: string)
    returns (file': CsvFile<TypedRow>)
    requires WellFormed(file)
    ensures file' == Merged(file, Tagged(newData, establishmentType), TypedHeader, TypedKeyOf)
    ensures WellFormed(file')
  {
    var existingData := ReadExisting(file, TypedHeader, TypedKeyOf);
    ghost var tagged := Tagged(newData, establishmentType);
    ghost var snapshot := Snapshot(file, TypedHeader, TypedKeyOf);
    assert existingData == map[] <==> ReadRows(file, TypedHeader) == [] by {
      KeysByEmpty(ReadRows(file, TypedHeader), TypedKeyOf);
      assert existingData == map[] <==> existingData.Keys == {};
    }
    // the lines the writer appends to the file
    var written: seq<Line<TypedRow>> := [];
    if existingData == map[] {
      written := [Header];
    }
    ghost var header := written;
    assert header == HeaderIfNoRows(file, TypedHeader);
    var j := 0;
    while j < |newData|
      invariant 0 <= j <= |newData|
      invariant written == header + RecordLines(Unwritten(tagged[..j], snapshot, TypedKeyOf))
    {
      var data := newData[j];
      var key := (data.title, data.phoneNum, establishmentType);
      assert tagged[j] == TypedRow(establishmentType, data);
      assert key == TypedKeyOf(tagged[j]);
      assert key in existingData <==> key in snapshot;
      WriteStep(tagged, j, snapshot, TypedKeyOf, header, written);
      if key !in existingData {
        var row := TypedRow(establishmentType, data);
        written := written + [Record(row)];
      }
      j := j + 1;
    }
    WriteDone(file, tagged, TypedHeader, TypedKeyOf, header, snapshot, written);
    MergeKeepsUnique(file, tagged, TypedHeader, TypedKeyOf);
    file' := CsvFile(true, file.lines + written);
  }

  /**
   * A listing of the batch is appended exactly when its title, phone number and the
   * job's type were not read back before the call; every appended row carries the
   * job's type and a listing of the batch.
   */
  lemma SeleniumMergeAppended(f: CsvFile<TypedRow>, newData: seq<Listing>, t: string, x: Listing)
    ensures var added := Records(Merged(f, Tagged(newData, t), TypedHeader, TypedKeyOf).lines[|f.lines|..]);
      x in newData ==>
        (TypedRow(t, x) in added <==> (x.title, x.phoneNum, t) !in Snapshot(f, TypedHeader, TypedKeyOf))
    ensures var added := Records(Merged(f, Tagged(newData, t), TypedHeader, TypedKeyOf).lines[|f.lines|..]);
      forall r :: r in added ==> r.establishmentType == t && r.listing in newData
  {
    var tagged := Tagged(newData, t);
    var snapshot := Snapshot(f, TypedHeader, TypedKeyOf);
    if x in newData {
      var i :| 0 <= i < |newData| && newData[i] == x;
      assert tagged[i] == TypedRow(t, x);
    }
    MergeHeaderAndRecords(f, tagged, TypedHeader, TypedKeyOf, TypedRow(t, x));
    forall r | r in Unwritten(tagged, snapshot, TypedKeyOf)
      ensures r.establishmentType == t && r.listing in newData
    {
      UnwrittenMembers(tagged, snapshot, TypedKeyOf, r);
      var i :| 0 <= i < |tagged| && tagged[i] == r;
      assert r.listing == newData[i];
    }
  }

  /** Merging the same batch with the same type a second time appends no record. */
  lemma SeleniumMergeTwice(f: CsvFile<TypedRow>, newData: seq<Listing>, t: string)
    ensures var m1 := Merged(f, Tagged(newData, t), TypedHeader, TypedKeyOf);
      Records(Merged(m1, Tagged(newData, t), TypedHeader, TypedKeyOf).lines) == Records(m1.lines)
  {
    MergeTwice(f, Tagged(newData, t), TypedHeader, TypedKeyOf);
  }

  /** The same listing under another type is a new row: the type is part of the key. */
  lemma SeleniumTypeSeparates(x: Listing, a: string, b: string)
    requires a != b
    ensures var f := CsvFile(true, [Header, Record(TypedRow(a, x))]);
      Merged(f, Tagged([x], b), TypedHeader, TypedKeyOf).lines
      == [Header, Record(TypedRow(a, x)), Record(TypedRow(b, x))]
  {
    var f := CsvFile(true, [Header, Record(TypedRow(a, x))]);
    var tagged := Tagged([x], b);
    assert tagged == [TypedRow(b, x)];
    assert ReadRows(f, TypedHeader) == [TypedRow(a, x)];
    assert Snapshot(f, TypedHeader, TypedKeyOf) == {TypedKeyOf(TypedRow(a, x))};
    assert tagged[..0] == [];
    assert Unwritten(tagged, Snapshot(f, TypedHeader, TypedKeyOf), TypedKeyOf) == tagged;
    assert RecordLines(tagged) == [Record(TypedRow(b, x))];
  }

  /** Tagging a batch with distinct listing keys gives rows with distinct keys. */
  lemma TaggedUnique(newData: seq<Listing>, t: string)
    requires UniqueKeys(newData)
    ensures UniqueBy(Tagged(newData, t), TypedKeyOf)
  {
    var tagged := Tagged(newData, t);
    forall i, j | 0 <= i < j < |tagged| ensures TypedKeyOf(tagged[i]) != TypedKeyOf(tagged[j]) {
      assert KeyOf(newData[i]) != KeyOf(newData[j]);
    }
  }

  /**
   * One job of `get_maps_data`: the zoom level first, whose exception ends the job before
   * anything is scraped or written; then paginate with a fresh `found_places` and merge
   * the items, tagged with the job's type, into the combined dataset.
   */
  function SeleniumJob(f: CsvFile<TypedRow>, batches: seq<Option<seq<Element>>>, search: PhoneSearch,
                       radius: int, target: int, establishmentType: string): Result<CsvFile<TypedRow>, MathError>
  {
    match RadiusToZoom(radius)
    case Failure(e) => Failure(e)
    case Success(_) =>
      Success(Merged(f, Tagged(SeleniumScrolled(batches, search, target, {}).items, establishmentType),
                     TypedHeader, TypedKeyOf))
  }

  /**
   * The browser calls are taken not to raise (a `Page` never fails). Under that, a job
   * fails exactly when its zoom level does, with the same exception; otherwise it keeps a well-formed dataset well formed, with distinct keys across its records.
   */
  lemma SeleniumJobKeepsUnique(f: CsvFile<TypedRow>, batches: seq<Option<seq<Element>>>,
                               search: PhoneSearch, radius: int, target: int, establishmentType: string)
    requires WellFormed(f) && UniqueBy(Records(f.lines), TypedKeyOf)
    ensures SeleniumJob(f, batches, search, radius, target, establishmentType).Failure?
            <==> RadiusToZoom(radius).Failure?
    ensures SeleniumJob(f, batches, search, radius, target, establishmentType).Failure? ==>
              SeleniumJob(f, batches, search, radius, target, establishmentType).error == RadiusToZoom(radius).error
    ensures SeleniumJob(f, batches, search, radius, target, establishmentType).Success? ==>
              WellFormed(SeleniumJob(f, batches, search, radius, target, establishmentType).value)
              && UniqueBy(Records(SeleniumJob(f, batches, search, radius, target, establishmentType).value.lines),
                          TypedKeyOf)
  {
    var items := SeleniumScrolled(batches, search, target, {}).items;
    SeleniumScrollProperties(batches, search, target, {});
    TaggedUnique(items, establishmentType);
    MergeKeepsUnique(f, Tagged(items, establishmentType), TypedHeader, TypedKeyOf);
  }

  // ---------------------------------------------------------------------------
  // The job list of grid_search (selenium_test.py:265-271)
  // ---------------------------------------------------------------------------

  /**
   * `[f(from + i, x, y) for i, x in enumerate(xs) for y in ys]`: one element per pair,
   * `xs` in the outer loop.
   */
  function Nested<A, B, C>(xs: seq<A>, ys: seq<B>, from: nat, f: (nat, A, B) -> C): (r: seq<C>)
    ensures |r| == |xs| * |ys|
    decreases |xs|
  {
    if xs == [] then []
    else
      var row := seq(|ys|, j requires 0 <= j < |ys| => f(from, xs[0], ys[j]));
      var rest := Nested(xs[1..], ys, from + 1, f);
      assert |row| + |rest| == |xs| * |ys| by {
        assert |xs| * |ys| == |ys| + (|xs| - 1) * |ys|;
      }
      row + rest
  }

  /** Element `i * |ys| + j` comes from the `i`-th outer and the `j`-th inner element. */
  lemma {:induction false} NestedIndex<A, B, C>(xs: seq<A>, ys: seq<B>, from: nat, f: (nat, A, B) -> C,
                                                 i: nat, j: nat)
    requires i < |xs| && j < |ys|
    ensures i * |ys| + j < |xs| * |ys|
    ensures Nested(xs, ys, from, f)[i * |ys| + j] == f(from + i, xs[i], ys[j])
    decreases i
  {
    var n := |ys|;
    var whole := Nested(xs, ys, from, f);
    var rest := Nested(xs[1..], ys, from + 1, f);
    assert |xs| * n == n + (|xs| - 1) * n;
    assert whole == seq(n, j' requires 0 <= j' < n => f(from, xs[0], ys[j'])) + rest;
    if i > 0 {
      NestedIndex(xs[1..], ys, from + 1, f, i - 1, j);
      var k := (i - 1) * n + j;
      assert i * n + j == n + k by {
        assert i * n == n + (i - 1) * n;
      }
      assert whole[n + k] == rest[k];
      assert xs[1..][i - 1] == xs[i];
    }
  }

  lemma MulLeft(a: nat, b: nat, n: nat)
    requires a <= b
    ensures a * n <= b * n
  {
  }

  /** Read the other way: element `k` comes from outer element `k / |ys|` and inner element `k % |ys|`. */
  lemma NestedAt<A, B, C>(xs: seq<A>, ys: seq<B>, from: nat, f: (nat, A, B) -> C, k: nat)
    requires k < |xs| * |ys|
    ensures |ys| > 0 && k / |ys| < |xs|
    ensures Nested(xs, ys, from, f)[k] == f(from + k / |ys|, xs[k / |ys|], ys[k % |ys|])
  {
    var n := |ys|;
    assert n > 0;
    var i, j := k / n, k % n;
    assert k == i * n + j;
    if i >= |xs| {
      MulLeft(|xs|, i, n);
      assert false;
    }
    NestedIndex(xs, ys, from, f, i, j);
  }

  /** `grid_points`: every latitude tick paired with every longitude tick, latitude-major. */
  function GridPoints(latTicks: seq<real>, lonTicks: seq<real>): seq<(real, real)> {
    Nested(latTicks, lonTicks, 0, (i: nat, lat: real, lon: real) => (lat, lon))
  }

  /** The tuple `process_grid_point` receives. */
  datatype Job = Job(step: nat, establishmentType: string, lat: real, lon: real,
                     searchRadius: int, resultCount: int)

  /** `args_list`: one job per grid point and type, point-major, the step being the point's index. */
  function ArgsList(points: seq<(real, real)>, types: seq<string>, searchRadius: int, resultCount: int)
    : seq<Job>
  {
    Nested(points, types, 0,
           (i: nat, p: (real, real), t: string) => Job(i, t, p.0, p.1, searchRadius, resultCount))
  }

  /** There are `|lat| * |lon|` points, point `i * |lon| + j` being latitude `i` with longitude `j`. */
  lemma GridPointsShape(latTicks: seq<real>, lonTicks: seq<real>, i: nat, j: nat)
    ensures |GridPoints(latTicks, lonTicks)| == |latTicks| * |lonTicks|
    ensures i < |latTicks| && j < |lonTicks| ==>
              i * |lonTicks| + j < |latTicks| * |lonTicks|
              && GridPoints(latTicks, lonTicks)[i * |lonTicks| + j] == (latTicks[i], lonTicks[j])
  {
    if i < |latTicks| && j < |lonTicks| {
      NestedIndex(latTicks, lonTicks, 0, (i: nat, lat: real, lon: real) => (lat, lon), i, j);
    }
  }

  /**
   * There are `|points| * |types|` jobs; job `i * |types| + j` is point `i` with type `j`,
   * its step `i` shared by all types at that point.
   */
  lemma ArgsListShape(points: seq<(real, real)>, types: seq<string>, searchRadius: int, resultCount: int,
                      i: nat, j: nat)
    ensures |ArgsList(points, types, searchRadius, resultCount)| == |points| * |types|
    ensures i < |points| && j < |types| ==>
              i * |types| + j < |points| * |types|
              && ArgsList(points, types, searchRadius, resultCount)[i * |types| + j]
                 == Job(i, types[j], points[i].0, points[i].1, searchRadius, resultCount)
  {
    if i < |points| && j < |types| {
      NestedIndex(points, types, 0,
                  (i: nat, p: (real, real), t: string) => Job(i, t, p.0, p.1, searchRadius, resultCount), i, j);
    }
  }

  /** Every job is some point with some type, the step being that point's index. */
  lemma ArgsListJobs(points: seq<(real, real)>, types: seq<string>, searchRadius: int, resultCount: int, k: nat)
    requires k < |ArgsList(points, types, searchRadius, resultCount)|
    ensures var job := ArgsList(points, types, searchRadius, resultCount)[k];
      job.step < |points| && job.establishmentType in types
      && (job.lat, job.lon) == points[job.step]
      && job.searchRadius == searchRadius && job.resultCount == resultCount
  {
    NestedAt(points, types, 0,
             (i: nat, p: (real, real), t: string) => Job(i, t, p.0, p.1, searchRadius, resultCount), k);
  }
}
