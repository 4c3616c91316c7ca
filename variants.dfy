/**
 * How the two scrapers differ on the same listing element, and where they agree.
 * app.py cleans a text before stripping it, selenium_test.py after; app.py keeps the
 * website as it is; the two decode the details link with different `split` chains; the
 * title and phone number, and so the deduplication, are the same in both.
 */
module Variants {
  import opened Wrappers
  import opened PyStr
  import opened Keyed
  import opened Listings
  import opened AppScraper
  import opened SeleniumScraper
  import opened Paging

  /** The middle dot is not whitespace, so removing it commutes with stripping up to surrounding whitespace. */
  lemma MiddleDotNotSpace()
    ensures !IsSpace(MiddleDot) && !IsSpace('(') && !IsSpace(')')
  {
  }

  /**
   * The cleaned fields of selenium_test.py, stripped once more, are app.py's: the two
   * cleaning orders differ only in whitespace around the result.
   */
  lemma CleanedFieldsAgreeUpToSpace(el: Element, search: PhoneSearch)
    ensures var a, s := AppListing(el, search), SeleniumListing(el, search);
      Strip(s.address) == a.address && Strip(s.category) == a.category
      && Strip(s.reviews) == a.reviews
  {
    DotlessAgrees(el.address);
    DotlessAgrees(el.category);
    ReviewsAgree(el.reviews);
  }

  lemma ReviewsAgree(l: Lookup)
    ensures Strip(SafeFind(l, Some(RemoveParens))) == ReviewsField(l)
  {
    MiddleDotNotSpace();
    StripNoop(NA);
    if l.Found? {
      var v := l.value;
      calc {
        Strip(RemoveParens(Strip(v)));
        { ReplaceCommutesWithStrip(ReplaceChar(Strip(v), '(', ""), ')', ""); }
        Strip(ReplaceChar(Strip(ReplaceChar(Strip(v), '(', "")), ')', ""));
        { ReplaceCommutesWithStrip(v, '(', ""); }
        Strip(ReplaceChar(Strip(ReplaceChar(v, '(', "")), ')', ""));
        { ReplaceCommutesWithStrip(ReplaceChar(v, '(', ""), ')', ""); }
        Strip(ReplaceChar(ReplaceChar(v, '(', ""), ')', ""));
      }
    }
  }

  lemma DotlessAgrees(l: Lookup)
    ensures Strip(SafeFind(l, Some(RemoveDot))) == DotlessField(l)
  {
    MiddleDotNotSpace();
    StripNoop(NA);
    if l.Found? {
      ReplaceCommutesWithStrip(l.value, MiddleDot, "");
    }
  }

  /**
   * An address shown after the middle dot, `"· " + x`: app.py gives `x`, selenium_test.py
   * keeps the space that followed the dot.
   */
  lemma DotThenSpace(x: string)
    requires x != [] && Trimmed(x) && MiddleDot !in x
    ensures DotlessField(Found([MiddleDot, ' '] + x)) == x
    ensures SafeFind(Found([MiddleDot, ' '] + x), Some(RemoveDot)) == [' '] + x
  {
    var s, t := [MiddleDot, ' '] + x, [' '] + x;
    RemoveLeadingDot(x);
    StripAfterSpace(x);
    DotThenSpaceTrimmed(x);
    assert RemoveDot(Strip(s)) == t;
  }

  lemma RemoveLeadingDot(x: string)
    requires MiddleDot !in x
    ensures ReplaceChar([MiddleDot, ' '] + x, MiddleDot, "") == [' '] + x
  {
    var s, t := [MiddleDot, ' '] + x, [' '] + x;
    assert s[1..] == t && t[1..] == x;
    ReplaceCharAbsent(x, MiddleDot, "");
    assert ReplaceChar(t, MiddleDot, "") == t;
  }

  lemma StripAfterSpace(x: string)
    requires Trimmed(x)
    ensures Strip([' '] + x) == x
  {
    StripPadLeft([' '], x);
    StripNoop(x);
  }

  lemma DotThenSpaceTrimmed(x: string)
    requires x != [] && Trimmed(x)
    ensures Strip([MiddleDot, ' '] + x) == [MiddleDot, ' '] + x
  {
    var s := [MiddleDot, ' '] + x;
    MiddleDotNotSpace();
    assert s[0] == MiddleDot && s[|s| - 1] == x[|x| - 1];
    StripNoop(s);
  }

  /**
   * The website: app.py keeps the `href` as it is and writes an absent one as an empty
   * field; selenium_test.py strips it and gives an absent one the sentinel.
   */
  lemma WebsiteVariants(l: Lookup)
    ensures l.NotFound? ==> AppWebsite(l) == NA && SafeFind(l, None) == NA
    ensures l.NoValue? ==> AppWebsite(l) == "" && SafeFind(l, None) == NA
    ensures l.Found? ==> SafeFind(l, None) == Strip(AppWebsite(l))
  {
  }

  /**
   * Whatever selenium_test.py decodes from a link, app.py decodes too, with the same
   * link, latitude and id.
   */
  lemma LinkDecodedByBoth(link: Lookup)
    requires SeleniumLinkData(link) != NoLinkData
    ensures AppLinkData(link) != NoLinkData
    ensures AppLinkData(link).link == SeleniumLinkData(link).link
    ensures AppLinkData(link).latitude == SeleniumLinkData(link).latitude
    ensures AppLinkData(link).dataId == SeleniumLinkData(link).dataId
  {
    SegmentInLink(link.value);
  }

  /** The latitude segment lies inside the link, so what it holds the link holds. */
  lemma SegmentInLink(v: string)
    requires Contains(v, LatMarker)
    requires Contains(Upto(After(v, LatMarker).value, LatMarker), LonMarker)
    ensures Contains(v, LonMarker)
  {
    var after := After(v, LatMarker).value;
    var segment := Upto(after, LatMarker);
    assert segment == after[0..|segment|];
    ContainsSlice(after, LonMarker, 0, |segment|);
    assert after == v[|v| - |after|..|v|];
    ContainsSlice(v, LonMarker, |v| - |after|, |v|);
  }

  /**
   * A link whose latitude segment holds the longitude marker twice is decoded by app.py...
   * The link comes in as a parameter fixed by the precondition rather than as a literal in
   * the postcondition, so that the verifier reasons about the one value `v` and not about
   * the literal's characters at every use.
   */
  lemma LinkDecodedByApp(v: string)
    requires v == "!8m2!3d!4d!4d1s"
    ensures AppLinkData(Found(v)) != NoLinkData
  {
    assert OccursAt(v, LatMarker, 0) && OccursAt(v, LonMarker, 7) && OccursAt(v, IdMarker, 13);
  }

  /**
   * ...and not by selenium_test.py, whose split at the longitude marker gives three parts.
   * The link is again a parameter fixed by the precondition, for the same reason.
   */
  lemma LinkRejectedBySelenium(v: string)
    requires v == "!8m2!3d!4d!4d1s"
    ensures SeleniumLinkData(Found(v)) == NoLinkData
  {
    var segment := "!4d!4d1s";
    MarkerAtStart(v, LatMarker);
    assert v[|LatMarker|..] == segment;
    SegmentInExample(segment);
    MarkerAtStart(segment, LonMarker);
    assert segment[|LonMarker|..] == "!4d1s";
    MarkerAtStart("!4d1s", LonMarker);
  }

  /** A text that starts with the separator: nothing comes before it. */
  lemma MarkerAtStart(s: string, p: string)
    requires p != [] && OccursAt(s, p, 0)
    ensures Contains(s, p) && Upto(s, p) == [] && After(s, p) == Some(s[|p|..])
  {
  }

  /** The example's latitude segment does not hold the latitude marker again. */
  lemma SegmentInExample(segment: string)
    requires segment == "!4d!4d1s"
    ensures !Contains(segment, LatMarker)
  {
    forall k | 0 <= k <= |segment| ensures !OccursAt(segment, LatMarker, k) {
      if k + |LatMarker| <= |segment| {
        assert segment[k + 1] != LatMarker[1];
      }
    }
  }

  /** Both scrapers give a listing the same key: the title and phone number are computed alike. */
  lemma SameKey(el: Element, search: PhoneSearch)
    ensures KeyOf(AppListing(el, search)) == KeyOf(SeleniumListing(el, search))
  {
    SafeFindPlain(el.title);
  }

  /**
   * On the same batch and the same `found_places` both extractions record the same keys
   * and emit listings with the same keys, in the same order.
   */
  lemma SameDedup(visible: Option<seq<Element>>, search: PhoneSearch, found: set<Key>)
    ensures AppExtract(visible, search, found).1 == SeleniumExtract(visible, search, found).1
    ensures SameKeys(AppExtract(visible, search, found).0, SeleniumExtract(visible, search, found).0, KeyOf)
  {
    if visible.Some? {
      var els := visible.value;
      var ac, sc := Candidates(els, search), SeleniumCandidates(els, search);
      forall i | 0 <= i < |els| ensures KeyOf(ac[i]) == KeyOf(sc[i]) {
        SameKey(els[i], search);
      }
      SameKeysSet(ac, sc, KeyOf);
      KeptSameKeys(ac, sc, found);
    }
  }

  /**
   * The two paginations, continued from the same extraction with items of the same keys:
   * app.py's result, cut to the target at the end, has the keys of selenium_test.py's,
   * cut batch by batch, in the same order; both end with the same `found_places` after
   * the same number of extractions.
   */
  lemma {:induction false} ScrollFromSameKeys(batches: seq<Option<seq<Element>>>, search: PhoneSearch,
                                             target: int, k: nat, aItems: seq<Listing>, sItems: seq<Listing>,
                                             found: set<Key>)
    requires |aItems| < target && SameKeys(aItems, sItems, KeyOf)
    ensures var a := AppScrollFrom(batches, search, target, k, aItems, found);
      var s := SeleniumScrollFrom(batches, search, target, k, sItems, found);
      SameKeys(SliceTo(a.items, target), s.items, KeyOf) && a.found == s.found && a.calls == s.calls
    decreases target - |aItems|
  {
    var ea, es := AppExtract(Batch(batches, k), search, found), SeleniumExtract(Batch(batches, k), search, found);
    SameDedup(Batch(batches, k), search, found);
    var na, ns := ea.0, es.0;
    var a := AppScrollFrom(batches, search, target, k, aItems, found);
    var s := SeleniumScrollFrom(batches, search, target, k, sItems, found);
    if na == [] {
      assert a == Scroll(aItems, ea.1, k + 1);
      assert s == Scroll(sItems, es.1, k + 1);
      assert SliceTo(aItems, target) == aItems;
    } else {
      var taken := SliceTo(ns, target - |sItems|);
      SameKeysConcat(aItems, sItems, na, ns, KeyOf);
      if |aItems + na| >= target {
        assert a == Scroll(aItems + na, ea.1, k + 1);
        assert s == Scroll(sItems + taken, es.1, k + 1);
        CutSameKeys(aItems, sItems, na, ns, target);
      } else {
        assert taken == ns;
        ScrollFromSameKeys(batches, search, target, k + 1, aItems + na, sItems + ns, ea.1);
        assert a == AppScrollFrom(batches, search, target, k + 1, aItems + na, ea.1);
      }
    }
  }

  /** Cutting the whole at the target, or only the last batch to what is still wanted, keeps the keys alike. */
  lemma CutSameKeys(aItems: seq<Listing>, sItems: seq<Listing>, na: seq<Listing>, ns: seq<Listing>, target: int)
    requires SameKeys(aItems + na, sItems + ns, KeyOf) && |sItems| < target <= |aItems + na|
    ensures SameKeys(SliceTo(aItems + na, target), sItems + SliceTo(ns, target - |sItems|), KeyOf)
  {
    var taken := SliceTo(ns, target - |sItems|);
    assert SliceTo(aItems + na, target) == (aItems + na)[..target];
    assert sItems + taken == (sItems + ns)[..target];
    SameKeysPrefix(aItems + na, sItems + ns, target, KeyOf);
  }

  /**
   * Cutting at the end (app.py) or batch by batch (selenium_test.py) gives results with
   * the same keys in the same order, the same `found_places` and the same number of
   * extractions: both keep the same listings by key, in the same order, while the
   * records' fields may differ (the cleaned texts, the website, the link fields).
   */
  lemma ScrollSameKeys(batches: seq<Option<seq<Element>>>, search: PhoneSearch, target: int, found: set<Key>)
    ensures var a, s := AppScrolled(batches, search, target, found), SeleniumScrolled(batches, search, target, found);
      SameKeys(a.items, s.items, KeyOf) && a.found == s.found && a.calls == s.calls
  {
    if target > 0 {
      ScrollFromSameKeys(batches, search, target, 0, [], [], found);
    }
  }
}
