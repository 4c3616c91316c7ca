/**
 * What both scrapers share about one listing of the results list: the lookups a
 * listing element answers, the record extracted from it, the phone-number field
 * (the same code in both files), the identity key, and the session deduplication
 * that `extract_items` performs with the `found_places` set.
 */
module Listings {
  import opened Wrappers
  import opened PyStr
  import opened Keyed

  /** The sentinel a failed field extraction yields. */
  const NA: string := "N/A"

  /**
   * What `find_element(selector)` followed by `.text` or `.get_attribute(name)`
   * gives for one listing element: no such element (Selenium raises), an element
   * whose attribute is absent (Python `None`), or a string.
   */
  datatype Lookup = NotFound | NoValue | Found(value: string)

  /** One listing element of the results list: one lookup per selector the scrapers use. */
  datatype Element = Element(
    title: Lookup,        // `.qBF1Pd`, text
    rating: Lookup,       // `.MW4etd`, text
    reviews: Lookup,      // `.UY7F9`, text
    address: Lookup,      // last span of the first `.W4Efsd` row, text
    category: Lookup,     // first span of the first `.W4Efsd` row, text
    description: Lookup,  // the second `.W4Efsd` row, text
    website: Lookup,      // `a.lcr4fd`, `href` attribute
    link: Lookup)         // `a.hfpxzc`, `href` attribute

  /**
   * `re.search(PHONE_PATTERN, text)`, giving `group(0)` of the leftmost match.
   * The regular expression engine is not modelled; the search is a parameter.
   */
  type PhoneSearch = string -> Option<string>

  /**
   * What the phone pattern guarantees of a match: it is a piece of the searched
   * text, it neither begins nor ends with whitespace (the pattern starts with `+`,
   * a digit or `(` and ends with a digit) and so it is never the sentinel.
   */
  ghost predicate PatternLike(search: PhoneSearch) {
    forall s :: search(s).Some? ==>
      var m := search(s).value;
      Contains(s, m) && m != [] && !IsSpace(m[0]) && !IsSpace(m[|m| - 1]) && m != NA
  }

  /** One scraped listing, a row of the dataset without its establishment type. */
  datatype Listing = Listing(
    title: string, avgRating: string, reviews: string, address: string,
    website: string, category: string, phoneNum: string,
    latitude: string, longitude: string, link: string, dataId: string)

  /** The column names, which is what a repeated header line reads back as. */
  const HeaderListing: Listing := Listing(
    "title", "avg_rating", "reviews", "address", "website", "category", "phone_num",
    "latitude", "longitude", "link", "dataId")

  /** The four fields decoded from the details link. */
  datatype LinkData = LinkData(link: string, latitude: string, longitude: string, dataId: string)

  const NoLinkData: LinkData := LinkData(NA, NA, NA, NA)

  /** The markers both scrapers cut the details link at. */
  const LatMarker: string := "!8m2!3d"
  const LonMarker: string := "!4d"
  const LonEndMarker: string := "!16s"
  const IdMarker: string := "1s"
  const IdEndMarker: string := "!8m"

  /** The separator removed from the address and category texts. */
  const MiddleDot: char := '·'

  /**
   * The phone number of a listing (app.py:75-83 and selenium_test.py:99-105, the same
   * code): the stripped leftmost pattern match in the stripped description, or the
   * sentinel when there is no description or no match.
   */
  function PhoneNumber(description: Lookup, search: PhoneSearch): (r: string)
  {
    match description
    case Found(d) =>
      (match search(Strip(d))
       case Some(m) => Strip(m)
       case None => NA)
    case NoValue => NA
    case NotFound => NA
  }

  /**
   * With a pattern-like search the phone field is the sentinel exactly when the
   * description is missing or holds no match, and otherwise it is the match itself,
   * a piece of the stripped description.
   */
  lemma PhoneNumberSentinel(description: Lookup, search: PhoneSearch)
    requires PatternLike(search)
    ensures PhoneNumber(description, search) == NA
            <==> !(description.Found? && search(Strip(description.value)).Some?)
    ensures PhoneNumber(description, search) != NA ==>
            PhoneNumber(description, search) == search(Strip(description.value)).value
            && Contains(Strip(description.value), PhoneNumber(description, search))
  {
    if description.Found? && search(Strip(description.value)).Some? {
      var m := search(Strip(description.value)).value;
      assert m != NA && m != [] && !IsSpace(m[0]) && !IsSpace(m[|m| - 1]);
      StripNoop(m);
    }
  }

  /** The identity key of both `extract_items` and app.py's dataset: title and phone number. */
  type Key = (string, string)

  function KeyOf(l: Listing): Key {
    (l.title, l.phoneNum)
  }

  /** The keys of a sequence of listings. */
  function KeysOf(cs: seq<Listing>): set<Key> {
    KeysBy(cs, KeyOf)
  }

  /** No two listings share a key. */
  predicate UniqueKeys(cs: seq<Listing>) {
    UniqueBy(cs, KeyOf)
  }

  /**
   * The candidates `extract_items` keeps, in page order: each candidate whose key is
   * neither in the incoming `found` set nor the key of an earlier candidate of the batch
   * (the set `found_places` holds exactly those keys when the candidate is reached).
   */
  function Kept(cs: seq<Listing>, found: set<Key>): (r: seq<Listing>)
    ensures |r| <= |cs|
  {
    if cs == [] then []
    else
      var init := cs[..|cs| - 1];
      var last := cs[|cs| - 1];
      if KeyOf(last) in found + KeysOf(init) then Kept(init, found) else Kept(init, found) + [last]
  }

  /** One more candidate: kept exactly when its key has not been seen. */
  lemma KeptAppend(cs: seq<Listing>, c: Listing, found: set<Key>)
    ensures Kept(cs + [c], found)
         == if KeyOf(c) in found + KeysOf(cs) then Kept(cs, found) else Kept(cs, found) + [c]
  {
    assert (cs + [c])[..|cs|] == cs;
  }

  /**
   * The step of the extraction loop, with `kept` and `seen` what the loop holds after
   * `i` candidates: candidate `i` is kept exactly when its key is not in `seen`, and
   * its key is added either way.
   */
  lemma KeptStep(cs: seq<Listing>, i: nat, found: set<Key>, kept: seq<Listing>, seen: set<Key>)
    requires i < |cs| && kept == Kept(cs[..i], found) && seen == found + KeysOf(cs[..i])
    ensures KeyOf(cs[i]) !in seen ==> Kept(cs[..i + 1], found) == kept + [cs[i]]
    ensures KeyOf(cs[i]) in seen ==> Kept(cs[..i + 1], found) == kept
    ensures found + KeysOf(cs[..i + 1]) == seen + {KeyOf(cs[i])}
  {
    assert cs[..i + 1] == cs[..i] + [cs[i]];
    KeptAppend(cs[..i], cs[i], found);
    KeysByAppend(cs[..i], cs[i], KeyOf);
  }

  /** Before the extraction loop nothing is kept and nothing is added. */
  lemma KeptStart(cs: seq<Listing>, found: set<Key>)
    ensures Kept(cs[..0], found) == [] && found + KeysOf(cs[..0]) == found
  {
    assert cs[..0] == [];
  }

  /** The keys kept are exactly the batch's keys that were not already found. */
  lemma {:induction false} KeptKeys(cs: seq<Listing>, found: set<Key>)
    ensures KeysOf(Kept(cs, found)) == KeysOf(cs) - found
  {
    if cs != [] {
      var init := cs[..|cs| - 1];
      var last := cs[|cs| - 1];
      KeptKeys(init, found);
      assert cs == init + [last];
      KeysByAppend(init, last, KeyOf);
      if KeyOf(last) !in found + KeysOf(init) {
        KeysByAppend(Kept(init, found), last, KeyOf);
      }
    }
  }

  /** Which candidates are kept depends on their keys alone. */
  lemma {:induction false} KeptSameKeys(a: seq<Listing>, b: seq<Listing>, found: set<Key>)
    requires SameKeys(a, b, KeyOf)
    ensures SameKeys(Kept(a, found), Kept(b, found), KeyOf)
  {
    if a != [] {
      var n := |a| - 1;
      assert SameKeys(a[..n], b[..n], KeyOf) by {
        assert forall i :: 0 <= i < n ==> a[..n][i] == a[i] && b[..n][i] == b[i];
      }
      KeptSameKeys(a[..n], b[..n], found);
      SameKeysSet(a[..n], b[..n], KeyOf);
      assert KeyOf(a[n]) == KeyOf(b[n]);
      if KeyOf(a[n]) !in found + KeysOf(a[..n]) {
        SameKeysAppend(Kept(a[..n], found), Kept(b[..n], found), a[n], b[n], KeyOf);
      }
    }
  }

  /** The kept listings have pairwise distinct keys, none of them in the incoming set. */
  lemma {:induction false} KeptUnique(cs: seq<Listing>, found: set<Key>)
    ensures UniqueKeys(Kept(cs, found))
    ensures KeysOf(Kept(cs, found)) !! found
  {
    KeptKeys(cs, found);
    if cs != [] {
      var init := cs[..|cs| - 1];
      var last := cs[|cs| - 1];
      KeptUnique(init, found);
      KeptKeys(init, found);
      var k := Kept(init, found);
      if KeyOf(last) !in found + KeysOf(init) {
        forall i | 0 <= i < |k| ensures KeyOf(k[i]) != KeyOf(last) {
          assert KeyOf(k[i]) in KeysOf(k);
        }
        KeysByAppend(k, last, KeyOf);
      }
    }
  }

  /** `a` is `b` with some elements left out, order kept. */
  predicate IsSubsequence<T(==)>(a: seq<T>, b: seq<T>)
    decreases |b|
  {
    if a == [] then true
    else if b == [] then false
    else if a[|a| - 1] == b[|b| - 1] then IsSubsequence(a[..|a| - 1], b[..|b| - 1])
    else IsSubsequence(a, b[..|b| - 1])
  }

  /** The kept listings appear in the order the page shows them. */
  lemma {:induction false} KeptInOrder(cs: seq<Listing>, found: set<Key>)
    ensures IsSubsequence(Kept(cs, found), cs)
  {
    if cs != [] {
      var init := cs[..|cs| - 1];
      var last := cs[|cs| - 1];
      KeptInOrder(init, found);
      var k := Kept(init, found);
      if KeyOf(last) in found + KeysOf(init) {
        SubsequenceExtend(k, init, last);
        assert init + [last] == cs;
      } else {
        assert (k + [last])[..|k|] == k;
      }
    }
  }

  lemma {:induction false} SubsequenceExtend<T>(a: seq<T>, b: seq<T>, x: T)
    requires IsSubsequence(a, b)
    ensures IsSubsequence(a, b + [x])
    decreases |b|, 1
  {
    assert (b + [x])[..|b|] == b;
    if a != [] && a[|a| - 1] == x {
      SubsequenceFromInit(a, b);
    }
  }

  /** Dropping the last element of a subsequence keeps it one. */
  lemma {:induction false} SubsequenceFromInit<T>(a: seq<T>, b: seq<T>)
    requires a != [] && IsSubsequence(a, b)
    ensures IsSubsequence(a[..|a| - 1], b)
    decreases |b|, 0
  {
    if b != [] {
      if a[|a| - 1] == b[|b| - 1] {
        SubsequenceExtend(a[..|a| - 1], b[..|b| - 1], b[|b| - 1]);
        assert b[..|b| - 1] + [b[|b| - 1]] == b;
      } else {
        SubsequenceFromInit(a, b[..|b| - 1]);
        SubsequenceExtend(a[..|a| - 1], b[..|b| - 1], b[|b| - 1]);
        assert b[..|b| - 1] + [b[|b| - 1]] == b;
      }
    }
  }
}
