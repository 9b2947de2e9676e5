/**
 * `scrapAddress` (src/scrapers/apartment.js:14-30): from the address block
 * of a listing, the street address (the first of exactly two children, up
 * to its first comma, trimmed) and the postal code and city, the two groups
 * of the leftmost match of `(\d{5}) (\S+)` in the zip-region text up to its
 * first comma.
 */
module Address {
  import opened Wrappers
  import opened Text

  /**
   * What the scraper reads from the address block: its whole text, the
   * texts of its children and the text of its `.zip-region-and-country`
   * element (empty when there is none).
   */
  datatype AddressBlock = AddressBlock(text: string, children: seq<string>, zipRegionText: string)

  /** The object `scrapAddress` returns; `address` is `None` when the key is never set. */
  datatype AddressInfo = AddressInfo(address: Option<string>, postalCode: Option<string>, city: Option<string>)

  /** The pattern matches at `i`, its second group ending at `c`. */
  ghost predicate ZipMatch(s: string, i: nat, c: nat) {
    i + 6 < c <= |s| && All(s[i..i + 5], Digit) && s[i + 5] == ' ' && All(s[i + 6..c], NonSpace)
  }

  /** `exec` returns the match at `i` ending at `c`: none starts further left, and none at `i` is longer. */
  ghost predicate IsZipExec(s: string, i: nat, c: nat) {
    ZipMatch(s, i, c)
    && (forall c': nat :: ZipMatch(s, i, c') ==> c' <= c)
    && (forall k: nat, c': nat :: k < i ==> !ZipMatch(s, k, c'))
  }

  /** Where the city the greedy `\S+` takes ends, for a match at `i`. */
  function CityEndAt(s: string, i: nat): Option<nat>
  {
    if i + 6 <= |s| && All(s[i..i + 5], Digit) && s[i + 5] == ' ' && RunEnd(s, i + 6, NonSpace) > i + 6
    then Some(RunEnd(s, i + 6, NonSpace))
    else None
  }

  /** At every position, `CityEndAt` reports exactly the longest match there. */
  lemma CityEndAtIsLongestMatch(s: string, i: nat)
    ensures CityEndAt(s, i).Some? ==> ZipMatch(s, i, CityEndAt(s, i).value)
    ensures forall c: nat :: ZipMatch(s, i, c) ==> CityEndAt(s, i).Some? && c <= CityEndAt(s, i).value
  {
    forall c: nat | ZipMatch(s, i, c) ensures CityEndAt(s, i).Some? && c <= CityEndAt(s, i).value {
      RunEndCovers(s, i + 6, c, NonSpace);
    }
  }

  /** The scan of `exec` over the start positions `i`, `i + 1`, ..., `|s|`: the first with a match. */
  function ScanFrom(s: string, i: nat): (r: Option<(nat, nat)>)
    requires i <= |s|
    ensures r.Some? ==> i <= r.value.0 && CityEndAt(s, r.value.0) == Some(r.value.1)
    ensures r.Some? ==> forall k: nat :: i <= k < r.value.0 ==> CityEndAt(s, k).None?
    ensures r.None? ==> forall k: nat :: i <= k ==> CityEndAt(s, k).None?
    decreases |s| - i
  {
    match CityEndAt(s, i)
    case Some(c) => Some((i, c))
    case None => if i == |s| then None else ScanFrom(s, i + 1)
  }

  /** `addressRegex` as `exec` reports it: where the match starts and where its city ends. */
  function ZipMatchOf(s: string): Option<(nat, nat)>
  {
    ScanFrom(s, 0)
  }

  /** `ZipMatchOf` is `exec`: nothing when no match exists anywhere, and otherwise the leftmost, longest match. */
  lemma ZipMatchOfIsExec(s: string)
    ensures ZipMatchOf(s).None? <==> forall i: nat, c: nat :: !ZipMatch(s, i, c)
    ensures ZipMatchOf(s).Some? ==> IsZipExec(s, ZipMatchOf(s).value.0, ZipMatchOf(s).value.1)
  {
    forall i: nat, c: nat | ZipMatch(s, i, c) ensures CityEndAt(s, i).Some? && c <= CityEndAt(s, i).value {
      CityEndAtIsLongestMatch(s, i);
    }
    if ZipMatchOf(s).Some? {
      CityEndAtIsLongestMatch(s, ZipMatchOf(s).value.0);
    }
  }

  /** The text the zip pattern is run on: the zip-region text up to its first comma. */
  function ZipAndCity(block: AddressBlock): string {
    Split(block.zipRegionText, ',')[0]
  }

  /**
   * `scrapAddress(addressBlock)`: the street address only for a block with
   * exactly two children; the postal code and the city always, both from
   * the same match or both `null`.
   */
  method ScrapAddress(block: AddressBlock) returns (result: AddressInfo)
    ensures result.address.Some? <==> |block.children| == 2
    ensures result.address.Some? ==> result.address.value == Trim(Split(block.children[0], ',')[0])
    ensures result.address.Some? ==> ',' !in result.address.value
    ensures result.postalCode.Some? <==> result.city.Some?
    ensures result.postalCode.None? <==> forall i: nat, c: nat :: !ZipMatch(ZipAndCity(block), i, c)
    ensures result.postalCode.Some? ==> exists i: nat, c: nat ::
      IsZipExec(ZipAndCity(block), i, c)
      && result.postalCode.value == ZipAndCity(block)[i..i + 5] && result.city.value == ZipAndCity(block)[i + 6..c]
    ensures result.postalCode.Some? ==> |result.postalCode.value| == 5 && All(result.postalCode.value, Digit)
    ensures result.city.Some? ==> |result.city.value| > 0 && All(result.city.value, NonSpace)
  {
    var address: Option<string> := None;
    if |block.children| == 2 {
      var street := Split(block.children[0], ',')[0];
      address := Some(Trim(street));
      TrimHasNoComma(street);
    }
    var zipAndCity := ZipAndCity(block);
    ZipMatchOfIsExec(zipAndCity);
    var postalCode: Option<string> := None;
    var city: Option<string> := None;
    match ZipMatchOf(zipAndCity) {
      case Some((i, c)) =>
        assert IsZipExec(zipAndCity, i, c);
        postalCode := Some(zipAndCity[i..i + 5]);
        city := Some(zipAndCity[i + 6..c]);
      case None =>
    }
    result := AddressInfo(address, postalCode, city);
  }

  /** Trimming text without a comma leaves none. */
  lemma TrimHasNoComma(s: string)
    requires ',' !in s
    ensures ',' !in Trim(s)
  {
    var a := RunEnd(s, 0, Space);
    var b := RunStart(s, |s|, Space);
    if a < b {
      forall k | 0 <= k < b - a ensures s[a..b][k] != ',' {
        assert s[a..b][k] == s[a + k];
      }
    }
  }

  /**
   * More than five digits before the space leave the leading ones out of the
   * postal code: `123456 X` yields `23456`.
   */
  lemma ZipTakesLastFiveDigits(ds: string, city: string, rest: string)
    requires |ds| >= 5 && All(ds, Digit) && |city| > 0 && All(city, NonSpace)
    requires rest == [] || IsSpace(rest[0])
    ensures var s := ds + " " + city + rest;
      ZipMatchOf(s) == Some((|ds| - 5, |ds| + 1 + |city|))
  {
    var s := ds + " " + city + rest;
    var n := |ds| - 5;
    var c := |ds| + 1 + |city|;
    assert s[n..n + 5] == ds[n..];
    assert s[n + 5] == ' ';
    assert s[n + 6..c] == city;
    assert CityEndAt(s, n) == Some(c) by {
      assert All(s[n..n + 5], Digit);
      if c < |s| {
        assert s[c] == rest[0];
      }
      RunEndUnique(s, n + 6, c, NonSpace);
    }
    forall k: nat | k < n ensures CityEndAt(s, k).None? {
      assert s[k + 5] == ds[k + 5];
    }
    ScanFromFinds(s, 0, n, c);
  }

  /** The scan stops at the first position with a match. */
  lemma {:induction false} ScanFromFinds(s: string, i: nat, n: nat, c: nat)
    requires i <= n <= |s| && CityEndAt(s, n) == Some(c)
    requires forall k: nat :: k < n ==> CityEndAt(s, k).None?
    ensures ScanFrom(s, i) == Some((n, c))
    decreases n - i
  {
    if i < n {
      ScanFromFinds(s, i + 1, n, c);
    }
  }
}
