/**
 * `scrap(page)` (src/scrapers/apartment.js:64-91): the listing object built
 * field by field from the texts the page's selectors return. The page is
 * given as those texts; the document it would be loaded from is not part of
 * this model.
 */
module Apartment {
  import opened Wrappers
  import opened Text
  import opened Numbers
  import Price
  import Area
  import AvailableFrom
  import Address

  /**
   * What `scrap` reads off the loaded page: the text of each queried element,
   * how many elements `#fullscreenSlider` matched together with the
   * `data-src` values the slider's images give, and the first address block.
   */
  datatype Page = Page(
    kaltmiete: string,
    gesamtmiete: string,
    wohnflaeche: string,
    zi: string,
    bezugsfreiAb: string,
    sliderCount: nat,
    imageSources: seq<string>,
    addressBlock: Address.AddressBlock)

  /**
   * The listing object `scrap` returns. The three address keys are only
   * present when the address block has text, so they are slots; every other
   * key is always assigned. `rooms` is a number, possibly NaN, and never `null`.
   */
  datatype Apartment = Apartment(
    rentBase: Option<JsNumber>,
    rentTotal: Option<JsNumber>,
    area: Option<JsNumber>,
    rooms: JsNumber,
    images: seq<string>,
    availableFrom: Option<string>,
    isAvailable: bool,
    address: Slot<string>,
    postalCode: Slot<string>,
    city: Slot<string>)

  /** `scrapImages(sliderBlock)`: no images at all when the slider is missing from the page. */
  function ScrapImages(sliderCount: nat, sources: seq<string>): (images: seq<string>)
    ensures sliderCount == 0 ==> images == []
    ensures sliderCount > 0 ==> images == sources
  {
    if sliderCount == 0 then [] else sources
  }

  /** An optional value as the key an `Object.assign` copies over: `undefined` leaves it out. */
  function ToSlot(o: Option<string>): (s: Slot<string>)
    ensures s.Present? <==> o.Some?
    ensures o.Some? ==> s.value == o.value
  {
    match o
    case None => Absent
    case Some(v) => Present(v)
  }

  /** A `null`-able value assigned to a key: the key is present either way. */
  function ToNullable(o: Option<string>): (s: Slot<string>)
    ensures !s.Absent?
    ensures s.Null? <==> o.None?
    ensures o.Some? ==> s.value == o.value
  {
    match o
    case None => Null
    case Some(v) => Present(v)
  }

  /**
   * `scrap(page)`, with `before` deciding whether a date string lies in the
   * past. Every key holds what its extractor returns for the page's text.
   * Prices and area are `null` exactly when their pattern finds
   * nothing; the area text has its first `,` made a `.` before it is parsed;
   * the availability keys are always set; the address keys only when the
   * address block's trimmed text is non-empty, and then postal code and city
   * always and together, the street only for a block with two children.
   */
  method Scrap(page: Page, before: string -> bool) returns (apartment: Apartment)
    ensures apartment.rentBase == Price.ParsePrice(page.kaltmiete)
    ensures apartment.rentTotal == Price.ParsePrice(page.gesamtmiete)
    ensures apartment.rentBase.None? <==> forall i: nat, e: nat :: !Price.PriceMatch(Price.Sanitize(page.kaltmiete), i, e)
    ensures apartment.rentTotal.None? <==> forall i: nat, e: nat :: !Price.PriceMatch(Price.Sanitize(page.gesamtmiete), i, e)
    ensures apartment.rentBase.Some? ==> apartment.rentBase.value.Finite?
    ensures apartment.rentTotal.Some? ==> apartment.rentTotal.value.Finite?
    ensures var areaText := ReplaceFirst(page.wohnflaeche, ',', ".");
      apartment.area == Area.ParseArea(areaText)
      && (apartment.area.None? <==> forall i: nat, e: nat :: !Area.AreaMatch(areaText, i, e))
    ensures apartment.rooms == ParseInt(page.zi)
    ensures apartment.rooms.Finite? <==> exists ws, sign, ds, rest :: IsIntegerText(page.zi, ws, sign, ds, rest)
    ensures apartment.rooms.Finite? || apartment.rooms.NaN?
    ensures apartment.images == ScrapImages(page.sliderCount, page.imageSources)
    ensures page.sliderCount == 0 ==> apartment.images == []
    ensures AvailableFrom.Availability(apartment.availableFrom, apartment.isAvailable)
      == AvailableFrom.ParseAvailableFrom(page.bezugsfreiAb, before)
    ensures apartment.postalCode.Absent? <==> Trim(page.addressBlock.text) == ""
    ensures apartment.city.Absent? <==> Trim(page.addressBlock.text) == ""
    ensures apartment.address.Present? <==> Trim(page.addressBlock.text) != "" && |page.addressBlock.children| == 2
    ensures !apartment.address.Null?
    ensures apartment.address.Present? ==>
      |page.addressBlock.children| == 2 && apartment.address.value == Trim(Split(page.addressBlock.children[0], ',')[0])
    ensures apartment.postalCode.Null? <==> apartment.city.Null?
    ensures apartment.postalCode.Null? <==>
      (Trim(page.addressBlock.text) != "" && forall i: nat, c: nat :: !Address.ZipMatch(Address.ZipAndCity(page.addressBlock), i, c))
    ensures apartment.postalCode.Present? <==> apartment.city.Present?
    ensures var zipAndCity := Address.ZipAndCity(page.addressBlock);
      apartment.postalCode.Present? ==> exists i: nat, c: nat ::
        Address.IsZipExec(zipAndCity, i, c)
        && apartment.postalCode.value == zipAndCity[i..i + 5] && apartment.city.value == zipAndCity[i + 6..c]
    ensures apartment.postalCode.Present? ==> |apartment.postalCode.value| == 5 && All(apartment.postalCode.value, Digit)
    ensures apartment.city.Present? ==> |apartment.city.value| > 0 && All(apartment.city.value, NonSpace)
  {
    var rentBase := Price.ParsePrice(page.kaltmiete);
    Price.ParsePriceNullIff(page.kaltmiete);
    var rentTotal := Price.ParsePrice(page.gesamtmiete);
    Price.ParsePriceNullIff(page.gesamtmiete);
    var areaText := ReplaceFirst(page.wohnflaeche, ',', ".");
    var area := Area.ParseArea(areaText);
    Area.ParseAreaNullIff(areaText);
    var rooms := ParseInt(page.zi);
    ParseIntFiniteIff(page.zi);
    var images := ScrapImages(page.sliderCount, page.imageSources);

    var availability := AvailableFrom.ParseAvailableFrom(page.bezugsfreiAb, before);

    var address: Slot<string> := Absent;
    var postalCode: Slot<string> := Absent;
    var city: Slot<string> := Absent;
    if Trim(page.addressBlock.text) != "" {
      var addressInfo := Address.ScrapAddress(page.addressBlock);
      address := ToSlot(addressInfo.address);
      postalCode := ToNullable(addressInfo.postalCode);
      city := ToNullable(addressInfo.city);
    }
    apartment := Apartment(rentBase, rentTotal, area, rooms, images,
      availability.availableFrom, availability.isAvailable, address, postalCode, city);
  }

  /**
   * An area written with a decimal comma is read in full: the comma becomes
   * a point before the pattern runs, so `"54,5 m²"` yields 54.5.
   */
  lemma AreaOfCommaText(ds: string, frac: string, tail: string)
    requires |ds| > 0 && All(ds, Digit) && All(frac, Digit)
    ensures var value := DigitsValue(ds + frac);
      Area.ParseArea(ReplaceFirst(ds + "," + frac + (Area.Unit + tail), ',', "."))
      == Some(Finite(Decimal(value, -|frac|)))
  {
    var rest := frac + (Area.Unit + tail);
    assert ',' !in ds by {
      Area.NoCommaInDigits(ds);
    }
    assert ds + "," + frac + (Area.Unit + tail) == ds + [','] + rest;
    ReplaceFirstAt(ds, rest, ',', ".");
    assert ds + "." + rest == ds + "." + frac + (Area.Unit + tail);
    Area.ParseAreaOfDecimal(ds, frac, tail);
  }

  /** A room count written as digits, possibly after whitespace, is that integer: `"3"` yields 3. */
  lemma RoomsOfDigits(ws: string, ds: string, rest: string)
    requires All(ws, Space) && |ds| > 0 && All(ds, Digit) && (rest == [] || !IsDigit(rest[0]))
    ensures ParseInt(ws + ds + rest) == Finite(Decimal(DigitsValue(ds), 0))
  {
    var s := ws + ds + rest;
    assert s == ws + "" + ds + rest;
    ParseIntOfIntegerText(s, ws, "", ds, rest);
  }
}
