/** The details modal of a property: whether it renders at all, whether the
    record has usable coordinates, the map embed URL built from them, and the
    placeholder used when the record has no image. */
module PropertyModal {
  import opened JsStrings
  import opened JsValues

  const MapPrefix: string := "https://maps.google.com/maps?q="
  const MapSuffix: string := "&z=14&output=embed"
  const FallbackImage: string := "https://source.unsplash.com/600x400/?house"

  /** `typeof latitude === "number" && typeof longitude === "number" &&
      !isNaN(latitude) && !isNaN(longitude)`. */
  predicate HasCoordinates(latitude: JsValue, longitude: JsValue) {
    TypeofNumber(latitude) && TypeofNumber(longitude) && !IsNaN(latitude) && !IsNaN(longitude)
  }

  /** Both coordinates must be numbers proper: a NaN, a numeric string or a
      missing value on either side rules the map out. */
  lemma HasCoordinatesExactlyForNumbers(latitude: JsValue, longitude: JsValue)
    ensures HasCoordinates(latitude, longitude) <==> latitude.Num? && longitude.Num?
  {
  }

  /** `${latitude},${longitude}`. */
  function CoordinatesText(latitude: int, longitude: int): string {
    NumberToString(latitude) + "," + NumberToString(longitude)
  }

  /** `mapSrc`: the embed URL when there are coordinates, `null` otherwise
      (see MapSrcShowsCoordinates for its text). */
  function MapSrc(latitude: JsValue, longitude: JsValue): (r: Option<string>)
    ensures r.Some? <==> latitude.Num? && longitude.Num?
  {
    HasCoordinatesExactlyForNumbers(latitude, longitude);
    if HasCoordinates(latitude, longitude) then
      Some(MapPrefix + CoordinatesText(latitude.n, longitude.n) + MapSuffix)
    else None
  }

  /** The embed URL is a Google Maps URL whose text holds `latitude,longitude`. */
  lemma MapSrcShowsCoordinates(latitude: JsValue, longitude: JsValue)
    requires latitude.Num? && longitude.Num?
    ensures var url := MapSrc(latitude, longitude).value;
      && url[..|MapPrefix|] == MapPrefix
      && Includes(url, CoordinatesText(latitude.n, longitude.n))
  {
    UrlShape(MapPrefix, CoordinatesText(latitude.n, longitude.n), MapSuffix);
  }

  lemma UrlShape(a: string, c: string, b: string)
    ensures (a + c + b)[..|a|] == a && Includes(a + c + b, c)
  {
    IncludesMiddle(a, c, b);
    assert (a + c + b)[..|a|] == a;
  }

  /** The coordinates can be read back from the URL: it is the prefix, two
      decimal numbers separated by a comma, and the suffix, and `Number(...)`
      of those two parts gives the latitude and the longitude. */
  lemma MapSrcRecoversCoordinates(latitude: JsValue, longitude: JsValue)
    requires latitude.Num? && longitude.Num?
    ensures exists a: string, b: string ::
      && MapSrc(latitude, longitude).value == MapPrefix + a + "," + b + MapSuffix
      && ',' !in a && ',' !in b
      && StringToNumber(a) == latitude && StringToNumber(b) == longitude
  {
    var a, b := NumberToString(latitude.n), NumberToString(longitude.n);
    NumberToStringHasNoComma(latitude.n);
    NumberToStringHasNoComma(longitude.n);
    assert MapSrc(latitude, longitude).value == MapPrefix + (a + "," + b) + MapSuffix;
    assert MapPrefix + (a + "," + b) + MapSuffix == MapPrefix + a + "," + b + MapSuffix;
  }

  lemma NumberToStringHasNoComma(n: int)
    ensures ',' !in NumberToString(n)
  {
    var m := if n < 0 then -n else n;
    var d := DecimalDigits(m);
    assert forall i | 0 <= i < |d| :: IsDigit(d[i]);
    if n < 0 {
      assert NumberToString(n) == "-" + d;
    } else {
      assert NumberToString(n) == d;
    }
  }

  /** `image && image.trim() !== "" ? image : FallbackImage`. A truthy image
      that is not a string has no `trim` and throws. */
  function ImageSrc(image: JsValue): (r: Completion<JsValue>)
    ensures r == ThrowTypeError <==> Truthy(image) && !image.Str?
    ensures image.Str? && !AllWhitespace(image.s) ==> r == Normal(image)
    ensures !Truthy(image) || (image.Str? && AllWhitespace(image.s)) ==> r == Normal(Str(FallbackImage))
  {
    if !Truthy(image) then Normal(Str(FallbackImage))
    else if !image.Str? then ThrowTypeError
    else if Trim(image.s) != "" then Normal(image)
    else Normal(Str(FallbackImage))
  }

  /** The parts of the modal that depend on the record. */
  datatype ModalView = ModalView(open: bool, title: JsValue, imageSrc: JsValue, mapSection: Option<string>)

  /** `PropertyModal({ visible, property })`; `None` stands for a missing
      (null or undefined) property. */
  function Render(visible: bool, property: Option<Record>): (r: Completion<Option<ModalView>>)
    ensures property.None? ==> r == Normal(None)
    ensures property.Some? ==>
      var p := property.value;
      && (r.Normal? <==> ImageSrc(Get(p, "image")).Normal?)
      && (r.Normal? ==>
            && r.value.Some?
            && r.value.value.open == visible
            && r.value.value.title == Get(p, "name")
            && r.value.value.imageSrc == ImageSrc(Get(p, "image")).value
            && (r.value.value.mapSection.Some? <==> HasCoordinates(Get(p, "latitude"), Get(p, "longitude")))
            && r.value.value.mapSection == MapSrc(Get(p, "latitude"), Get(p, "longitude")))
  {
    match property
    case None => Normal(None)
    case Some(p) =>
      match ImageSrc(Get(p, "image"))
      case ThrowTypeError => ThrowTypeError
      case Normal(src) =>
        Normal(Some(ModalView(visible, Get(p, "name"), src, MapSrc(Get(p, "latitude"), Get(p, "longitude")))))
  }
}
