/** HotelSummary: the JSON view of a hotel returned by the hotel endpoints. */
module Summaries {
  import opened Wrappers
  import opened Ascii
  import opened Data
  import opened UriEncoding

  /** The five summary fields; an absent field is left out of the JSON. */
  datatype HotelSummary = HotelSummary(
    name: Option<string>,
    address: Option<string>,
    image: Option<string>,
    architects: Option<string>,
    geographicOrder: Option<string>)

  /** Where the image endpoint is served; the summary links to it. */
  const ImageBase: string := "http://localhost:8080/images/"

  /** The separator between architect names. */
  const ArchitectSeparator: string := " | "

  /**
   * StringUtils.collectionToDelimitedString: the elements in order with
   * `delimiter` between neighbours; the empty list gives "".
   */
  function Join(xs: seq<string>, delimiter: string): (r: string)
    ensures xs == [] ==> r == ""
    ensures |xs| == 1 ==> r == xs[0]
    ensures |xs| > 0 ==> |r| >= |xs[0]| && r[..|xs[0]|] == xs[0]
    decreases |xs|
  {
    if xs == [] then ""
    else if |xs| == 1 then xs[0]
    else xs[0] + delimiter + Join(xs[1..], delimiter)
  }

  /**
   * The StringBuilder form of the join: appending one more element appends
   * the delimiter and that element.
   */
  lemma {:induction false} JoinSnoc(xs: seq<string>, x: string, delimiter: string)
    requires xs != []
    ensures Join(xs + [x], delimiter) == Join(xs, delimiter) + delimiter + x
    decreases |xs|
  {
    if |xs| == 1 {
      assert xs + [x] == [xs[0], x];
      assert [xs[0], x][1..] == [x];
    } else {
      assert (xs + [x])[1..] == xs[1..] + [x];
      JoinSnoc(xs[1..], x, delimiter);
    }
  }

  /** The total length of the parts. */
  function TotalLength(xs: seq<string>): nat
  {
    if xs == [] then 0 else |xs[0]| + TotalLength(xs[1..])
  }

  /** Nothing is lost or added but the delimiters: one between each pair of neighbours. */
  lemma {:induction false} JoinLength(xs: seq<string>, delimiter: string)
    requires xs != []
    ensures |Join(xs, delimiter)| == TotalLength(xs) + (|xs| - 1) * |delimiter|
    decreases |xs|
  {
    if |xs| > 1 {
      JoinLength(xs[1..], delimiter);
    }
  }

  /** The URL the summary gives for an image name. */
  function ImageUrl(image: string): (url: string)
    ensures |url| >= |ImageBase| && url[..|ImageBase|] == ImageBase
    ensures DecodePath(url[|ImageBase|..]) == Some(image)
  {
    var url := ImageBase + EncodePath(image);
    assert url[|ImageBase|..] == EncodePath(image);
    url
  }

  /** Image names made of plain path characters appear in the URL as they are. */
  lemma PlainImageUrl(image: string)
    requires forall i :: 0 <= i < |image| ==> IsPathAllowed(image[i])
    ensures ImageUrl(image) == ImageBase + image
  {
    EncodePathKeepsAllowed(image);
  }

  /**
   * `HotelSummary.get(hotel)`: null gives null; otherwise each present field
   * of the hotel is carried over (the name capitalized, the image turned into
   * a URL, the architects joined) and each absent one stays absent.
   */
  function Get(hotel: Option<Hotel>): (r: Option<HotelSummary>)
    ensures r.None? <==> hotel.None?
    ensures r.Some? ==> var h, s := hotel.value, r.value;
      // the name: present exactly when the hotel's is, same length, same ignoring case,
      // first character upper case, the rest as it was
      && (s.name.Some? <==> h.name.Some?)
      && (s.name.Some? ==> |s.name.value| == |h.name.value|
                           && EqualsIgnoreCase(s.name.value, h.name.value)
                           && (|s.name.value| > 0 ==>
                                 !IsLower(s.name.value[0]) && s.name.value[1..] == h.name.value[1..]))
      // address and geographic order are copied verbatim, absent or not
      && s.address == h.address
      && s.geographicOrder == h.geographicOrder
      // the image becomes a link to the image endpoint that decodes back to the name
      && (s.image.Some? <==> h.image.Some?)
      && (s.image.Some? ==> s.image.value == ImageUrl(h.image.value)
                            && DecodePath(s.image.value[|ImageBase|..]) == Some(h.image.value))
      // the architects are joined in order
      && (s.architects.Some? <==> h.architects.Some?)
      && (s.architects.Some? ==> s.architects.value == Join(h.architects.value, ArchitectSeparator))
  {
    match hotel
    case None => None
    case Some(h) =>
      Some(HotelSummary(
        name := if h.name.Some? then Some(Capitalize(h.name.value)) else None,
        address := h.address,
        image := if h.image.Some? then Some(ImageUrl(h.image.value)) else None,
        architects := if h.architects.Some? then Some(Join(h.architects.value, ArchitectSeparator)) else None,
        geographicOrder := h.geographicOrder))
  }

  /** The rooms, the opening year, the operator and the theme never reach the summary. */
  lemma GetIgnoresOtherFields(h: Hotel, rooms: int, openedYear: Option<string>,
                              operator: Option<string>, theme: Option<string>)
    ensures Get(Some(h)) == Get(Some(h.(rooms := rooms, openedYear := openedYear, operator := operator, theme := theme)))
  {
  }

  /** A hotel with only a name and a geographic order gives a summary with only those two. */
  lemma GetKeepsAbsentFields(h: Hotel)
    requires h.address.None? && h.image.None? && h.architects.None?
    ensures var s := Get(Some(h)).value;
            s.address.None? && s.image.None? && s.architects.None?
  {
  }
}
