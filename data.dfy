/** The hotel record shared by the service, the summary projection and the controller. */
module Data {
  import opened Wrappers

  /**
   * A single hotel. Every field that Java declares as a reference may be null
   * and is therefore optional here; `rooms` is a primitive int.
   */
  datatype Hotel = Hotel(
    name: Option<string>,
    address: Option<string>,
    image: Option<string>,
    rooms: int,
    openedYear: Option<string>,  // the record component `opened` (`opened` is a Dafny keyword)
    operator: Option<string>,
    theme: Option<string>,
    architects: Option<seq<string>>,
    geographicOrder: Option<string>)
}
