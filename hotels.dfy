/**
 * HotelsService: the list of hotels read from the properties, indexed
 * case-insensitively by name and by lower-cased geographic order.
 */
module Hotels {
  import opened Wrappers
  import opened Ascii
  import opened Data

  /** The bound configuration: a file format version and the hotel list. */
  datatype HotelProperties = HotelProperties(fileVersion: int, hotels: seq<Hotel>)

  /**
   * Why construction fails: Assert.state on the version (IllegalStateException),
   * or a hotel whose name or geographic order is null (NullPointerException
   * while folding the key).
   */
  datatype ServiceError = UnsupportedVersion | NullPointer

  /** Assert.hasLength on a lookup argument (IllegalArgumentException). */
  datatype ArgumentError = EmptyArgument

  /** The hotel is filed under the case-insensitive name `key`. */
  predicate NamedAs(h: Hotel, key: string)
  {
    h.name.Some? && ToLower(h.name.value) == key
  }

  /** The hotel is filed under the lower-cased geographic order `key`. */
  predicate InGeographicOrder(h: Hotel, key: string)
  {
    h.geographicOrder.Some? && ToLower(h.geographicOrder.value) == key
  }

  /** A hotel both indexes can file: it has a name and a geographic order. */
  predicate Indexable(h: Hotel)
  {
    h.name.Some? && h.geographicOrder.Some?
  }

  /** The last hotel of `hs` filed under the name `key`, if any. */
  function LastNamed(hs: seq<Hotel>, key: string): (r: Option<Hotel>)
    ensures r.None? <==> forall i :: 0 <= i < |hs| ==> !NamedAs(hs[i], key)
    ensures r.Some? ==> exists i :: 0 <= i < |hs| && hs[i] == r.value && NamedAs(hs[i], key)
                          && forall j :: i < j < |hs| ==> !NamedAs(hs[j], key)
    decreases |hs|
  {
    if hs == [] then None
    else if NamedAs(hs[|hs| - 1], key) then Some(hs[|hs| - 1])
    else LastNamed(hs[..|hs| - 1], key)
  }

  /** The hotels of `hs` filed under the geographic order `key`, in list order. */
  function WithGeographicOrder(hs: seq<Hotel>, key: string): (r: seq<Hotel>)
    ensures |r| <= |hs|
    ensures forall h :: h in r <==> h in hs && InGeographicOrder(h, key)
    decreases |hs|
  {
    if hs == [] then []
    else
      var last := hs[|hs| - 1];
      WithGeographicOrder(hs[..|hs| - 1], key) + (if InGeographicOrder(last, key) then [last] else [])
  }

  /** Putting one more hotel: it replaces the entry for its name, and only that one. */
  lemma LastNamedSnoc(hs: seq<Hotel>, h: Hotel, key: string)
    ensures LastNamed(hs + [h], key) == if NamedAs(h, key) then Some(h) else LastNamed(hs, key)
  {
    assert (hs + [h])[..|hs|] == hs;
  }

  /** Adding one more hotel: it is appended to the list of its geographic order, and only that one. */
  lemma WithGeographicOrderSnoc(hs: seq<Hotel>, h: Hotel, key: string)
    ensures WithGeographicOrder(hs + [h], key)
            == WithGeographicOrder(hs, key) + (if InGeographicOrder(h, key) then [h] else [])
  {
    assert (hs + [h])[..|hs|] == hs;
  }

  /** Later duplicates win: the hotel found is the last one carrying the name. */
  lemma {:induction false} LastNamedIsLastMatch(hs: seq<Hotel>, key: string, j: nat)
    requires j < |hs| && NamedAs(hs[j], key)
    requires forall k :: j < k < |hs| ==> !NamedAs(hs[k], key)
    ensures LastNamed(hs, key) == Some(hs[j])
    decreases |hs|
  {
    if j < |hs| - 1 {
      var front := hs[..|hs| - 1];
      assert forall k :: j < k < |front| ==> front[k] == hs[k];
      LastNamedIsLastMatch(front, key, j);
    }
  }

  /** The geographic filter keeps list order: filtering a concatenation concatenates the filters. */
  lemma {:induction false} WithGeographicOrderAppend(a: seq<Hotel>, b: seq<Hotel>, key: string)
    ensures WithGeographicOrder(a + b, key) == WithGeographicOrder(a, key) + WithGeographicOrder(b, key)
    decreases |b|
  {
    if b == [] {
      assert a + b == a;
    } else {
      var b', last := b[..|b| - 1], b[|b| - 1];
      assert b == b' + [last];
      assert a + b == (a + b') + [last];
      var tail := if InGeographicOrder(last, key) then [last] else [];
      calc {
        WithGeographicOrder(a + b, key);
        { WithGeographicOrderSnoc(a + b', last, key); }
        WithGeographicOrder(a + b', key) + tail;
        { WithGeographicOrderAppend(a, b', key); }
        WithGeographicOrder(a, key) + WithGeographicOrder(b', key) + tail;
        { WithGeographicOrderSnoc(b', last, key); }
        WithGeographicOrder(a, key) + WithGeographicOrder(b, key);
      }
    }
  }

  function Lookup<K, V>(m: map<K, V>, k: K): Option<V>
  {
    if k in m then Some(m[k]) else None
  }

  function GetOrDefault<K, V>(m: map<K, V>, k: K, default: V): V
  {
    if k in m then m[k] else default
  }

  /** The two indexes agree with the hotel list they were built from. */
  ghost predicate Indexes(hotels: seq<Hotel>, byName: map<string, Hotel>, byGeographicOrder: map<string, seq<Hotel>>)
  {
    && (forall k :: Lookup(byName, k) == LastNamed(hotels, k))
    && (forall k :: GetOrDefault(byGeographicOrder, k, []) == WithGeographicOrder(hotels, k))
  }

  class HotelsService {
    const all: seq<Hotel>
    /** LinkedCaseInsensitiveMap, keyed here by the folded name. */
    const byName: map<string, Hotel>
    /** LinkedMultiValueMap from lower-cased geographic order to hotels. */
    const byGeographicOrder: map<string, seq<Hotel>>

    ghost predicate Valid()
    {
      (forall i :: 0 <= i < |all| ==> Indexable(all[i])) && Indexes(all, byName, byGeographicOrder)
    }

    constructor (all: seq<Hotel>, byName: map<string, Hotel>, byGeographicOrder: map<string, seq<Hotel>>)
      ensures this.all == all && this.byName == byName && this.byGeographicOrder == byGeographicOrder
    {
      this.all := all;
      this.byName := byName;
      this.byGeographicOrder := byGeographicOrder;
    }

    /**
     * The first loop of `new HotelsService(properties)`: every hotel is put
     * into the case-insensitive name map, a later equal name replacing an
     * earlier one. A null name stops construction.
     */
    static method IndexByName(hotels: seq<Hotel>) returns (r: Result<map<string, Hotel>, ServiceError>)
      ensures r.Ok? <==> forall i :: 0 <= i < |hotels| ==> hotels[i].name.Some?
      ensures r.Err? ==> r.error == NullPointer
      ensures r.Ok? ==> forall k :: Lookup(r.value, k) == LastNamed(hotels, k)
    {
      var byName: map<string, Hotel> := map[];
      var i := 0;
      while i < |hotels|
        invariant 0 <= i <= |hotels|
        invariant forall j :: 0 <= j < i ==> hotels[j].name.Some?
        invariant forall k :: Lookup(byName, k) == LastNamed(hotels[..i], k)
      {
        var hotel := hotels[i];
        if hotel.name.None? {
          return Err(NullPointer);
        }
        byName := byName[ToLower(hotel.name.value) := hotel];
        assert hotels[..i + 1] == hotels[..i] + [hotel];
        forall k ensures Lookup(byName, k) == LastNamed(hotels[..i + 1], k) {
          LastNamedSnoc(hotels[..i], hotel, k);
        }
        i := i + 1;
      }
      assert hotels[..i] == hotels;
      return Ok(byName);
    }

    /**
     * The second loop of `new HotelsService(properties)`: every hotel is
     * appended to the list of its lower-cased geographic order. A null
     * geographic order stops construction.
     */
    static method IndexByGeographicOrder(hotels: seq<Hotel>) returns (r: Result<map<string, seq<Hotel>>, ServiceError>)
      ensures r.Ok? <==> forall i :: 0 <= i < |hotels| ==> hotels[i].geographicOrder.Some?
      ensures r.Err? ==> r.error == NullPointer
      ensures r.Ok? ==> forall k :: GetOrDefault(r.value, k, []) == WithGeographicOrder(hotels, k)
    {
      var byGeographicOrder: map<string, seq<Hotel>> := map[];
      var i := 0;
      while i < |hotels|
        invariant 0 <= i <= |hotels|
        invariant forall j :: 0 <= j < i ==> hotels[j].geographicOrder.Some?
        invariant forall k :: GetOrDefault(byGeographicOrder, k, []) == WithGeographicOrder(hotels[..i], k)
      {
        var hotel := hotels[i];
        if hotel.geographicOrder.None? {
          return Err(NullPointer);
        }
        var key := ToLower(hotel.geographicOrder.value);
        byGeographicOrder := byGeographicOrder[key := GetOrDefault(byGeographicOrder, key, []) + [hotel]];
        assert hotels[..i + 1] == hotels[..i] + [hotel];
        forall k ensures GetOrDefault(byGeographicOrder, k, []) == WithGeographicOrder(hotels[..i + 1], k) {
          WithGeographicOrderSnoc(hotels[..i], hotel, k);
        }
        i := i + 1;
      }
      assert hotels[..i] == hotels;
      return Ok(byGeographicOrder);
    }

    /**
     * `new HotelsService(properties)`: only version 1 is accepted; then the
     * name index and the geographic-order index are built from the hotels.
     */
    static method Create(properties: HotelProperties) returns (r: Result<HotelsService, ServiceError>)
      ensures properties.fileVersion != 1 <==> r == Err(UnsupportedVersion)
      ensures properties.fileVersion == 1 ==>
                (r.Ok? <==> forall i :: 0 <= i < |properties.hotels| ==> Indexable(properties.hotels[i]))
      ensures r.Err? ==> r == Err(UnsupportedVersion) || r == Err(NullPointer)
      ensures r.Ok? ==> fresh(r.value) && r.value.Valid() && r.value.GetAll() == properties.hotels
    {
      if properties.fileVersion != 1 {
        return Err(UnsupportedVersion);
      }
      var hotels := properties.hotels;
      var byName := IndexByName(hotels);
      if byName.Err? {
        return Err(byName.error);
      }
      var byGeographicOrder := IndexByGeographicOrder(hotels);
      if byGeographicOrder.Err? {
        return Err(byGeographicOrder.error);
      }
      var service := new HotelsService(hotels, byName.value, byGeographicOrder.value);
      return Ok(service);
    }

    /** `getAll()`: the hotels in the order the properties list them. */
    function GetAll(): (r: seq<Hotel>)
      ensures Valid() ==> forall i :: 0 <= i < |r| ==> Indexable(r[i])
    {
      all
    }

    /**
     * `findByName(name)`: null and "" are argument errors; otherwise the last
     * hotel whose name equals `name` ignoring case, or None.
     */
    function FindByName(name: Option<string>): (r: Result<Option<Hotel>, ArgumentError>)
      requires Valid()
      ensures r.Err? <==> name.None? || name.value == ""
      ensures r.Ok? ==> r.value == LastNamed(all, ToLower(name.value))
    {
      if name.None? || |name.value| == 0 then Err(EmptyArgument)
      else Ok(Lookup(byName, ToLower(name.value)))
    }

    /**
     * `findByGeographicOrder(value)`: null and "" are argument errors; otherwise
     * the hotels whose geographic order equals `value` ignoring case, in list
     * order, and the empty list when there are none.
     */
    function FindByGeographicOrder(geographicOrder: Option<string>): (r: Result<seq<Hotel>, ArgumentError>)
      requires Valid()
      ensures r.Err? <==> geographicOrder.None? || geographicOrder.value == ""
      ensures r.Ok? ==> r.value == WithGeographicOrder(all, ToLower(geographicOrder.value))
    {
      if geographicOrder.None? || |geographicOrder.value| == 0 then Err(EmptyArgument)
      else Ok(GetOrDefault(byGeographicOrder, ToLower(geographicOrder.value), []))
    }
  }

  /** Name lookups ignore case: queries equal ignoring case find the same hotel. */
  lemma FindByNameIgnoresCase(service: HotelsService, a: string, b: string)
    requires service.Valid()
    requires a != "" && EqualsIgnoreCase(a, b)
    ensures service.FindByName(Some(a)) == service.FindByName(Some(b))
  {
  }

  /** What findByName finds is a hotel of the list carrying the queried name. */
  lemma FoundHotelMatches(service: HotelsService, name: string, h: Hotel)
    requires service.Valid()
    requires service.FindByName(Some(name)) == Ok(Some(h))
    ensures h in service.GetAll() && h.name.Some? && EqualsIgnoreCase(h.name.value, name)
  {
    ToLowerIdempotent(name);
  }

  /** findByName finds nothing exactly when no hotel carries the name, ignoring case. */
  lemma NotFoundMeansNoMatch(service: HotelsService, name: string)
    requires service.Valid() && name != ""
    ensures service.FindByName(Some(name)) == Ok(None)
            <==> forall h :: h in service.GetAll() ==> !EqualsIgnoreCase(h.name.value, name)
  {
    ToLowerIdempotent(name);
    var all := service.GetAll();
    if service.FindByName(Some(name)) != Ok(None) {
      var h := service.FindByName(Some(name)).value.value;
      FoundHotelMatches(service, name, h);
    } else {
      forall h | h in all ensures !EqualsIgnoreCase(h.name.value, name) {
        var i :| 0 <= i < |all| && all[i] == h;
        assert !NamedAs(all[i], ToLower(name));
      }
    }
  }

  /** Every hotel findByGeographicOrder returns is of that geographic order, and none is missed. */
  lemma GeographicOrderExact(service: HotelsService, value: string, h: Hotel)
    requires service.Valid() && value != ""
    ensures h in service.FindByGeographicOrder(Some(value)).value
            <==> h in service.GetAll() && EqualsIgnoreCase(h.geographicOrder.value, value)
  {
    ToLowerIdempotent(value);
    var all := service.GetAll();
    if h in all {
      var i :| 0 <= i < |all| && all[i] == h;
      assert Indexable(all[i]);
    }
  }

  /** The five hotels of the service tests: three in the south, then two in the east. */
  function SampleHotels(): (hs: seq<Hotel>)
    ensures |hs| == 5 && forall i :: 0 <= i < |hs| ==> Indexable(hs[i])
  {
    [Hotel(Some("n1"), Some("a1"), None, 1, Some("1991"), Some("o1"), Some("t1"), None, Some("south")),
     Hotel(Some("n2"), Some("a2"), None, 2, Some("1992"), Some("o2"), Some("t2"), None, Some("south")),
     Hotel(Some("n3"), Some("a3"), None, 3, Some("1993"), Some("o3"), Some("t3"), None, Some("south")),
     Hotel(Some("n4"), Some("a4"), None, 4, Some("1994"), Some("o4"), Some("t4"), None, Some("east")),
     Hotel(Some("n5"), Some("a5"), None, 5, Some("1995"), Some("o5"), Some("t5"), None, Some("east"))]
  }

  /** The third sample hotel is the last one filed under "n3". */
  lemma SampleThirdNamed()
    ensures LastNamed(SampleHotels(), "n3") == Some(SampleHotels()[2])
  {
    var hs := SampleHotels();
    assert ToLower("n3") == "n3";
    assert ToLower("n4")[1] == '4' && ToLower("n5")[1] == '5';
    LastNamedIsLastMatch(hs, "n3", 2);
  }

  /** No sample hotel is filed under "missing". */
  lemma SampleMissingName()
    ensures LastNamed(SampleHotels(), "missing").None?
  {
    var hs := SampleHotels();
    forall i | 0 <= i < |hs| ensures !NamedAs(hs[i], "missing") {
      assert ToLower(hs[i].name.value)[0] == 'n';
    }
  }

  /** "n3" and "N3" both find the third hotel; "missing" finds none. */
  lemma SampleNameLookups()
    ensures LastNamed(SampleHotels(), ToLower("n3")) == Some(SampleHotels()[2])
    ensures LastNamed(SampleHotels(), ToLower("N3")) == Some(SampleHotels()[2])
    ensures LastNamed(SampleHotels(), ToLower("missing")).None?
  {
    assert ToLower("n3") == "n3" == ToLower("N3");
    assert ToLower("missing") == "missing";
    SampleThirdNamed();
    SampleMissingName();
  }

  /** No hotel of the geographic order: the filter is empty. */
  lemma NoneInGeographicOrder(hs: seq<Hotel>, key: string)
    requires forall i :: 0 <= i < |hs| ==> !InGeographicOrder(hs[i], key)
    ensures WithGeographicOrder(hs, key) == []
  {
  }

  /** Every hotel of the geographic order: the filter keeps the whole list. */
  lemma {:induction false} AllInGeographicOrder(hs: seq<Hotel>, key: string)
    requires forall i :: 0 <= i < |hs| ==> InGeographicOrder(hs[i], key)
    ensures WithGeographicOrder(hs, key) == hs
    decreases |hs|
  {
    if hs != [] {
      var front, last := hs[..|hs| - 1], hs[|hs| - 1];
      AllInGeographicOrder(front, key);
      WithGeographicOrderSnoc(front, last, key);
      assert front + [last] == hs;
    }
  }

  /** The two eastern hotels, in list order. */
  lemma SampleEast()
    ensures WithGeographicOrder(SampleHotels()[3..], "east") == SampleHotels()[3..]
  {
    var east := SampleHotels()[3..];
    assert ToLower("east") == "east";
    assert InGeographicOrder(east[0], "east") && InGeographicOrder(east[1], "east");
    AllInGeographicOrder(east, "east");
  }

  /** "east" and "EAsT" both give the fourth and fifth hotels, in that order. */
  lemma SampleGeographicOrderFound()
    ensures WithGeographicOrder(SampleHotels(), ToLower("east")) == SampleHotels()[3..]
    ensures WithGeographicOrder(SampleHotels(), ToLower("EAsT")) == SampleHotels()[3..]
  {
    var hs := SampleHotels();
    assert ToLower("EAsT") == "east" == ToLower("east");
    assert ToLower("south")[0] == 's';
    NoneInGeographicOrder(hs[..3], "east");
    SampleEast();
    WithGeographicOrderAppend(hs[..3], hs[3..], "east");
    assert hs[..3] + hs[3..] == hs;
  }

  /** "north" gives no hotel. */
  lemma SampleGeographicOrderMissing()
    ensures WithGeographicOrder(SampleHotels(), ToLower("north")) == []
  {
    var hs := SampleHotels();
    assert ToLower("north")[0] == 'n' && ToLower("south")[0] == 's' && ToLower("east")[0] == 'e';
    NoneInGeographicOrder(hs, ToLower("north"));
  }
}
