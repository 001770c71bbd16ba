/**
 * The browser version of the city lookup in helperFunctions/cityCoords.js:
 * the place table is fetched once, kept in two module globals (the text and
 * a loaded flag), and every lookup reads the cached text. The globals become
 * the fields of `CityTable`; the fetch becomes a parameter holding what it
 * delivered (`None` when it failed).
 */
module CityCoordsCache {
  import opened Wrappers
  import opened CityCoords
  import Table = CityCoords

  /** What a lookup finds in the cached text: nothing without usable text. */
  function CachedLookup(data: Option<string>, city: string, state: string): (r: Option<CityCoords>)
    ensures data.None? || data.value == "" ==> r == None
    ensures data.Some? && data.value != "" ==> r == CityLookup(data.value, city, state)
  {
    if data.None? || data.value == "" then None else CityLookup(data.value, city, state)
  }

  /** An empty text holds no table: a lookup in it finds nothing. */
  lemma EmptyTextFindsNothing(city: string, state: string)
    ensures CachedLookup(Some(""), city, state) == None
    ensures CityLookup("", city, state) == None
  {
    assert Lines("") == [""];
  }

  class CityTable {
    /** `cityCoordinatesData`: the fetched text, `null` before a successful load. */
    var data: Option<string>
    /** `cityCoordinatesLoaded`. */
    var loaded: bool

    /** The flag is set exactly when text has been stored. */
    predicate Valid()
      reads this
    {
      loaded <==> data.Some?
    }

    /** The state at page load: nothing fetched yet. */
    constructor()
      ensures Valid() && !loaded && data == None
    {
      data := None;
      loaded := false;
    }

    /**
     * `loadCityCoordinates`: a no-op once loaded; otherwise stores the
     * fetched text, or throws (reported as `threw`) and leaves the cache
     * empty when the fetch failed.
     */
    method Load(fetched: Option<string>) returns (threw: bool)
      requires Valid()
      modifies this
      ensures Valid()
      ensures old(loaded) ==> !threw && data == old(data) && loaded
      ensures !old(loaded) ==> (threw <==> fetched.None?)
      ensures !old(loaded) && threw ==> !loaded && data == None
      ensures !old(loaded) && !threw ==> loaded && data == fetched
    {
      if loaded {
        return false;
      }
      if fetched.None? {
        return true;
      }
      data := fetched;
      loaded := true;
      threw := false;
    }

    /**
     * The asynchronous `getCityCoords`: loads the table when it is not yet
     * loaded (a failed load makes the call throw), then answers from the
     * cached text, `null` when that text is empty.
     */
    method GetCityCoords(city: string, state: string, fetched: Option<string>)
      returns (threw: bool, r: Option<CityCoords>)
      requires Valid()
      modifies this
      ensures Valid()
      ensures threw <==> !old(loaded) && fetched.None?
      ensures threw ==> r == None && !loaded
      ensures !threw ==> loaded && r == CachedLookup(data, city, state)
      ensures old(loaded) ==> data == old(data)
      ensures !old(loaded) && !threw ==> data == fetched
    {
      if !loaded {
        threw := Load(fetched);
        if threw {
          return true, None;
        }
      }
      threw := false;
      if data.None? || data.value == "" {
        return false, None;
      }
      r := Table.GetCityCoords(data.value, city, state);
    }

    /**
     * `getCityCoordsSync`: answers from the cache only, `null` when nothing
     * has been loaded or the loaded text is empty.
     */
    method GetCityCoordsSync(city: string, state: string) returns (r: Option<CityCoords>)
      requires Valid()
      ensures !loaded ==> r == None
      ensures loaded ==> r == CachedLookup(data, city, state)
    {
      if !loaded || data.value == "" {
        return None;
      }
      r := Table.GetCityCoords(data.value, city, state);
    }
  }
}
