/**
 * The `eventsWithCoords` step shared by helperFunctions/scrapeBSU.js and
 * helperFunctions/scrapeBYU.js: every scraped event's location text
 * ("Lawrence, Kansas / Rim Rock Farm") is split into a location and a
 * venue, the location into a city and a state, and the coordinates of
 * that city are looked up. The lookup is a parameter; in both scrapers it
 * is `getCityCoordsNode`, the lookup `CityCoords.CityLookup` in the place
 * table.
 */
module Scrape {
  import opened Wrappers
  import opened JsString
  import CityCoords

  /**
   * `element?.textContent.trim() || fallback`: the trimmed text of an
   * element the page query found, or `fallback` when there is no such
   * element or its text is blank.
   */
  function TextOr(element: Option<string>, fallback: string): (r: string)
    ensures element.Some? && Trim(element.value) != "" ==> r == Trim(element.value)
    ensures element.None? || Trim(element.value) == "" ==> r == fallback
    ensures r == "" ==> fallback == ""
    ensures IsTrimmed(fallback) ==> IsTrimmed(r)
  {
    if element.Some? && Trim(element.value) != "" then Trim(element.value) else fallback
  }

  /** A record as the page extraction produces it. */
  datatype RawEvent = RawEvent(title: string, sport: string, date: string, time: string, location: string)

  /** A saved record; `None` coordinates are saved as `null`. */
  datatype LocatedEvent = LocatedEvent(title: string, sport: string, date: string, time: string,
                                       location: string, venue: string,
                                       latitude: Option<string>, longitude: Option<string>)

  /**
   * `location.split('/')`: the trimmed text before the first '/' and the
   * trimmed text between the first and the second '/' ("" without a '/');
   * later pieces are dropped.
   */
  function LocationParts(text: string): (r: (string, string))
    ensures var j := IndexOfFrom(text, '/', 0);
            && r.0 == Trim(text[..j])
            && (j == |text| ==> r.1 == "")
            && (j < |text| ==> var rest := text[j + 1..]; r.1 == Trim(rest[..IndexOfFrom(rest, '/', 0)]))
  {
    var parts := Split(text, '/');
    SplitFirstTwo(text, '/');
    (Trim(parts[0]), if |parts| > 1 then Trim(parts[1]) else "")
  }

  /**
   * `location.split(',')` when it has at least two pieces: the first two,
   * trimmed, as city and state. There are two pieces exactly when the
   * location has a comma.
   */
  function CityState(location: string): (r: Option<(string, string)>)
    ensures r.Some? <==> ',' in location
    ensures r.Some? ==>
              var i := IndexOfFrom(location, ',', 0);
              var rest := location[i + 1..];
              r.value == (Trim(location[..i]), Trim(rest[..IndexOfFrom(rest, ',', 0)]))
  {
    var parts := Split(location, ',');
    SplitFirstTwo(location, ',');
    if |parts| >= 2 then Some((Trim(parts[0]), Trim(parts[1]))) else None
  }

  /**
   * The record saved for one event: the extracted fields copied, the
   * location and venue split apart, and the coordinates set only when the
   * location names a city and state that the lookup finds.
   */
  function AddCoords(e: RawEvent, lookup: (string, string) -> Option<CityCoords.CityCoords>): (r: LocatedEvent)
    ensures r.title == e.title && r.sport == e.sport && r.date == e.date && r.time == e.time
    ensures e.location == "" ==> r.location == "" && r.venue == "" && r.latitude.None? && r.longitude.None?
    ensures e.location != "" ==> (r.location, r.venue) == LocationParts(e.location)
    ensures r.latitude.Some? <==> r.longitude.Some?
    ensures r.latitude.Some? <==>
              && e.location != ""
              && CityState(r.location).Some?
              && lookup(CityState(r.location).value.0, CityState(r.location).value.1).Some?
    ensures r.latitude.Some? ==>
              var coords := lookup(CityState(r.location).value.0, CityState(r.location).value.1).value;
              r.latitude == Some(coords.lat) && r.longitude == Some(coords.lon)
  {
    if e.location == "" then
      LocatedEvent(e.title, e.sport, e.date, e.time, "", "", None, None)
    else
      var (location, venue) := LocationParts(e.location);
      var cityState := CityState(location);
      var coords := if cityState.Some? then lookup(cityState.value.0, cityState.value.1) else None;
      LocatedEvent(e.title, e.sport, e.date, e.time, location, venue,
                   if coords.Some? then Some(coords.value.lat) else None,
                   if coords.Some? then Some(coords.value.lon) else None)
  }

  /** `events.map(...)`: one saved record per event, in the same order. */
  function EventsWithCoords(events: seq<RawEvent>, lookup: (string, string) -> Option<CityCoords.CityCoords>)
    : (r: seq<LocatedEvent>)
    ensures |r| == |events|
    ensures forall i :: 0 <= i < |r| ==> r[i] == AddCoords(events[i], lookup)
  {
    if events == [] then [] else [AddCoords(events[0], lookup)] + EventsWithCoords(events[1..], lookup)
  }

  /** A saved location never keeps a '/' and is trimmed; the venue is trimmed too. */
  lemma LocatedShape(e: RawEvent, lookup: (string, string) -> Option<CityCoords.CityCoords>)
    ensures '/' !in AddCoords(e, lookup).location
    ensures IsTrimmed(AddCoords(e, lookup).location) && IsTrimmed(AddCoords(e, lookup).venue)
  {
    var r := AddCoords(e, lookup);
    if e.location != "" {
      var j := IndexOfFrom(e.location, '/', 0);
      if '/' in r.location {
        TrimChars(e.location[..j], '/');
      }
    }
  }
}
