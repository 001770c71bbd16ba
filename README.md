# ComeToMeSports location and matching core, in Dafny

ComeToMeSports finds college sports events near a ZIP code. This project
models the parts of it that resolve and match locations.

- **Place table lookup** (`getCityCoords` in `cityCoords.js` and
  `helperFunctions/cityCoords.js`).
  - A CSV line splitter (`parseCSVLine`) with quoted fields and `""` escapes.
  - A scan of the place table that returns the coordinates of the first row
    whose city and state (code or name) match the query. Matching ignores
    case and surrounding spaces.
  - The browser copy wraps this in a cache that is loaded at most once.
  - The Node copy (`getCityCoordsNode`) and the sync copy repeat the same
    loop. One method models every copy: `CityCoords.GetCityCoords`, proved
    against the function `CityCoords.CityLookup`.
  - The two identical `parseCSVLine` functions are both modelled by
    `CsvLine.ParseCsvLine`.
- **Location normaliser** (`normalizeBSULocation` and
  `getBSULocationForCoords`). It turns scraped Boise State location texts
  into a city and a two-letter state code. The steps are, in order:
  - a venue table;
  - the first parenthesised group;
  - the comma split;
  - the cut at `/` in the state;
  - the state abbreviation table.
- **ZIP table** (`helperFunctions/zipCoords.js`). It maps ZIP codes to
  coordinates and is filled row by row from the ZIP file.
- **Search page** (`app.js`):
  - the five-digit ZIP check;
  - the digit-only input filter;
  - the order of the search handler's checks;
  - `findEventsNearZip`: add a distance to each event, keep those within the
    radius, sort by distance.

  The distance function is a parameter, so everything is proved for every
  distance.
- **Scraper post-processing** (`helperFunctions/scrapeBSU.js`,
  `helperFunctions/scrapeBYU.js`):
  - the rules that build event records from the texts found on the page;
  - the shared `eventsWithCoords` step, which splits each location into
    location, venue, city and state and looks the city up.

  The lookup is a parameter. In both scrapers it is `getCityCoordsNode`,
  that is `CityCoords.CityLookup` on the place table's text.

Modules:

| module | file | models |
|---|---|---|
| `Wrappers` | `wrappers.dfy` | `Option` (`None` stands for `null`/`undefined`) |
| `JsString` | `js_string.dfy` | `trim`, ASCII `toLowerCase`, `split` on one character, `indexOf`, `\d` |
| `CsvLine` | `csv_line.dfy` | `parseCSVLine` |
| `CityCoords` | `city_coords.dfy` | the place table scan of `getCityCoords` |
| `CityCoordsCache` | `city_coords_cache.dfy` | the load-once cache of `helperFunctions/cityCoords.js` |
| `LocationCity` | `location_city.dfy` | `helperFunctions/locationCity.js` |
| `ZipCoords` | `zip_coords.dfy` | `helperFunctions/zipCoords.js` |
| `App` | `app.dfy` | the search logic of `app.js` |
| `Scrape` | `scrape.dfy` | `eventsWithCoords`, shared by both scrapers |
| `ScrapeBsu` | `scrape_bsu.dfy` | record extraction in `helperFunctions/scrapeBSU.js` |
| `ScrapeByu` | `scrape_byu.dfy` | record extraction in `helperFunctions/scrapeBYU.js` |

The notes below list behaviour the code has that a reader might not
expect; the model follows the code in each case:

- The normaliser cuts the state at `/` only after the comma split
  (`helperFunctions/locationCity.js:119`). It never splits the whole text on
  `/` before the comma split.
- No step drops events whose coordinates are `null`. In JavaScript `null`
  counts as 0, so such events are measured from (0, 0). That is why the
  distance is a parameter over the whole event.
- There is no sport or category filter anywhere in the search.
- When the place table's header has no `city` column, every lookup returns
  `null` (`CityCoords.NoCityColumn`). A missing `lat` or longitude column
  gives an unparseable value, which is kept here as the empty text.
- `handleSearch` tests `window.zipCoordsLoaded`, which is never set because
  a top-level `let` is not a property of `window`. So every search goes
  through `loadZipCoords`, which itself returns at once when the table is
  loaded. `App.HandleSearch` models exactly that.
- The BYU title for an item without an opponent element ends in the text
  `undefined`. The `|| ''` fallback on the title never applies, because the
  title always starts with "BYU ".

## Model

| member | source | states |
|---|---|---|
| JsString.Trim | helperFunctions/locationCity.js:90 | the result is trimmed and is the slice of the input between leading and trailing whitespace; a trimmed input is unchanged |
| JsString.TrimPadded | helperFunctions/locationCity.js:114-115 | whitespace around a trimmed text is exactly what `trim` removes |
| JsString.TrimChars | helperFunctions/scrapeBSU.js:119 | `trim` introduces no character that was not in its input |
| JsString.ToLower | cityCoords.js:19-23 | lower-casing keeps the length |
| JsString.ToLowerAt | cityCoords.js:37 | lower-casing works character by character |
| JsString.ToLowerIdempotent | cityCoords.js:37-40 | lower-casing twice is lower-casing once |
| JsString.ToLowerCaseBlind | cityCoords.js:37-40 | texts that differ only in letter case lower-case to the same text |
| JsString.IndexOfFrom | helperFunctions/scrapeBSU.js:118 | the first position of the character at or after the start, or the end when there is none |
| JsString.Split | cityCoords.js:15 | there is one more piece than there are separators, and no piece holds a separator |
| JsString.SplitFirstIsPrefix | helperFunctions/locationCity.js:119 | the first piece is a prefix of the text |
| JsString.SplitAtFirst | helperFunctions/scrapeBSU.js:118-119 | the first piece is the text before the first separator, and the remaining pieces are those of the text after it |
| JsString.SplitFirstTwo | helperFunctions/scrapeBSU.js:118-120 | the first two pieces are the texts before the first separator and between the first and second; a second piece exists exactly when there is a separator |
| JsString.JoinSplit | helperFunctions/locationCity.js:109 | joining the pieces with the separator gives back the text |
| JsString.SplitJoin | helperFunctions/locationCity.js:109 | splitting separator-free parts joined by the separator gives back the parts |
| JsString.SplitNoSeparator | helperFunctions/locationCity.js:110-111 | a text without the separator is one piece |
| JsString.SplitAfterPrefix | helperFunctions/locationCity.js:109 | a separator-free prefix followed by the separator is the first piece |
| JsString.TrimKeepsOut | helperFunctions/locationCity.js:114 | trimming introduces no character that was absent |
| CsvLine.ParseCsvLine | cityCoords.js:55-84 | the loop returns the fields of the line; there is one field per unquoted comma plus one; every field is trimmed; a line without quotes gives the trimmed `split(',')` pieces |
| CsvLine.Scan | cityCoords.js:60-83 | the fields closed so far stay, in order, at the front of the result, and at least the open field follows them |
| CsvLine.Fields | cityCoords.js:55-84 | there is one field per comma outside quotes plus one, and every field is trimmed |
| CsvLine.TrimEach | cityCoords.js:74 | one field per piece |
| CsvLine.TrimEachAt | cityCoords.js:74 | the `i`th field is the `i`th piece, trimmed |
| CsvLine.TrimEachTrimmed | cityCoords.js:82 | already trimmed fields are kept as they are |
| CsvLine.FieldCount | cityCoords.js:72-83 | the number of fields is the number of commas outside quotes plus one, so there is always a field |
| CsvLine.FieldsTrimmed | cityCoords.js:74-82 | every field produced is trimmed |
| CsvLine.UnquotedLine | cityCoords.js:72-78 | without quotes the parser is `split(',')` followed by `trim` of each piece |
| CsvLine.UnquotedComma | cityCoords.js:72-75 | an unquoted comma closes the open field |
| CsvLine.UnquotedOther | cityCoords.js:76-77 | any other character is added to the open field |
| CsvLine.ScanEscaped | cityCoords.js:63-71 | inside quotes `""` yields one quote and commas are kept, up to the closing quote |
| CsvLine.QuotedFieldThenComma | cityCoords.js:63-75 | a quoted field followed by a comma closes exactly that field, trimmed |
| CsvLine.LastQuotedField | cityCoords.js:81-83 | a quoted field at the end of the line is the last field |
| CsvLine.EncodeRowScan | cityCoords.js:60-83 | a row written with every field quoted parses to its trimmed fields |
| CsvLine.RoundTrip | cityCoords.js:55-84 | trimmed fields written as quoted CSV (commas and quotes inside) parse back to exactly those fields |
| CityCoords.FindIndexFrom | cityCoords.js:19-23 | the first header whose lower-cased text is one of the names, or -1 when there is none |
| CityCoords.HeaderColumns | cityCoords.js:18-23 | each column is the first header whose lower-cased text is its name (`lng`, `lon` or `long` for longitude), or -1 when no header has it |
| CityCoords.GetCityCoords | cityCoords.js:13-52 | the loop returns the lookup's answer: the coordinates of the first non-blank, long-enough matching data line, or null |
| CityCoords.FirstMatchIsFirst | cityCoords.js:25-51 | null exactly when no data line is selected; otherwise the coordinates of the selected line with no selected line before it |
| CityCoords.FirstMatchSome | cityCoords.js:25-49 | when the scan finds something, it is the coordinates of a selected line with no selected line before it |
| CityCoords.FirstFromSome | cityCoords.js:25-49 | a first match that exists comes from a selected element with no selected element before it |
| CityCoords.CaseInsensitive | cityCoords.js:31-42 | queries equal after trimming and lower-casing ("los angeles"/"ca" and "LOS ANGELES"/"CA") get the same answer |
| CityCoords.StateNameOrCode | cityCoords.js:38-41 | in a table where each row's code and name agree, a query by state name ("California") answers like the query by code ("CA") |
| CityCoords.NoCityColumn | cityCoords.js:19-36 | without a `city` column no row matches, so every lookup returns null |
| CityCoordsCache.CachedLookup | helperFunctions/cityCoords.js:37-40 | nothing is found without cached text or with empty text; otherwise the answer is the table lookup |
| CityCoordsCache.EmptyTextFindsNothing | helperFunctions/cityCoords.js:37-42 | an empty text holds no table, so lookups in it find nothing |
| CityCoordsCache.CityTable.constructor | helperFunctions/cityCoords.js:4-5 | nothing is loaded and no text is cached at start |
| CityCoordsCache.CityTable.Load | helperFunctions/cityCoords.js:11-23 | a no-op once loaded; a failed fetch throws and leaves the flag false and the data null; a successful one stores the text and sets the flag |
| CityCoordsCache.CityTable.GetCityCoords | helperFunctions/cityCoords.js:31-79 | loads first when not loaded and throws only when that load fails; otherwise answers from the cached text |
| CityCoordsCache.CityTable.GetCityCoordsSync | helperFunctions/cityCoords.js:82-125 | null whenever nothing is loaded; otherwise the lookup in the cached text |
| LocationCity.StateAbbreviationTable | helperFunctions/locationCity.js:17-68 | every key has at least three characters and every value is a two-letter upper-case code |
| LocationCity.AbbreviationsAToF | helperFunctions/locationCity.js:18-26 | the entries from "Ala." to "Fla." are well formed |
| LocationCity.AbbreviationsFToL | helperFunctions/locationCity.js:26-35 | the entries from "Florida" to "Louisiana" are well formed |
| LocationCity.AbbreviationsMToN | helperFunctions/locationCity.js:36-44 | the entries from "Maine" to "Neb." are well formed |
| LocationCity.AbbreviationsNToO | helperFunctions/locationCity.js:44-52 | the entries from "Nebraska" to "Ohio" are well formed |
| LocationCity.AbbreviationsOToU | helperFunctions/locationCity.js:53-61 | the entries from "Okla." to "Utah" are well formed |
| LocationCity.AbbreviationsVToW | helperFunctions/locationCity.js:62-67 | the entries from "Vt." to "Wyoming" are well formed |
| LocationCity.LookupFrom | helperFunctions/locationCity.js:123 | null exactly when no entry has the key; otherwise the value of an entry with that key |
| LocationCity.StateAbbreviation | helperFunctions/locationCity.js:123-125 | a known key has at least three characters and maps to a two-letter upper-case code |
| LocationCity.LookupAt | helperFunctions/locationCity.js:123-125 | the lookup from a position answers the value of the first entry from there on with the key |
| LocationCity.WashIsWA | helperFunctions/locationCity.js:4 | "Wash." maps to "WA" |
| LocationCity.CalifIsCA | helperFunctions/locationCity.js:5 | "Calif." maps to "CA" |
| LocationCity.IndIsIN | helperFunctions/locationCity.js:7 | "Ind." maps to "IN" |
| LocationCity.MassIsMA | helperFunctions/locationCity.js:118 | "Mass." maps to "MA" |
| LocationCity.StateAbbreviationIsCodeLookup | helperFunctions/locationCity.js:17-68 | no code is itself a key, so mapping a code changes nothing |
| LocationCity.VenueLocation | helperFunctions/locationCity.js:73-78 | every venue maps to "Boise, ID", and no venue name holds a comma or a parenthesis |
| LocationCity.VenueParts | helperFunctions/locationCity.js:94-99 | the venue value splits into the city "Boise" and the state "ID" |
| LocationCity.SplitCityState | helperFunctions/locationCity.js:149 | "city, state" built from a comma-free city and state splits back into those two pieces |
| LocationCity.GroupFrom | helperFunctions/locationCity.js:103 | the leftmost position where the pattern `\(([^)]+)\)` matches, or -1 |
| LocationCity.ParenGroup | helperFunctions/locationCity.js:103-106 | no group exactly when the pattern matches nowhere; otherwise the group is the non-empty, `)`-free text after the leftmost matching `(`, up to the `)` that closes it |
| LocationCity.GroupAfterVenue | helperFunctions/locationCity.js:103-105 | in "venue (group)" followed by any text, with no `(` in the venue, the group is what the parentheses enclose |
| LocationCity.GroupChars | helperFunctions/locationCity.js:105 | the group's characters come from the location |
| LocationCity.NoGroupWithoutParen | helperFunctions/locationCity.js:103-104 | text without `(` has no group |
| LocationCity.LocationForCoords | helperFunctions/locationCity.js:143-150 | null exactly when normalisation gives null; otherwise "city, state" of the normalised place |
| LocationCity.PostalCodeShape | helperFunctions/locationCity.js:17-68 | a postal code is trimmed, has no comma or slash, and is not a key |
| LocationCity.StateCodeShape | helperFunctions/locationCity.js:117-125 | the state after the cut at `/` and the mapping is trimmed, free of comma and slash, and not a key |
| LocationCity.MapState | helperFunctions/locationCity.js:123-125 | a known state becomes its code and an unknown one stays as it is; for a code lookup a non-empty state never maps to the empty text |
| LocationCity.StateCode | helperFunctions/locationCity.js:115-125 | the state is the trimmed text before the first `/` of the trimmed state text, mapped; without `/` it is the trimmed text, mapped |
| LocationCity.ParsePlace | helperFunctions/locationCity.js:109-130 | text without a comma gives null; a result has a non-empty trimmed city without comma and a non-empty state |
| LocationCity.NormalizeWith | helperFunctions/locationCity.js:85-136 | null, undefined and "" give null; a trimmed venue name gives Boise, ID; a result has a non-empty trimmed city without comma and a non-empty state |
| LocationCity.Normalize | helperFunctions/locationCity.js:85-136 | a result has a non-empty trimmed city without comma and a non-empty trimmed state without comma or slash that is already a final code |
| LocationCity.StateCodePlain | helperFunctions/locationCity.js:115-120 | a trimmed state without `/` is looked up as it is |
| LocationCity.StateCodeSlash | helperFunctions/locationCity.js:117-120 | in "state / rest" everything from the `/` on is dropped before the lookup |
| LocationCity.ParseAtComma | helperFunctions/locationCity.js:109-115 | text with one comma parses to the trimmed city and the state code of the rest |
| LocationCity.ParsePlaceFirstTwo | helperFunctions/locationCity.js:109-130 | without a comma the result is null; otherwise only the texts before the first comma and between the first and second commas are used, and an empty city or state gives null |
| LocationCity.ParseCityState | helperFunctions/locationCity.js:109-125 | "City, State" parses to the city and the mapped state |
| LocationCity.ParseSlash | helperFunctions/locationCity.js:109-125 | "City, State / rest" parses to the city and the mapped state |
| LocationCity.NotAVenue | helperFunctions/locationCity.js:93 | text with a comma or a parenthesis is not a venue |
| LocationCity.NormalizeWithPlain | helperFunctions/locationCity.js:90-112 | trimmed text with a comma and no parenthesis goes straight to the comma split |
| LocationCity.NormalizeWithGroupText | helperFunctions/locationCity.js:102-106 | text with a group is parsed from the group alone |
| LocationCity.NormalizedShapeWith | helperFunctions/locationCity.js:85-136 | for any code lookup, a result has a non-empty trimmed city without comma and a non-empty trimmed state without comma or slash that is not a key |
| LocationCity.NormalizeWithCityState | helperFunctions/locationCity.js:85-136 | for any code lookup, "City, State" normalises to the city and the mapped state |
| LocationCity.NormalizeCityState | helperFunctions/locationCity.js:4-5 | "Seattle, Wash."-style text normalises to the city and the table's code for the state |
| LocationCity.NormalizeWithGroup | helperFunctions/locationCity.js:102-135 | for any code lookup, "Venue (City, State)" followed by any text normalises to the group's city and mapped state |
| LocationCity.NormalizeGroup | helperFunctions/locationCity.js:7 | "Hinkle Fieldhouse (Indianapolis, Ind.)"-style text, followed by any text, normalises to the group's city and the mapped state |
| LocationCity.NormalizeWithSlash | helperFunctions/locationCity.js:117-120 | for any code lookup, "City, State / rest" normalises to the city and the mapped state |
| LocationCity.NormalizeSlash | helperFunctions/locationCity.js:117-120 | "Boston, Mass. / Conte Forum"-style text normalises to the city and the mapped state, dropping the venue |
| LocationCity.NormalizeVenue | helperFunctions/locationCity.js:92-100 | a trimmed input equal to a venue name normalises to Boise, ID before any other rule |
| LocationCity.NormalizeRejects | helperFunctions/locationCity.js:86-112 | null, undefined and "" give null, and so does text that is not a venue and has no comma |
| LocationCity.NormalizeForCoordsAgain | helperFunctions/locationCity.js:143-150 | normalising the "city, state" text of a result (without parentheses) gives the same place again |
| LocationCity.NormalizeSeattle | helperFunctions/locationCity.js:4 | "Seattle, Wash." normalises to Seattle, WA |
| LocationCity.NormalizeSanDiego | helperFunctions/locationCity.js:5 | "San Diego, Calif." normalises to San Diego, CA |
| LocationCity.NormalizeEsportsArena | helperFunctions/locationCity.js:6 | "Boise State Esports Arena" normalises to Boise, ID |
| LocationCity.NormalizeHinkle | helperFunctions/locationCity.js:7 | "Hinkle Fieldhouse (Indianapolis, Ind.)" normalises to Indianapolis, IN |
| LocationCity.NormalizeBoston | helperFunctions/locationCity.js:118 | "Boston, Mass. / Conte Forum" normalises to Boston, MA |
| ZipCoords.Store | helperFunctions/zipCoords.js:18-23 | an accepted row sets its ZIP code's entry and any other row leaves it; other ZIP codes are untouched and no key is removed |
| ZipCoords.StoreAll | helperFunctions/zipCoords.js:17-24 | storing rows never removes a key |
| ZipCoords.LastAccepted | helperFunctions/zipCoords.js:17-24 | nothing exactly when no accepted row is for the ZIP code; otherwise the coordinates of an accepted row for it with no accepted row for it after |
| ZipCoords.StoreAllLookup | helperFunctions/zipCoords.js:17-24 | after storing rows, a ZIP code maps to its last accepted row, and keeps its earlier entry when no row for it was accepted |
| ZipCoords.StoreAllKeys | helperFunctions/zipCoords.js:21-23 | only ZIP codes already present or named by an accepted row are keys |
| ZipCoords.NoEmptyZip | helperFunctions/zipCoords.js:21 | an empty ZIP code is never stored |
| ZipCoords.LookupAfterLoad | helperFunctions/zipCoords.js:17-33 | after the first load, a ZIP code's lookup is its last accepted row in the file, null without one |
| ZipCoords.ZipTable.constructor | helperFunctions/zipCoords.js:4-5 | empty table, not loaded |
| ZipCoords.ZipTable.StoreRows | helperFunctions/zipCoords.js:17-24 | the `forEach` leaves the table equal to the old table with the rows stored in order |
| ZipCoords.ZipTable.Load | helperFunctions/zipCoords.js:7-29 | once loaded, the callback runs and the table is unchanged; a failed download leaves everything unchanged and never calls back; otherwise every row is stored, the flag is set, and the callback runs |
| ZipCoords.ZipTable.GetCoordinatesForZip | helperFunctions/zipCoords.js:31-33 | the entry stored under exactly that ZIP code, or null |
| App.KeepDigits | app.js:200 | the result is digits only, no longer than the input, with every digit as often as in the input |
| App.KeepDigitsFixed | app.js:198-200 | the filter leaves a text unchanged exactly when every character is a digit |
| App.IsValidZipCode | app.js:19-22 | a ZIP code is valid exactly when it has five characters and all are digits |
| App.KeepDigitsAppend | app.js:200 | the filter works piece by piece, so the digits keep their order |
| App.KeepDigitsOfDigits | app.js:200 | digits-only text is left unchanged |
| App.KeepDigitsIdempotent | app.js:198-200 | filtering twice is filtering once |
| App.FilteredZipValid | app.js:19-22 | after the filter, a value is a valid ZIP code exactly when it has five digits |
| App.ValidZipIsFiltered | app.js:19-22 | a valid ZIP code passes the filter unchanged |
| App.ValidateSearch | app.js:153-174 | empty trimmed input is reported first; a non-empty input that is not five digits is reported as invalid; only a five-digit value goes on |
| App.Annotate | app.js:38-46 | one record per event, in order, each the unchanged event with its distance |
| App.WithinRadius | app.js:47 | every kept record is within the radius and came from the input; every input record within the radius is kept; at each distance the kept records are the input's records in input order, none beyond the radius |
| App.WithinRadiusCounts | app.js:47 | each record within the radius is kept as often as it occurs, and none beyond the radius |
| App.Insert | app.js:48 | insertion adds the new record and nothing else |
| App.AtDistanceCons | app.js:48 | the records at a distance of a list with a new head are that head, if at that distance, before those of the rest |
| App.InsertBound | app.js:48 | insertion keeps a common lower bound on distances |
| App.InsertSorted | app.js:48 | inserting into a sorted list keeps it sorted |
| App.InsertStable | app.js:48 | insertion moves a record only past records at other distances |
| App.InsertStableAll | app.js:48 | at every distance, insertion keeps the records in the order of the new record followed by the list |
| App.SortByDistance | app.js:48 | the result is sorted by distance, a permutation of the input, and at each distance has the input's records in input order |
| App.AtDistanceMember | app.js:48 | a distance with records has a record at that distance |
| App.StableSortIsUnique | app.js:48 | two distance-sorted lists with the same records in the same order at every distance are equal, so any stable sort gives this result |
| App.SortWithinRadius | app.js:47-48 | sorting the kept records is sorted, keeps each record within the radius as often as it occurs and none beyond, and keeps input order at each distance |
| App.KeptMembers | app.js:38-47 | kept records are input events with their distances, within the radius, and every event within the radius is kept |
| App.FindEventsNearZip | app.js:27-53 | no results without coordinates for the ZIP code or without the events file; otherwise results are sorted, each an input event with its distance, within the radius |
| App.FindEventsNearZipCorrect | app.js:27-53 | every result is an input event with its distance, within the radius; every event within the radius is there; the results are sorted by distance; each annotated event within the radius occurs as often as in the annotated list and none beyond; at each distance the results are the annotated events in input order |
| App.HandleSearch | app.js:132-187 | empty and badly formed input give their messages and leave the ZIP table alone; otherwise the table is loaded; an unknown ZIP code gives the no-data message, and a known one the events near it within 1500 miles |
| Scrape.LocationParts | helperFunctions/scrapeBSU.js:118-120 | the location is the trimmed text before the first `/`; the venue is the trimmed text between the first and second `/`, "" without a `/` |
| Scrape.TextOr | helperFunctions/scrapeBSU.js:83-97 | a found, non-blank text gives its trimmed text and anything else the fallback; the result is empty only when the fallback is, and is trimmed when the fallback is |
| Scrape.CityState | helperFunctions/scrapeBSU.js:123-128 | city and state exist exactly when the location has a comma, and are the trimmed texts before the first comma and between the first and second |
| Scrape.AddCoords | helperFunctions/scrapeBSU.js:109-147 | title, sport, date and time are copied; an empty location gives "" location and venue and null coordinates; coordinates are set, both together, exactly when city and state exist and the lookup finds them |
| Scrape.EventsWithCoords | helperFunctions/scrapeBYU.js:69-107 | one saved record per event, in the same order |
| Scrape.LocatedShape | helperFunctions/scrapeBYU.js:78-80 | a saved location holds no `/`, and location and venue are trimmed |
| ScrapeBsu.CardEvent | helperFunctions/scrapeBSU.js:83-101 | a card is kept exactly when it has an opponent or a sport; the title is "Boise State vs. " followed by the opponent, "" without one; sport, location and time are the trimmed texts or ""; the date falls back to the day header |
| ScrapeBsu.CardEvents | helperFunctions/scrapeBSU.js:78-102 | no more records than cards, each with a title or a sport |
| ScrapeBsu.CardEventsOfKept | helperFunctions/scrapeBSU.js:78-101 | one record per card that has an opponent or a sport, in card order: the `i`th record is the record of the `i`th such card |
| ScrapeBsu.CalendarEventsKept | helperFunctions/scrapeBSU.js:68-106 | every extracted record has a title or a sport |
| ScrapeBsu.KeptCardsExactly | helperFunctions/scrapeBSU.js:99-101 | the kept cards are among the cards, each has an opponent or a sport, and every card with an opponent or a sport is kept |
| ScrapeBsu.SavedEvents | helperFunctions/scrapeBSU.js:68-147 | one saved record per extracted record, each with a title or a sport |
| ScrapeByu.Divider | helperFunctions/scrapeBYU.js:47-48 | the divider's trimmed text when it is non-blank, else the neutral divider's when that is non-blank, else ""; always trimmed |
| ScrapeByu.Title | helperFunctions/scrapeBYU.js:49-53 | the title is "BYU ", the divider, a space and the opponent (`undefined` without one); it starts with "BYU " and is never empty |
| ScrapeByu.OpponentText | helperFunctions/scrapeBYU.js:53 | the trimmed opponent text, or `undefined` without the element; always trimmed |
| ScrapeByu.ItemEvent | helperFunctions/scrapeBYU.js:54-64 | the date is the first `<time>` text and the time the second, each "" when absent; sport and location are the trimmed texts or "" |
| ScrapeByu.ItemEvents | helperFunctions/scrapeBYU.js:45-66 | one record per schedule item, in page order |
| ScrapeByu.SavedEvents | helperFunctions/scrapeBYU.js:45-107 | one saved record per schedule item, every title starting with "BYU " |

## Left out

- The Haversine `calculateDistance` and `formatDistance` (app.js:7-16,
  56-60) use floating-point trigonometry and `toFixed`. The distance is a
  parameter, and NaN distances are not modelled.
- `parseFloat`: the place table's coordinates stay as column text, and the
  ZIP rows arrive with `parseFloat` already applied. There `None` stands for
  NaN. A ZIP coordinate of `Infinity` cannot be expressed as a real and is
  not modelled.
- Reading files and the network are left out: `fs.readFileSync`, `fetch`,
  and PapaParse's download and CSV parsing. The model takes the text, rows
  or events as parameters, with `None` for a failed fetch.
- Promise and callback timing are left out. Only the flags and the stored
  data are modelled, as the state left after each call.
- Playwright and the page queries (`page.$$eval`, `querySelector`) are left
  out. The scraper models take the text each query finds. Also left out:
  writing the JSON file, `bsu-consent-automation.js`, the root
  `scrapeBYU.js` and `lambdaCode.js`.
- The DOM side of `app.js` is left out: `displayEvents`, `createEventCard`,
  the error and loading messages' visibility, and `init`. `App.HandleSearch`
  returns what ends up on screen instead.
- `toLowerCase` is modelled on ASCII letters only. `trim` uses the
  ECMAScript whitespace set.
- Object keys inherited from `Object.prototype` are left out. The tables are
  looked up by their own keys only. With an inherited key, a venue lookup of
  "constructor" would throw and a state of "toString" would map to a
  function.
- Events whose coordinates are absent (`undefined`) get a NaN distance,
  and `NaN <= maxDistance` is false, so the filter drops them. The distance
  here is a real, so this case is not modelled.
- LocationCity.NormalizeForCoordsAgain requires a result without
  parentheses. With a `(` in the city or state, the second pass can read a
  parenthesised group that the first pass did not.
- Normalize: a value that is not a string is modelled together with `null`
  as `None`.
