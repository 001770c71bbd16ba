/**
 * helperFunctions/locationCity.js: turns the free-text location of a Boise
 * State athletics event ("Seattle, Wash.", "Hinkle Fieldhouse
 * (Indianapolis, Ind.)", "ExtraMile Arena") into a city and a state the
 * city lookup understands.
 */
module LocationCity {
  import opened Wrappers
  import opened JsString

  /** The `{city, state}` object the normaliser returns. */
  datatype Place = Place(city: string, state: string)

  predicate IsUpper(c: char)
  {
    'A' <= c <= 'Z'
  }

  /** A two-letter postal code. */
  predicate IsPostalCode(s: string)
  {
    |s| == 2 && IsUpper(s[0]) && IsUpper(s[1])
  }

  /** Every key is at least three characters long and every value is a postal code. */
  predicate WellFormedTable(entries: seq<(string, string)>)
  {
    forall i :: 0 <= i < |entries| ==> |entries[i].0| >= 3 && IsPostalCode(entries[i].1)
  }

  /**
   * `stateAbbreviationMap`: AP-style state abbreviations and full state
   * names with their postal codes, in the order the source lists them
   * (written in six parts).
   */
  function StateAbbreviationTable(): (t: seq<(string, string)>)
    ensures WellFormedTable(t)
  {
    AbbreviationsAToF() + AbbreviationsFToL() + AbbreviationsMToN()
      + AbbreviationsNToO() + AbbreviationsOToU() + AbbreviationsVToW()
  }

  function AbbreviationsAToF(): (t: seq<(string, string)>)
    ensures WellFormedTable(t)
  {
    [ ("Ala.", "AL"), ("Alabama", "AL"),
      ("Alaska", "AK"),
      ("Ariz.", "AZ"), ("Arizona", "AZ"),
      ("Ark.", "AR"), ("Arkansas", "AR"),
      ("Calif.", "CA"), ("California", "CA"),
      ("Colo.", "CO"), ("Colorado", "CO"),
      ("Conn.", "CT"), ("Connecticut", "CT"),
      ("Del.", "DE"), ("Delaware", "DE"),
      ("Fla.", "FL") ]
  }

  function AbbreviationsFToL(): (t: seq<(string, string)>)
    ensures WellFormedTable(t)
  {
    [ ("Florida", "FL"),
      ("Ga.", "GA"), ("Georgia", "GA"),
      ("Hawaii", "HI"),
      ("Idaho", "ID"),
      ("Ill.", "IL"), ("Illinois", "IL"),
      ("Ind.", "IN"), ("Indiana", "IN"),
      ("Iowa", "IA"),
      ("Kan.", "KS"), ("Kansas", "KS"),
      ("Ky.", "KY"), ("Kentucky", "KY"),
      ("La.", "LA"), ("Louisiana", "LA") ]
  }

  function AbbreviationsMToN(): (t: seq<(string, string)>)
    ensures WellFormedTable(t)
  {
    [ ("Maine", "ME"),
      ("Md.", "MD"), ("Maryland", "MD"),
      ("Mass.", "MA"), ("Massachusetts", "MA"),
      ("Mich.", "MI"), ("Michigan", "MI"),
      ("Minn.", "MN"), ("Minnesota", "MN"),
      ("Miss.", "MS"), ("Mississippi", "MS"),
      ("Mo.", "MO"), ("Missouri", "MO"),
      ("Mont.", "MT"), ("Montana", "MT"),
      ("Neb.", "NE") ]
  }

  function AbbreviationsNToO(): (t: seq<(string, string)>)
    ensures WellFormedTable(t)
  {
    [ ("Nebraska", "NE"),
      ("Nev.", "NV"), ("Nevada", "NV"),
      ("N.H.", "NH"), ("New Hampshire", "NH"),
      ("N.J.", "NJ"), ("New Jersey", "NJ"),
      ("N.M.", "NM"), ("New Mexico", "NM"),
      ("N.Y.", "NY"), ("New York", "NY"),
      ("N.C.", "NC"), ("North Carolina", "NC"),
      ("N.D.", "ND"), ("North Dakota", "ND"),
      ("Ohio", "OH") ]
  }

  function AbbreviationsOToU(): (t: seq<(string, string)>)
    ensures WellFormedTable(t)
  {
    [ ("Okla.", "OK"), ("Oklahoma", "OK"),
      ("Ore.", "OR"), ("Oregon", "OR"),
      ("Pa.", "PA"), ("Pennsylvania", "PA"),
      ("R.I.", "RI"), ("Rhode Island", "RI"),
      ("S.C.", "SC"), ("South Carolina", "SC"),
      ("S.D.", "SD"), ("South Dakota", "SD"),
      ("Tenn.", "TN"), ("Tennessee", "TN"),
      ("Texas", "TX"),
      ("Utah", "UT") ]
  }

  function AbbreviationsVToW(): (t: seq<(string, string)>)
    ensures WellFormedTable(t)
  {
    [ ("Vt.", "VT"), ("Vermont", "VT"),
      ("Va.", "VA"), ("Virginia", "VA"),
      ("Wash.", "WA"), ("Washington", "WA"),
      ("W.Va.", "WV"), ("West Virginia", "WV"),
      ("Wis.", "WI"), ("Wisconsin", "WI"),
      ("Wyo.", "WY"), ("Wyoming", "WY") ]
  }

  /** The value of the first entry at or after `i` whose key is `key`. */
  function LookupFrom(entries: seq<(string, string)>, key: string, i: nat): (v: Option<string>)
    requires i <= |entries|
    ensures v.None? <==> forall j :: i <= j < |entries| ==> entries[j].0 != key
    ensures v.Some? ==> exists j :: i <= j < |entries| && entries[j].0 == key && entries[j].1 == v.value
    decreases |entries| - i
  {
    if i == |entries| then None
    else if entries[i].0 == key then Some(entries[i].1)
    else LookupFrom(entries, key, i + 1)
  }

  /**
   * `stateAbbreviationMap[key]`: the postal code for an abbreviation or a
   * full state name. Every key is at least three characters long, so no
   * postal code is itself a key.
   */
  function StateAbbreviation(key: string): (code: Option<string>)
    ensures code.Some? ==> |key| >= 3 && IsPostalCode(code.value)
  {
    LookupFrom(StateAbbreviationTable(), key, 0)
  }

  /** The lookup finds the value of the first entry from `i` on whose key is `key`. */
  lemma {:induction false} LookupAt(entries: seq<(string, string)>, key: string, i: nat, k: nat)
    requires i <= k < |entries| && entries[k].0 == key
    requires forall j :: i <= j < k ==> entries[j].0 != key
    ensures LookupFrom(entries, key, i) == Some(entries[k].1)
    decreases k - i
  {
    if i < k {
      LookupAt(entries, key, i + 1, k);
    }
  }

  /** "Wash." is the AP abbreviation of Washington. */
  lemma WashIsWA()
    ensures StateAbbreviation("Wash.") == Some("WA")
  {
    LookupAt(StateAbbreviationTable(), "Wash.", 0, 84);
  }

  /** "Calif." is the AP abbreviation of California. */
  lemma CalifIsCA()
    ensures StateAbbreviation("Calif.") == Some("CA")
  {
    LookupAt(StateAbbreviationTable(), "Calif.", 0, 7);
  }

  /** "Ind." is the AP abbreviation of Indiana. */
  lemma IndIsIN()
    ensures StateAbbreviation("Ind.") == Some("IN")
  {
    LookupAt(StateAbbreviationTable(), "Ind.", 0, 23);
  }

  /** "Mass." is the AP abbreviation of Massachusetts. */
  lemma MassIsMA()
    ensures StateAbbreviation("Mass.") == Some("MA")
  {
    LookupAt(StateAbbreviationTable(), "Mass.", 0, 35);
  }

  /** `venueLocationMap[name]`: the home venues named without a city, all in Boise. */
  function VenueLocation(name: string): (location: Option<string>)
    ensures location.Some? ==> location.value == "Boise, ID" && ',' !in name && '(' !in name
  {
    match name
    case "Boise State Esports Arena" => Some("Boise, ID")
    case "ExtraMile Arena" => Some("Boise, ID")
    case "Albertsons Stadium" => Some("Boise, ID")
    case "Dona Larsen Park" => Some("Boise, ID")
    case _ => None
  }

  /** "City, ST" text splits at its comma back into the city and the state. */
  lemma SplitCityState(city: string, state: string)
    requires IsTrimmed(city) && ',' !in city
    requires IsTrimmed(state) && ',' !in state
    ensures var parts := Split(city + ", " + state, ',');
      |parts| == 2 && Trim(parts[0]) == city && parts[1] == " " + state && Trim(parts[1]) == state
  {
    var tail := " " + state;
    assert city + ", " + state == city + [','] + tail;
    SplitAfterPrefix(city, tail, ',');
    assert tail[1..] == state;
    assert ',' !in tail;
    SplitNoSeparator(tail, ',');
    var parts := [city] + [tail];
    assert Split(city + ", " + state, ',') == parts;
    TrimPadded("", city, "");
    assert "" + city + "" == city;
    TrimPadded(" ", state, "");
    assert " " + state + "" == tail;
  }

  /** A venue's location "Boise, ID" splits into the city "Boise" and the state "ID". */
  lemma VenueParts(v: string)
    requires v == "Boise, ID"
    ensures var parts := Split(v, ',');
      |parts| == 2 && Trim(parts[0]) == "Boise" && Trim(parts[1]) == "ID"
  {
    var city, state := "Boise", "ID";
    assert v == city + ", " + state;
    SplitCityState(city, state);
  }

  /**
   * The regular expression `\(([^)]+)\)` matches at `k`: an opening
   * parenthesis whose first closing parenthesis is not the next character.
   */
  predicate GroupAt(s: string, k: nat)
    requires k < |s|
  {
    s[k] == '(' && var j := IndexOfFrom(s, ')', k + 1); j < |s| && j > k + 1
  }

  /** Where the leftmost match at or after `i` starts, or -1. */
  function GroupFrom(s: string, i: nat): (k: int)
    requires i <= |s|
    ensures k == -1 || (i <= k < |s| && GroupAt(s, k))
    ensures forall j :: i <= j < |s| && (k == -1 || j < k) ==> !GroupAt(s, j)
    decreases |s| - i
  {
    if i == |s| then -1
    else if GroupAt(s, i) then i
    else GroupFrom(s, i + 1)
  }

  /**
   * `location.match(/\(([^)]+)\)/)[1]`: the text between the leftmost
   * opening parenthesis that has a non-empty group and the first closing
   * parenthesis after it.
   */
  function ParenGroup(s: string): (g: Option<string>)
    ensures g.None? <==> forall k :: 0 <= k < |s| ==> !GroupAt(s, k)
    ensures g.Some? ==> g.value != "" && ')' !in g.value
    ensures g.Some? ==>
              var k := GroupFrom(s, 0);
              && 0 <= k && GroupAt(s, k) && (forall j :: 0 <= j < k ==> !GroupAt(s, j))
              && k + 1 + |g.value| < |s| && s[k + 1..k + 1 + |g.value|] == g.value
              && s[k + 1 + |g.value|] == ')'
  {
    var k := GroupFrom(s, 0);
    if k == -1 then None
    else
      var j := IndexOfFrom(s, ')', k + 1);
      var g := s[k + 1..j];
      assert forall t :: 0 <= t < |g| ==> g[t] == s[k + 1 + t];
      Some(g)
  }

  /**
   * A lookup with the shape of `stateAbbreviationMap`: every key it knows
   * is at least three characters long and maps to a postal code. The
   * normaliser is written over any such lookup, so that the proofs about
   * the parsing do not carry the table's entries; `Normalize` applies it
   * to `StateAbbreviation`.
   */
  ghost predicate IsCodeLookup(abbreviations: string -> Option<string>)
  {
    forall k :: abbreviations(k).Some? ==> |k| >= 3 && IsPostalCode(abbreviations(k).value)
  }

  lemma StateAbbreviationIsCodeLookup()
    ensures IsCodeLookup(StateAbbreviation)
  {
    forall k | StateAbbreviation(k).Some?
      ensures |k| >= 3 && IsPostalCode(StateAbbreviation(k).value)
    {
    }
  }

  /**
   * The postal code for `state` when the lookup knows it, `state` itself
   * otherwise; a non-empty state never maps to the empty text.
   */
  function MapState(state: string, abbreviations: string -> Option<string>): (r: string)
    ensures abbreviations(state).Some? ==> r == abbreviations(state).value
    ensures abbreviations(state).None? ==> r == state
    ensures IsCodeLookup(abbreviations) && state != "" ==> r != ""
  {
    var code := abbreviations(state);
    if code.Some? then code.value else state
  }

  /**
   * The state text, trimmed, cut before its first `/` and trimmed again,
   * then mapped to its postal code when the lookup knows it.
   */
  function StateCode(stateText: string, abbreviations: string -> Option<string>): (r: string)
    ensures var t := Trim(stateText);
            r == MapState(Trim(t[..IndexOfFrom(t, '/', 0)]), abbreviations)
    ensures '/' !in Trim(stateText) ==> r == MapState(Trim(stateText), abbreviations)
  {
    var t := Trim(stateText);
    SplitAtFirst(t, '/');
    assert '/' !in t ==> t[..IndexOfFrom(t, '/', 0)] == t;
    MapState(Trim(Split(t, '/')[0]), abbreviations)
  }

  /** The parenthesised group of the location when it has one, the whole location otherwise. */
  function GroupOrText(location: string): string
  {
    var group := ParenGroup(location);
    if group.Some? then group.value else location
  }

  /**
   * The comma split: the first piece is the city and the second the state;
   * fewer than two pieces, an empty city or an empty state give `null`.
   */
  function ParsePlace(text: string, abbreviations: string -> Option<string>): (r: Option<Place>)
    ensures ',' !in text ==> r.None?
    ensures r.Some? ==> && r.value.city != "" && IsTrimmed(r.value.city) && ',' !in r.value.city
                        && r.value.state != ""
  {
    var parts := Split(text, ',');
    SplitFirstTwo(text, ',');
    if |parts| < 2 then None
    else
      TrimKeepsOut(parts[0], ',');
      var city := Trim(parts[0]);
      var state := StateCode(parts[1], abbreviations);
      if city == "" || state == "" then None
      else Some(Place(city, state))
  }

  /** `normalizeBSULocation` over the abbreviation lookup `abbreviations`. */
  function NormalizeWith(raw: Option<string>, abbreviations: string -> Option<string>): (r: Option<Place>)
    ensures raw.None? || raw == Some("") ==> r.None?
    ensures raw.Some? && raw.value != "" && VenueLocation(Trim(raw.value)).Some? ==> r == Some(Place("Boise", "ID"))
    ensures r.Some? ==> && r.value.city != "" && IsTrimmed(r.value.city) && ',' !in r.value.city
                        && r.value.state != ""
  {
    if raw.None? || raw.value == "" then None
    else
      var location := Trim(raw.value);
      if VenueLocation(location).Some? then
        VenueParts(VenueLocation(location).value);
        var parts := Split(VenueLocation(location).value, ',');
        Some(Place(Trim(parts[0]), Trim(parts[1])))
      else ParsePlace(GroupOrText(location), abbreviations)
  }

  /**
   * `normalizeBSULocation`. `None` stands for `null`/`undefined` and for a
   * value that is not a string; the empty string is rejected as well.
   */
  function Normalize(raw: Option<string>): (r: Option<Place>)
    ensures r.Some? ==> && r.value.city != "" && IsTrimmed(r.value.city) && ',' !in r.value.city
                        && r.value.state != "" && IsTrimmed(r.value.state)
                        && ',' !in r.value.state && '/' !in r.value.state
                        && StateAbbreviation(r.value.state).None?
  {
    StateAbbreviationIsCodeLookup();
    NormalizedShapeWith(raw, StateAbbreviation);
    NormalizeWith(raw, StateAbbreviation)
  }

  /** `getBSULocationForCoords`: the normalised place as "City, ST". */
  function LocationForCoords(raw: Option<string>): (r: Option<string>)
    ensures r.None? <==> Normalize(raw).None?
    ensures r.Some? ==> r.value == Normalize(raw).value.city + ", " + Normalize(raw).value.state
  {
    var n := Normalize(raw);
    if n.None? then None else Some(n.value.city + ", " + n.value.state)
  }

  /** A postal code is trimmed, has no comma or slash, and is not a key of the lookup. */
  lemma PostalCodeShape(code: string, abbreviations: string -> Option<string>)
    requires IsCodeLookup(abbreviations) && IsPostalCode(code)
    ensures IsTrimmed(code) && ',' !in code && '/' !in code && abbreviations(code).None?
  {
    assert code == [code[0], code[1]];
  }

  /** A state code never contains a comma, a slash, or surrounding whitespace, and is never a key. */
  lemma StateCodeShape(stateText: string, abbreviations: string -> Option<string>)
    requires IsCodeLookup(abbreviations) && ',' !in stateText
    ensures var s := StateCode(stateText, abbreviations);
      && IsTrimmed(s) && ',' !in s && '/' !in s && abbreviations(s).None?
  {
    var t := Trim(stateText);
    var piece := Split(t, '/')[0];
    var stateOnly := Trim(piece);
    if ',' in stateOnly {
      TrimChars(piece, ',');
      SplitFirstIsPrefix(t, '/');
      assert ',' in t;
      TrimChars(stateText, ',');
      assert false;
    }
    if '/' in stateOnly {
      TrimChars(piece, '/');
      assert false;
    }
    var code := abbreviations(stateOnly);
    if code.Some? {
      PostalCodeShape(code.value, abbreviations);
    }
  }

  /** The shape of a place the normaliser returns, over any lookup of the right shape. */
  lemma NormalizedShapeWith(raw: Option<string>, abbreviations: string -> Option<string>)
    requires IsCodeLookup(abbreviations)
    ensures var r := NormalizeWith(raw, abbreviations);
      r.Some? ==> && r.value.city != "" && IsTrimmed(r.value.city) && ',' !in r.value.city
                  && r.value.state != "" && IsTrimmed(r.value.state)
                  && ',' !in r.value.state && '/' !in r.value.state
                  && abbreviations(r.value.state).None?
  {
    if raw.Some? && raw.value != "" {
      var location := Trim(raw.value);
      if VenueLocation(location).Some? {
        VenueParts(VenueLocation(location).value);
        var id := Trim(Split(VenueLocation(location).value, ',')[1]);
        PostalCodeShape(id, abbreviations);
      } else {
        var parts := Split(GroupOrText(location), ',');
        if |parts| >= 2 {
          StateCodeShape(parts[1], abbreviations);
          if ',' in Trim(parts[0]) {
            TrimChars(parts[0], ',');
          }
        }
      }
    }
  }

  /** Text without an opening parenthesis has no parenthesised group. */
  lemma NoGroupWithoutParen(s: string)
    requires '(' !in s
    ensures ParenGroup(s).None?
  {
    forall k | 0 <= k < |s| ensures !GroupAt(s, k) {
      assert s[k] in s;
    }
  }

  /** A trimmed state after the comma's space, without a slash, is looked up as it is. */
  lemma StateCodePlain(state: string, abbreviations: string -> Option<string>)
    requires IsTrimmed(state) && '/' !in state
    ensures StateCode(" " + state, abbreviations) == MapState(state, abbreviations)
  {
    TrimPadded(" ", state, "");
    assert " " + state + "" == " " + state;
    SplitNoSeparator(state, '/');
    TrimPadded("", state, "");
    assert "" + state + "" == state;
  }

  /** Trimmed text with a comma and no parenthesis goes straight to the comma split. */
  lemma NormalizeWithPlain(s: string, abbreviations: string -> Option<string>)
    requires IsTrimmed(s) && ',' in s && '(' !in s
    ensures NormalizeWith(Some(s), abbreviations) == ParsePlace(s, abbreviations)
  {
    NotAVenue(s);
    NoGroupWithoutParen(s);
  }

  /** Trimmed text with a parenthesised group is split at the group's comma. */
  lemma NormalizeWithGroupText(s: string, abbreviations: string -> Option<string>)
    requires IsTrimmed(s) && '(' in s && ParenGroup(s).Some?
    ensures NormalizeWith(Some(s), abbreviations) == ParsePlace(ParenGroup(s).value, abbreviations)
  {
    NotAVenue(s);
  }

  /** Text with exactly one comma parses to the trimmed city and the state code of the rest. */
  lemma ParseAtComma(city: string, tail: string, abbreviations: string -> Option<string>)
    requires city != "" && IsTrimmed(city) && ',' !in city && ',' !in tail
    requires StateCode(tail, abbreviations) != ""
    ensures ParsePlace(city + [','] + tail, abbreviations) == Some(Place(city, StateCode(tail, abbreviations)))
  {
    SplitAfterPrefix(city, tail, ',');
    SplitNoSeparator(tail, ',');
    TrimPadded("", city, "");
    assert "" + city + "" == city;
  }

  /**
   * The comma step reads only the text before the first comma (the city)
   * and the text between the first and the second comma (the state);
   * anything after a second comma is ignored. Without a comma, or with an
   * empty city or state, it gives `null`.
   */
  lemma ParsePlaceFirstTwo(text: string, abbreviations: string -> Option<string>)
    ensures ',' !in text ==> ParsePlace(text, abbreviations) == None
    ensures ',' in text ==>
              var i := IndexOfFrom(text, ',', 0);
              var rest := text[i + 1..];
              var city := Trim(text[..i]);
              var state := StateCode(rest[..IndexOfFrom(rest, ',', 0)], abbreviations);
              ParsePlace(text, abbreviations) == if city == "" || state == "" then None else Some(Place(city, state))
  {
    SplitFirstTwo(text, ',');
  }

  /** No venue name contains a comma or a parenthesis. */
  lemma NotAVenue(s: string)
    requires ',' in s || '(' in s
    ensures VenueLocation(s).None?
  {
  }

  /** The parsing steps after the venue and parenthesis checks, on "City, State" text. */
  lemma ParseCityState(city: string, state: string, abbreviations: string -> Option<string>)
    requires IsCodeLookup(abbreviations)
    requires city != "" && IsTrimmed(city) && ',' !in city
    requires state != "" && IsTrimmed(state) && ',' !in state && '/' !in state
    ensures ParsePlace(city + ", " + state, abbreviations) == Some(Place(city, MapState(state, abbreviations)))
  {
    assert city + ", " + state == city + [','] + (" " + state);
    assert ',' !in " " + state;
    StateCodePlain(state, abbreviations);
    ParseAtComma(city, " " + state, abbreviations);
  }

  /** "City, State" text free of parentheses normalises to the city and the mapped state, over any lookup. */
  lemma NormalizeWithCityState(city: string, state: string, abbreviations: string -> Option<string>)
    requires IsCodeLookup(abbreviations)
    requires city != "" && IsTrimmed(city) && ',' !in city && '(' !in city
    requires state != "" && IsTrimmed(state) && ',' !in state && '/' !in state && '(' !in state
    ensures NormalizeWith(Some(city + ", " + state), abbreviations)
            == Some(Place(city, MapState(state, abbreviations)))
  {
    var s := city + ", " + state;
    assert IsTrimmed(s) && ',' in s && '(' !in s by {
      assert s[0] == city[0] && s[|s| - 1] == state[|state| - 1];
      assert s[|city|] == ',';
    }
    NormalizeWithPlain(s, abbreviations);
    ParseCityState(city, state, abbreviations);
  }

  /**
   * "Seattle, Wash." and "Lake Nona, Fla.": a location in "City, State"
   * form, free of parentheses, gives that city and the postal code of the
   * state (or the state as written when the table does not know it).
   */
  lemma NormalizeCityState(city: string, state: string)
    requires city != "" && IsTrimmed(city) && ',' !in city && '(' !in city
    requires state != "" && IsTrimmed(state) && ',' !in state && '/' !in state && '(' !in state
    ensures Normalize(Some(city + ", " + state)) == Some(Place(city, MapState(state, StateAbbreviation)))
  {
    StateAbbreviationIsCodeLookup();
    NormalizeWithCityState(city, state, StateAbbreviation);
  }

  /**
   * Behind a venue name without parentheses, the leftmost group is the
   * parenthesised text, whatever follows the closing parenthesis.
   */
  lemma GroupAfterVenue(venue: string, g: string, post: string)
    requires '(' !in venue && g != "" && ')' !in g
    ensures ParenGroup(venue + "(" + g + ")" + post) == Some(g)
  {
    var s := venue + "(" + g + ")" + post;
    var open := |venue|;
    var close := open + 1 + |g|;
    assert s[open] == '(' && s[close] == ')';
    forall t | open + 1 <= t < close
      ensures s[t] != ')'
    {
      assert s[t] == g[t - open - 1];
    }
    assert IndexOfFrom(s, ')', open + 1) == close;
    assert GroupAt(s, open);
    forall t | 0 <= t < open
      ensures !GroupAt(s, t)
    {
      assert s[t] == venue[t];
    }
    assert GroupFrom(s, 0) == open;
    assert s[open + 1..close] == g;
  }

  /**
   * "Venue (City, State)", possibly followed by more text, normalises to
   * the city and the mapped state, over any lookup.
   */
  lemma NormalizeWithGroup(venue: string, city: string, state: string, post: string,
                           abbreviations: string -> Option<string>)
    requires IsCodeLookup(abbreviations)
    requires '(' !in venue && (venue == "" || !IsWhitespace(venue[0]))
    requires city != "" && IsTrimmed(city) && ',' !in city && ')' !in city
    requires state != "" && IsTrimmed(state) && ',' !in state && '/' !in state && ')' !in state
    requires post == "" || !IsWhitespace(post[|post| - 1])
    ensures NormalizeWith(Some(venue + "(" + city + ", " + state + ")" + post), abbreviations)
            == Some(Place(city, MapState(state, abbreviations)))
  {
    var g := city + ", " + state;
    var s := venue + "(" + g + ")" + post;
    assert s == venue + "(" + city + ", " + state + ")" + post;
    GroupTextShape(venue, g, post);
    GroupAfterVenue(venue, g, post);
    NormalizeWithGroupText(s, abbreviations);
    ParseCityState(city, state, abbreviations);
  }

  lemma GroupTextShape(venue: string, g: string, post: string)
    requires venue == "" || !IsWhitespace(venue[0])
    requires post == "" || !IsWhitespace(post[|post| - 1])
    ensures var s := venue + "(" + g + ")" + post;
      IsTrimmed(s) && '(' in s
  {
    var s := venue + "(" + g + ")" + post;
    assert s[|s| - 1] == if post == "" then ')' else post[|post| - 1];
    assert s[0] == if venue == "" then '(' else venue[0];
    assert s[|venue|] == '(';
  }

  /**
   * "Hinkle Fieldhouse (Indianapolis, Ind.)": a venue followed by a
   * parenthesised "City, State", and possibly more text, gives that city
   * and state.
   */
  lemma NormalizeGroup(venue: string, city: string, state: string, post: string)
    requires '(' !in venue && (venue == "" || !IsWhitespace(venue[0]))
    requires city != "" && IsTrimmed(city) && ',' !in city && ')' !in city
    requires state != "" && IsTrimmed(state) && ',' !in state && '/' !in state && ')' !in state
    requires post == "" || !IsWhitespace(post[|post| - 1])
    ensures Normalize(Some(venue + "(" + city + ", " + state + ")" + post))
            == Some(Place(city, MapState(state, StateAbbreviation)))
  {
    StateAbbreviationIsCodeLookup();
    NormalizeWithGroup(venue, city, state, post, StateAbbreviation);
  }

  /** A state followed by " / " and more text is looked up without the text. */
  lemma StateCodeSlash(state: string, rest: string, abbreviations: string -> Option<string>)
    requires state != "" && IsTrimmed(state) && '/' !in state
    requires rest != "" && IsTrimmed(rest)
    ensures StateCode(" " + state + " / " + rest, abbreviations) == MapState(state, abbreviations)
  {
    var t := state + " / " + rest;
    assert " " + state + " / " + rest == " " + t;
    assert t[0] == state[0] && t[|t| - 1] == rest[|rest| - 1];
    TrimPadded(" ", t, "");
    assert " " + t + "" == " " + t;
    assert t == (state + " ") + ['/'] + (" " + rest);
    assert '/' !in state + " ";
    SplitAfterPrefix(state + " ", " " + rest, '/');
    TrimPadded("", state, " ");
    assert "" + state + " " == state + " ";
  }

  /** The parsing steps on "City, State / more" text. */
  lemma ParseSlash(city: string, state: string, rest: string, abbreviations: string -> Option<string>)
    requires IsCodeLookup(abbreviations)
    requires city != "" && IsTrimmed(city) && ',' !in city
    requires state != "" && IsTrimmed(state) && ',' !in state && '/' !in state
    requires rest != "" && IsTrimmed(rest) && ',' !in rest
    ensures ParsePlace(city + ", " + state + " / " + rest, abbreviations)
            == Some(Place(city, MapState(state, abbreviations)))
  {
    var tail := " " + state + " / " + rest;
    assert city + ", " + state + " / " + rest == city + [','] + tail;
    assert ',' !in tail by {
      assert tail == " " + state + " / " + rest;
    }
    StateCodeSlash(state, rest, abbreviations);
    ParseAtComma(city, tail, abbreviations);
  }

  /** "City, State / Venue" normalises to the city and the mapped state, over any lookup. */
  lemma NormalizeWithSlash(city: string, state: string, rest: string,
                           abbreviations: string -> Option<string>)
    requires IsCodeLookup(abbreviations)
    requires city != "" && IsTrimmed(city) && ',' !in city && '(' !in city
    requires state != "" && IsTrimmed(state) && ',' !in state && '/' !in state && '(' !in state
    requires rest != "" && IsTrimmed(rest) && ',' !in rest && '(' !in rest
    ensures NormalizeWith(Some(city + ", " + state + " / " + rest), abbreviations)
            == Some(Place(city, MapState(state, abbreviations)))
  {
    SlashTextShape(city, state, rest);
    NormalizeWithPlain(city + ", " + state + " / " + rest, abbreviations);
    ParseSlash(city, state, rest, abbreviations);
  }

  lemma SlashTextShape(city: string, state: string, rest: string)
    requires city != "" && IsTrimmed(city) && '(' !in city
    requires '(' !in state
    requires rest != "" && IsTrimmed(rest) && '(' !in rest
    ensures var s := city + ", " + state + " / " + rest;
      IsTrimmed(s) && ',' in s && '(' !in s
  {
    var s := city + ", " + state + " / " + rest;
    assert s[0] == city[0] && s[|s| - 1] == rest[|rest| - 1];
    assert s[|city|] == ',';
  }

  /**
   * "Boston, Mass. / Conte Forum": whatever follows a slash after the
   * state is dropped.
   */
  lemma NormalizeSlash(city: string, state: string, rest: string)
    requires city != "" && IsTrimmed(city) && ',' !in city && '(' !in city
    requires state != "" && IsTrimmed(state) && ',' !in state && '/' !in state && '(' !in state
    requires rest != "" && IsTrimmed(rest) && ',' !in rest && '(' !in rest
    ensures Normalize(Some(city + ", " + state + " / " + rest))
            == Some(Place(city, MapState(state, StateAbbreviation)))
  {
    StateAbbreviationIsCodeLookup();
    NormalizeWithSlash(city, state, rest, StateAbbreviation);
  }

  /**
   * "Boise State Esports Arena": a known venue, whatever whitespace
   * surrounds it, is placed in Boise, Idaho.
   */
  lemma NormalizeVenue(raw: Option<string>)
    requires raw.Some? && VenueLocation(Trim(raw.value)).Some?
    ensures Normalize(raw) == Some(Place("Boise", "ID"))
  {
    VenueParts(VenueLocation(Trim(raw.value)).value);
  }

  /** Every character of the group is a character of the text. */
  lemma GroupChars(s: string, c: char)
    requires ParenGroup(s).Some? && c in ParenGroup(s).value
    ensures c in s
  {
    var k := GroupFrom(s, 0);
    var j := IndexOfFrom(s, ')', k + 1);
    var g := s[k + 1..j];
    var t :| 0 <= t < |g| && g[t] == c;
    assert s[k + 1 + t] == c;
  }

  /**
   * The normaliser gives `null` for a missing or empty location, and for
   * one that is not a known venue and has no comma.
   */
  lemma NormalizeRejects(raw: Option<string>)
    ensures raw.None? || raw == Some("") ==> Normalize(raw) == None
    ensures raw.Some? && ',' !in raw.value && VenueLocation(Trim(raw.value)).None?
            ==> Normalize(raw) == None
  {
    if raw.Some? && raw.value != "" && ',' !in raw.value && VenueLocation(Trim(raw.value)).None? {
      var location := Trim(raw.value);
      if ',' in location {
        TrimChars(raw.value, ',');
      }
      var group := ParenGroup(location);
      if group.Some? && ',' in group.value {
        GroupChars(location, ',');
      }
      SplitNoSeparator(GroupOrText(location), ',');
    }
  }

  /**
   * Feeding the "City, ST" text back into the normaliser gives the same
   * place again, whenever the place it names has no parenthesis in it.
   */
  lemma NormalizeForCoordsAgain(raw: Option<string>)
    requires Normalize(raw).Some?
    requires '(' !in Normalize(raw).value.city && '(' !in Normalize(raw).value.state
    ensures Normalize(LocationForCoords(raw)) == Normalize(raw)
  {
    var p := Normalize(raw).value;
    NormalizeCityState(p.city, p.state);
  }

  /** "Seattle, Wash." normalises to Seattle, WA. */
  lemma NormalizeSeattle()
    ensures Normalize(Some("Seattle, Wash.")) == Some(Place("Seattle", "WA"))
  {
    assert "Seattle, Wash." == "Seattle" + ", " + "Wash.";
    NormalizeCityState("Seattle", "Wash.");
    WashIsWA();
  }

  /** "San Diego, Calif." normalises to San Diego, CA. */
  lemma NormalizeSanDiego()
    ensures Normalize(Some("San Diego, Calif.")) == Some(Place("San Diego", "CA"))
  {
    assert "San Diego, Calif." == "San Diego" + ", " + "Calif.";
    NormalizeCityState("San Diego", "Calif.");
    CalifIsCA();
  }

  /** "Boise State Esports Arena" normalises to Boise, ID. */
  lemma NormalizeEsportsArena()
    ensures Normalize(Some("Boise State Esports Arena")) == Some(Place("Boise", "ID"))
  {
    assert IsTrimmed("Boise State Esports Arena");
    NormalizeVenue(Some("Boise State Esports Arena"));
  }

  /** "Hinkle Fieldhouse (Indianapolis, Ind.)" normalises to Indianapolis, IN. */
  lemma NormalizeHinkle()
    ensures Normalize(Some("Hinkle Fieldhouse (Indianapolis, Ind.)")) == Some(Place("Indianapolis", "IN"))
  {
    var venue, city, state := "Hinkle Fieldhouse ", "Indianapolis", "Ind.";
    assert '(' !in venue && !IsWhitespace(venue[0]);
    assert IsTrimmed(city) && ',' !in city && ')' !in city;
    assert IsTrimmed(state) && ',' !in state && '/' !in state && ')' !in state;
    var text := venue + "(" + city + ", " + state + ")" + "";
    assert text == "Hinkle Fieldhouse (Indianapolis, Ind.)";
    NormalizeGroup(venue, city, state, "");
    IndIsIN();
    assert MapState(state, StateAbbreviation) == "IN";
  }

  /** "Boston, Mass. / Conte Forum" normalises to Boston, MA. */
  lemma NormalizeBoston()
    ensures Normalize(Some("Boston, Mass. / Conte Forum")) == Some(Place("Boston", "MA"))
  {
    assert "Boston, Mass. / Conte Forum" == "Boston" + ", " + "Mass." + " / " + "Conte Forum";
    NormalizeSlash("Boston", "Mass.", "Conte Forum");
    MassIsMA();
  }
}
