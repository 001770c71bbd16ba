/**
 * `getCityCoords` of cityCoords.js: look a city and state up in the place
 * table (the text of a CSV file whose header names its columns) and return
 * the coordinates of the first row that matches.
 */
module CityCoords {
  import opened Wrappers
  import opened JsString
  import opened CsvLine

  /**
   * The coordinates of a matching row: the text of its latitude and
   * longitude columns. The `parseFloat` applied to them is not modelled; an
   * absent column gives "" (`parseFloat` reads both as NaN).
   */
  datatype CityCoords = CityCoords(lat: string, lon: string)

  /** Header positions of the columns the lookup reads; -1 when a column is absent. */
  datatype Columns = Columns(city: int, stateId: int, stateName: int, lat: int, lon: int)

  /**
   * `headers.findIndex(...)` from position `i` on: the first header whose
   * lower-cased text is one of `names`, or -1.
   */
  function FindIndexFrom(headers: seq<string>, names: set<string>, i: nat): (k: int)
    requires i <= |headers|
    ensures k == -1 || i <= k < |headers|
    ensures k >= 0 ==> ToLower(headers[k]) in names
    ensures forall j :: i <= j < |headers| && (k == -1 || j < k) ==> ToLower(headers[j]) !in names
    decreases |headers| - i
  {
    if i == |headers| then -1
    else if ToLower(headers[i]) in names then i
    else FindIndexFrom(headers, names, i + 1)
  }

  function FindIndex(headers: seq<string>, names: set<string>): int
  {
    FindIndexFrom(headers, names, 0)
  }

  /**
   * `k` is where `findIndex` stops: the first header whose lower-cased
   * text is one of `names`, or -1 when there is none.
   */
  predicate FirstNamed(headers: seq<string>, names: set<string>, k: int)
  {
    && -1 <= k < |headers|
    && (k >= 0 ==> ToLower(headers[k]) in names)
    && forall j :: 0 <= j < |headers| && (k == -1 || j < k) ==> ToLower(headers[j]) !in names
  }

  /** Columns are found by name, ignoring case; longitude answers to `lng`, `lon` or `long`. */
  function HeaderColumns(headers: seq<string>): (c: Columns)
    ensures FirstNamed(headers, {"city"}, c.city)
    ensures FirstNamed(headers, {"state_id"}, c.stateId)
    ensures FirstNamed(headers, {"state_name"}, c.stateName)
    ensures FirstNamed(headers, {"lat"}, c.lat)
    ensures FirstNamed(headers, {"lng", "lon", "long"}, c.lon)
  {
    Columns(FindIndex(headers, {"city"}), FindIndex(headers, {"state_id"}),
            FindIndex(headers, {"state_name"}), FindIndex(headers, {"lat"}),
            FindIndex(headers, {"lng", "lon", "long"}))
  }

  function Max(a: int, b: int): int
  {
    if a < b then b else a
  }

  /** `Math.max` of the five column positions. */
  function MaxIndex(c: Columns): int
  {
    Max(Max(Max(Max(c.city, c.stateId), c.stateName), c.lat), c.lon)
  }

  /** `cols[idx]`, with "" standing for the `undefined` of a position -1. */
  function Column(cols: seq<string>, idx: int): string
  {
    if 0 <= idx < |cols| then cols[idx] else ""
  }

  /**
   * A row matches when its city is non-empty and equals the query city, and
   * its state code or its state name is non-empty and equals the query
   * state; every comparison is on trimmed, lower-cased text.
   */
  predicate RowMatches(cols: seq<string>, c: Columns, city: string, state: string)
  {
    var csvCity := Trim(Column(cols, c.city));
    var csvStateId := Trim(Column(cols, c.stateId));
    var csvStateName := Trim(Column(cols, c.stateName));
    && csvCity != ""
    && ToLower(csvCity) == ToLower(Trim(city))
    && ((csvStateId != "" && ToLower(csvStateId) == ToLower(Trim(state)))
        || (csvStateName != "" && ToLower(csvStateName) == ToLower(Trim(state))))
  }

  /** A data line the lookup returns: not blank, long enough, and matching. */
  predicate Selected(line: string, c: Columns, city: string, state: string)
  {
    && Trim(line) != ""
    && |Fields(line)| > MaxIndex(c)
    && RowMatches(Fields(line), c, city, state)
  }

  function CoordsOf(cols: seq<string>, c: Columns): CityCoords
  {
    CityCoords(Column(cols, c.lat), Column(cols, c.lon))
  }

  /** The image under `f` of the first element at or after `i` that `sel` accepts. */
  function FirstFrom<T, U>(xs: seq<T>, i: nat, sel: T -> bool, f: T -> U): Option<U>
    decreases |xs| - i
  {
    if i >= |xs| then None
    else if sel(xs[i]) then Some(f(xs[i]))
    else FirstFrom(xs, i + 1, sel, f)
  }

  lemma {:induction false} FirstFromIsFirst<T, U>(xs: seq<T>, i: nat, k: nat, sel: T -> bool, f: T -> U)
    ensures FirstFrom(xs, i, sel, f).None? <==> forall j :: i <= j < |xs| ==> !sel(xs[j])
    ensures && i <= k < |xs| && sel(xs[k]) && (forall j :: i <= j < k ==> !sel(xs[j]))
            ==> FirstFrom(xs, i, sel, f) == Some(f(xs[k]))
    decreases |xs| - i
  {
    if i < |xs| && !sel(xs[i]) {
      FirstFromIsFirst(xs, i + 1, k, sel, f);
    }
  }

  /** When something is picked, it is the image of a selected element with none selected before it. */
  lemma {:induction false} FirstFromSome<T, U>(xs: seq<T>, i: nat, sel: T -> bool, f: T -> U)
    requires FirstFrom(xs, i, sel, f).Some?
    ensures exists k :: && i <= k < |xs| && sel(xs[k]) && (forall j :: i <= j < k ==> !sel(xs[j]))
                        && FirstFrom(xs, i, sel, f) == Some(f(xs[k]))
    decreases |xs| - i
  {
    if !sel(xs[i]) {
      FirstFromSome(xs, i + 1, sel, f);
      var k :| && i + 1 <= k < |xs| && sel(xs[k]) && (forall j :: i + 1 <= j < k ==> !sel(xs[j]))
               && FirstFrom(xs, i + 1, sel, f) == Some(f(xs[k]));
      assert forall j :: i <= j < k ==> !sel(xs[j]);
    }
  }

  /** Two selections that agree on every element pick the same element. */
  lemma {:induction false} FirstFromAgree<T, U>(xs: seq<T>, i: nat, sel1: T -> bool, sel2: T -> bool, f: T -> U)
    requires forall j :: i <= j < |xs| ==> sel1(xs[j]) == sel2(xs[j])
    ensures FirstFrom(xs, i, sel1, f) == FirstFrom(xs, i, sel2, f)
    decreases |xs| - i
  {
    if i < |xs| {
      FirstFromAgree(xs, i + 1, sel1, sel2, f);
    }
  }

  /** The coordinates of the first selected line at or after `i`. */
  function FirstMatchFrom(lines: seq<string>, i: nat, c: Columns, city: string, state: string): Option<CityCoords>
  {
    FirstFrom(lines, i, line => Selected(line, c, city, state), line => CoordsOf(Fields(line), c))
  }

  function Lines(text: string): seq<string>
  {
    Split(text, '\n')
  }

  function TextColumns(text: string): Columns
  {
    HeaderColumns(Fields(Lines(text)[0]))
  }

  /** What a lookup in the table `text` returns. */
  function CityLookup(text: string, city: string, state: string): Option<CityCoords>
  {
    FirstMatchFrom(Lines(text), 1, TextColumns(text), city, state)
  }

  /**
   * When the lookup finds something, it is the coordinates of a selected
   * line with no selected line before it.
   */
  lemma FirstMatchSome(lines: seq<string>, i: nat, c: Columns, city: string, state: string)
    requires FirstMatchFrom(lines, i, c, city, state).Some?
    ensures exists k :: && i <= k < |lines| && Selected(lines[k], c, city, state)
                        && (forall j :: i <= j < k ==> !Selected(lines[j], c, city, state))
                        && FirstMatchFrom(lines, i, c, city, state) == Some(CoordsOf(Fields(lines[k]), c))
  {
    FirstFromSome(lines, i, line => Selected(line, c, city, state), line => CoordsOf(Fields(line), c));
  }

  /** One step of the lookup: the line at `i` is returned when it is selected, and otherwise the search goes on. */
  lemma FirstMatchStep(lines: seq<string>, i: nat, c: Columns, city: string, state: string)
    requires i < |lines|
    ensures FirstMatchFrom(lines, i, c, city, state)
              == if Selected(lines[i], c, city, state) then Some(CoordsOf(Fields(lines[i]), c))
                 else FirstMatchFrom(lines, i + 1, c, city, state)
  {
  }

  /** The loop of `getCityCoords`, with the file contents passed in as `text`. */
  method GetCityCoords(text: string, city: string, state: string) returns (r: Option<CityCoords>)
    ensures r == CityLookup(text, city, state)
  {
    var lines := Split(text, '\n');
    var headers := ParseCsvLine(lines[0]);
    var columns := HeaderColumns(headers);
    var i := 1;
    while i < |lines|
      invariant 1 <= i <= |lines|
      invariant FirstMatchFrom(lines, i, columns, city, state) == CityLookup(text, city, state)
    {
      FirstMatchStep(lines, i, columns, city, state);
      if Trim(lines[i]) == "" {
        i := i + 1;
        continue;
      }
      var cols := ParseCsvLine(lines[i]);
      if |cols| <= MaxIndex(columns) {
        i := i + 1;
        continue;
      }
      assert RowMatches(cols, columns, city, state) <==> Selected(lines[i], columns, city, state);
      var csvCity := Trim(Column(cols, columns.city));
      var csvStateId := Trim(Column(cols, columns.stateId));
      var csvStateName := Trim(Column(cols, columns.stateName));
      if && csvCity != ""
         && ToLower(csvCity) == ToLower(Trim(city))
         && ((csvStateId != "" && ToLower(csvStateId) == ToLower(Trim(state)))
             || (csvStateName != "" && ToLower(csvStateName) == ToLower(Trim(state))))
      {
        r := Some(CityCoords(Column(cols, columns.lat), Column(cols, columns.lon)));
        return;
      }
      i := i + 1;
    }
    r := None;
  }

  /**
   * The lookup returns the first selected line: nothing exactly when no
   * line at or after `i` is selected, and otherwise the coordinates of the
   * selected line that has no selected line before it.
   */
  lemma {:induction false} FirstMatchIsFirst(lines: seq<string>, i: nat, k: nat, c: Columns, city: string, state: string)
    ensures FirstMatchFrom(lines, i, c, city, state).None? <==>
              forall j :: i <= j < |lines| ==> !Selected(lines[j], c, city, state)
    ensures && i <= k < |lines| && Selected(lines[k], c, city, state)
            && (forall j :: i <= j < k ==> !Selected(lines[j], c, city, state))
            ==> FirstMatchFrom(lines, i, c, city, state) == Some(CoordsOf(Fields(lines[k]), c))
  {
    FirstFromIsFirst(lines, i, k, line => Selected(line, c, city, state), line => CoordsOf(Fields(line), c));
  }

  /**
   * Only the trimmed, lower-cased query matters: two queries whose city and
   * state agree after trimming and lower-casing ("los angeles"/"ca" and
   * " LOS ANGELES"/"CA") find the same row.
   */
  lemma CaseInsensitive(lines: seq<string>, i: nat, c: Columns,
                        city1: string, state1: string, city2: string, state2: string)
    requires ToLower(Trim(city1)) == ToLower(Trim(city2))
    requires ToLower(Trim(state1)) == ToLower(Trim(state2))
    ensures FirstMatchFrom(lines, i, c, city1, state1) == FirstMatchFrom(lines, i, c, city2, state2)
  {
    forall j | i <= j < |lines|
      ensures Selected(lines[j], c, city1, state1) == Selected(lines[j], c, city2, state2)
    {
    }
    FirstFromAgree(lines, i, line => Selected(line, c, city1, state1),
                   line => Selected(line, c, city2, state2), line => CoordsOf(Fields(line), c));
  }

  /**
   * A table in which every row's state code and state name agree (the code
   * is `code` exactly when the name is `name`, ignoring case) and no code
   * reads as a name or a name as a code answers a query by state name as
   * it answers the query by state code: "California" works like "CA".
   */
  lemma StateNameOrCode(lines: seq<string>, i: nat, c: Columns, city: string, name: string, code: string)
    requires forall k :: i <= k < |lines| ==>
      var cols := Fields(lines[k]);
      var id := ToLower(Trim(Column(cols, c.stateId)));
      var full := ToLower(Trim(Column(cols, c.stateName)));
      && (id == ToLower(Trim(code)) <==> full == ToLower(Trim(name)))
      && id != ToLower(Trim(name)) && full != ToLower(Trim(code))
    requires Trim(name) != "" && Trim(code) != ""
    ensures FirstMatchFrom(lines, i, c, city, name) == FirstMatchFrom(lines, i, c, city, code)
  {
    forall j | i <= j < |lines|
      ensures Selected(lines[j], c, city, name) == Selected(lines[j], c, city, code)
    {
      var cols := Fields(lines[j]);
      assert |ToLower(Trim(name))| > 0 && |ToLower(Trim(code))| > 0;
      assert |Trim(Column(cols, c.stateId))| == |ToLower(Trim(Column(cols, c.stateId)))|;
      assert |Trim(Column(cols, c.stateName))| == |ToLower(Trim(Column(cols, c.stateName)))|;
    }
    FirstFromAgree(lines, i, line => Selected(line, c, city, name),
                   line => Selected(line, c, city, code), line => CoordsOf(Fields(line), c));
  }

  /** Without a `city` column no row can match, so every lookup returns null. */
  lemma NoCityColumn(lines: seq<string>, i: nat, c: Columns, city: string, state: string)
    requires c.city == -1
    ensures FirstMatchFrom(lines, i, c, city, state) == None
  {
    forall j | i <= j < |lines|
      ensures !Selected(lines[j], c, city, state)
    {
      assert Trim(Column(Fields(lines[j]), c.city)) == "";
    }
    FirstMatchIsFirst(lines, i, i, c, city, state);
  }
}
