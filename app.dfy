/**
 * The search logic of app.js: the ZIP code check, the digit-only input
 * filter, the order in which `handleSearch` validates its input, and the
 * `findEventsNearZip` pipeline (add a distance to every event, keep those
 * within the radius, sort them by distance). The Haversine distance is a
 * parameter `distance`, so the pipeline is proved for every distance
 * function.
 */
module App {
  import opened Wrappers
  import opened JsString
  import opened ZipCoords
  import Zip = ZipCoords

  /**
   * `isValidZipCode`: `/^\d{5}$/`, exactly five ASCII digits and nothing
   * else; equivalently, five characters that the digit filter leaves as
   * they are.
   */
  predicate IsValidZipCode(zip: string)
    ensures IsValidZipCode(zip) <==> |zip| == 5 && KeepDigits(zip) == zip
  {
    KeepDigitsFixed(zip);
    |zip| == 5 && forall i :: 0 <= i < |zip| ==> IsDigit(zip[i])
  }

  /** The input filter `value.replace(/\D/g, '')`: every non-digit removed. */
  function KeepDigits(s: string): (r: string)
    ensures |r| <= |s|
    ensures forall i :: 0 <= i < |r| ==> IsDigit(r[i])
    ensures forall c :: IsDigit(c) ==> Occurrences(r, c) == Occurrences(s, c)
  {
    if s == [] then []
    else if IsDigit(s[0]) then [s[0]] + KeepDigits(s[1..])
    else KeepDigits(s[1..])
  }

  /** The filter works piece by piece, so it keeps the digits in their order. */
  lemma {:induction false} KeepDigitsAppend(a: string, b: string)
    ensures KeepDigits(a + b) == KeepDigits(a) + KeepDigits(b)
  {
    if a == [] {
      assert a + b == b;
    } else {
      assert (a + b)[0] == a[0];
      assert (a + b)[1..] == a[1..] + b;
      KeepDigitsAppend(a[1..], b);
      if IsDigit(a[0]) {
        assert KeepDigits(a) == [a[0]] + KeepDigits(a[1..]);
        assert KeepDigits(a + b) == [a[0]] + KeepDigits(a[1..] + b);
      }
    }
  }

  /** A string of digits is left as it is, so filtering twice is filtering once. */
  lemma {:induction false} KeepDigitsOfDigits(s: string)
    requires forall i :: 0 <= i < |s| ==> IsDigit(s[i])
    ensures KeepDigits(s) == s
  {
    if s != [] {
      KeepDigitsOfDigits(s[1..]);
    }
  }

  /** The filter leaves a string as it is exactly when every character is a digit. */
  lemma KeepDigitsFixed(s: string)
    ensures KeepDigits(s) == s <==> forall i :: 0 <= i < |s| ==> IsDigit(s[i])
  {
    if forall i :: 0 <= i < |s| ==> IsDigit(s[i]) {
      KeepDigitsOfDigits(s);
    }
  }

  lemma KeepDigitsIdempotent(s: string)
    ensures KeepDigits(KeepDigits(s)) == KeepDigits(s)
  {
    KeepDigitsOfDigits(KeepDigits(s));
  }

  /** After the filter, the ZIP check only asks whether exactly five digits were typed. */
  lemma FilteredZipValid(s: string)
    ensures IsValidZipCode(KeepDigits(s)) <==> |KeepDigits(s)| == 5
  {
  }

  /** A valid ZIP code passes the filter unchanged. */
  lemma ValidZipIsFiltered(zip: string)
    requires IsValidZipCode(zip)
    ensures KeepDigits(zip) == zip
  {
    KeepDigitsOfDigits(zip);
  }

  /** What the first checks of `handleSearch` decide. */
  datatype Validation = EmptyZip | InvalidZip | Proceed(zip: string)

  const EnterZipMessage := "Please enter a ZIP code."
  const InvalidZipMessage := "Please enter a valid 5-digit ZIP code."
  const NoZipDataMessage := "Sorry, we don't have location data for this ZIP code. Try: 90210, 10001, 60612, or other major city ZIP codes."

  /**
   * The input is trimmed; an empty value is reported before the format is
   * checked, and only a five-digit value goes on to the lookup.
   */
  function ValidateSearch(input: string): (v: Validation)
    ensures v == EmptyZip <==> Trim(input) == ""
    ensures v == InvalidZip <==> Trim(input) != "" && !IsValidZipCode(Trim(input))
    ensures v.Proceed? <==> IsValidZipCode(Trim(input))
    ensures v.Proceed? ==> v.zip == Trim(input)
  {
    var zip := Trim(input);
    if zip == "" then EmptyZip
    else if !IsValidZipCode(zip) then InvalidZip
    else Proceed(zip)
  }

  /** `{ ...event, distance }`: the event as it was, with its distance added. */
  datatype Annotated<E> = Annotated(event: E, distance: real)

  /** The default search radius, in miles. */
  const DefaultMaxDistance: real := 1500.0

  /** The `map` step: every event with its distance from the user. */
  function Annotate<E>(user: Zip.ZipCoords, events: seq<E>, distance: (Zip.ZipCoords, E) -> real): (r: seq<Annotated<E>>)
    ensures |r| == |events|
    ensures forall i :: 0 <= i < |r| ==> r[i] == Annotated(events[i], distance(user, events[i]))
  {
    if events == [] then []
    else [Annotated(events[0], distance(user, events[0]))] + Annotate(user, events[1..], distance)
  }

  /** The `filter` step: the annotated events no farther than `maxDistance`, in order. */
  function WithinRadius<E>(s: seq<Annotated<E>>, maxDistance: real): (r: seq<Annotated<E>>)
    ensures forall i :: 0 <= i < |r| ==> r[i].distance <= maxDistance
    ensures forall i :: 0 <= i < |r| ==> r[i] in s
    ensures forall i :: 0 <= i < |s| && s[i].distance <= maxDistance ==> s[i] in r
    ensures forall d :: AtDistance(r, d) == if d <= maxDistance then AtDistance(s, d) else []
  {
    if s == [] then []
    else
      var rest := WithinRadius(s[1..], maxDistance);
      AtDistanceCons(s[0], s[1..]);
      if s[0].distance <= maxDistance then
        AtDistanceCons(s[0], rest);
        [s[0]] + rest
      else rest
  }

  /**
   * The filter keeps every record within the radius as often as it occurs
   * and drops every other one.
   */
  lemma {:induction false} WithinRadiusCounts<E>(s: seq<Annotated<E>>, maxDistance: real)
    ensures forall x :: multiset(WithinRadius(s, maxDistance))[x]
                        == if x.distance <= maxDistance then multiset(s)[x] else 0
  {
    if s != [] {
      WithinRadiusCounts(s[1..], maxDistance);
      assert s == [s[0]] + s[1..];
    }
  }

  predicate SortedByDistance<E>(s: seq<Annotated<E>>)
  {
    forall i, j :: 0 <= i < j < |s| ==> s[i].distance <= s[j].distance
  }

  /** The elements of `s` at distance `d`, in order: what a stable sort must not reorder. */
  function AtDistance<E>(s: seq<Annotated<E>>, d: real): seq<Annotated<E>>
  {
    if s == [] then []
    else if s[0].distance == d then [s[0]] + AtDistance(s[1..], d)
    else AtDistance(s[1..], d)
  }

  /** Puts `x` in front of the first element that is not strictly closer: adds `x` and nothing else. */
  function Insert<E>(x: Annotated<E>, s: seq<Annotated<E>>): (r: seq<Annotated<E>>)
    ensures multiset(r) == multiset([x] + s)
  {
    if s == [] || x.distance <= s[0].distance then [x] + s
    else
      assert s == [s[0]] + s[1..];
      [s[0]] + Insert(x, s[1..])
  }

  /**
   * The `sort((a, b) => a.distance - b.distance)` step: the result is
   * ordered by distance, holds the same elements as often as `s`, and keeps
   * elements at the same distance in their order in `s`, as the stable
   * `Array.prototype.sort` does; `StableSortIsUnique` shows that no other
   * sequence has these three properties.
   */
  function SortByDistance<E>(s: seq<Annotated<E>>): (r: seq<Annotated<E>>)
    ensures SortedByDistance(r)
    ensures multiset(r) == multiset(s)
    ensures forall d :: AtDistance(r, d) == AtDistance(s, d)
  {
    if s == [] then []
    else
      var rest := SortByDistance(s[1..]);
      InsertSorted(s[0], rest);
      InsertStableAll(s[0], rest);
      assert s == [s[0]] + s[1..];
      Insert(s[0], rest)
  }

  /** A lower bound on `x` and on every element of `s` bounds the result of the insertion. */
  lemma {:induction false} InsertBound<E>(x: Annotated<E>, s: seq<Annotated<E>>, lo: real)
    requires lo <= x.distance
    requires forall i :: 0 <= i < |s| ==> lo <= s[i].distance
    ensures forall j :: 0 <= j < |Insert(x, s)| ==> lo <= Insert(x, s)[j].distance
  {
    if s != [] && s[0].distance < x.distance {
      InsertBound(x, s[1..], lo);
    }
  }

  lemma {:induction false} InsertSorted<E>(x: Annotated<E>, s: seq<Annotated<E>>)
    requires SortedByDistance(s)
    ensures SortedByDistance(Insert(x, s))
  {
    if s != [] && s[0].distance < x.distance {
      InsertSorted(x, s[1..]);
      InsertBound(x, s[1..], s[0].distance);
    }
  }

  /** Inserting `x` only moves it past elements at other distances. */
  lemma {:induction false} InsertStable<E>(x: Annotated<E>, s: seq<Annotated<E>>, d: real)
    ensures AtDistance(Insert(x, s), d) == AtDistance([x] + s, d)
  {
    if s != [] && s[0].distance < x.distance {
      InsertStable(x, s[1..], d);
      assert ([x] + s)[1..] == s;
      assert ([s[0]] + Insert(x, s[1..]))[1..] == Insert(x, s[1..]);
      assert ([x] + s[1..])[1..] == s[1..];
    }
  }

  /** `AtDistance` of a sequence with `x` in front. */
  lemma AtDistanceCons<E>(x: Annotated<E>, s: seq<Annotated<E>>)
    ensures forall d :: AtDistance([x] + s, d) == if x.distance == d then [x] + AtDistance(s, d) else AtDistance(s, d)
  {
    assert ([x] + s)[1..] == s;
  }

  /** The first element at the distance of `s[0]` is `s[0]` itself. */
  lemma AtDistanceHead<E>(s: seq<Annotated<E>>)
    requires s != []
    ensures AtDistance(s, s[0].distance) == [s[0]] + AtDistance(s[1..], s[0].distance)
    ensures forall d :: d != s[0].distance ==> AtDistance(s, d) == AtDistance(s[1..], d)
  {
  }

  /** Something at distance `d` is in `s` when `AtDistance(s, d)` is not empty. */
  lemma {:induction false} AtDistanceMember<E>(s: seq<Annotated<E>>, d: real)
    requires AtDistance(s, d) != []
    ensures exists i :: 0 <= i < |s| && s[i].distance == d
  {
    if s[0].distance != d {
      AtDistanceMember(s[1..], d);
      var i :| 0 <= i < |s[1..]| && s[1..][i].distance == d;
      assert s[i + 1].distance == d;
    }
  }

  lemma InsertStableAll<E>(x: Annotated<E>, s: seq<Annotated<E>>)
    ensures forall d :: AtDistance(Insert(x, s), d) == AtDistance([x] + s, d)
  {
    forall d ensures AtDistance(Insert(x, s), d) == AtDistance([x] + s, d) {
      InsertStable(x, s, d);
    }
  }

  /**
   * Two sequences sorted by distance that hold, for every distance, the
   * same elements in the same order are equal: a stable sort has only one
   * possible result.
   */
  lemma {:induction false} StableSortIsUnique<E>(a: seq<Annotated<E>>, b: seq<Annotated<E>>)
    requires SortedByDistance(a) && SortedByDistance(b)
    requires forall d :: AtDistance(a, d) == AtDistance(b, d)
    ensures a == b
  {
    if a == [] {
      if b != [] {
        AtDistanceHead(b);
      }
    } else if b == [] {
      AtDistanceHead(a);
    } else {
      var da, db := a[0].distance, b[0].distance;
      AtDistanceHead(a);
      AtDistanceHead(b);
      assert AtDistance(a, da) == AtDistance(b, da);
      assert AtDistance(a, db) == AtDistance(b, db);
      AtDistanceMember(b, da);
      AtDistanceMember(a, db);
      assert db <= da && da <= db;
      assert a[0] == AtDistance(b, da)[0] == b[0];
      forall d ensures AtDistance(a[1..], d) == AtDistance(b[1..], d) {
        if d == da {
          assert [a[0]] + AtDistance(a[1..], d) == [b[0]] + AtDistance(b[1..], d);
          assert ([a[0]] + AtDistance(a[1..], d))[1..] == AtDistance(a[1..], d);
          assert ([b[0]] + AtDistance(b[1..], d))[1..] == AtDistance(b[1..], d);
        }
      }
      StableSortIsUnique(a[1..], b[1..]);
      assert a == [a[0]] + a[1..] && b == [b[0]] + b[1..];
    }
  }

  /**
   * `findEventsNearZip`: no results when the ZIP code has no coordinates or
   * the events cannot be loaded (`fetched` is `None`); otherwise the events
   * within `maxDistance`, closest first.
   */
  function FindEventsNearZip<E>(userCoords: Option<Zip.ZipCoords>, fetched: Option<seq<E>>,
                                distance: (Zip.ZipCoords, E) -> real, maxDistance: real): (r: seq<Annotated<E>>)
    ensures userCoords.None? || fetched.None? ==> r == []
    ensures userCoords.Some? && fetched.Some? ==>
              && SortedByDistance(r)
              && forall i :: 0 <= i < |r| ==>
                   && r[i].event in fetched.value
                   && r[i].distance == distance(userCoords.value, r[i].event)
                   && r[i].distance <= maxDistance
  {
    if userCoords.None? || fetched.None? then []
    else
      var annotated := Annotate(userCoords.value, fetched.value, distance);
      var r := SortByDistance(WithinRadius(annotated, maxDistance));
      SortWithinRadius(annotated, maxDistance);
      KeptMembers(userCoords.value, fetched.value, distance, maxDistance, r);
      r
  }

  /**
   * Filtering then sorting keeps each record within the radius as often as
   * it occurs, orders them by distance, and keeps records at the same
   * distance in their input order.
   */
  lemma SortWithinRadius<E>(s: seq<Annotated<E>>, maxDistance: real)
    ensures var r := SortByDistance(WithinRadius(s, maxDistance));
            && SortedByDistance(r)
            && (forall x :: multiset(r)[x] == if x.distance <= maxDistance then multiset(s)[x] else 0)
            && (forall d :: AtDistance(r, d) == if d <= maxDistance then AtDistance(s, d) else [])
  {
    WithinRadiusCounts(s, maxDistance);
  }

  /**
   * A sequence holding each annotated event within the radius as often as
   * it occurs, and nothing else, holds exactly the events within the radius
   * with their distances.
   */
  lemma KeptMembers<E>(user: Zip.ZipCoords, events: seq<E>, distance: (Zip.ZipCoords, E) -> real,
                       maxDistance: real, r: seq<Annotated<E>>)
    requires forall x :: multiset(r)[x] == if x.distance <= maxDistance
                                           then multiset(Annotate(user, events, distance))[x] else 0
    ensures forall x :: x in r ==> x.event in events && x.distance == distance(user, x.event)
                                   && x.distance <= maxDistance
    ensures forall e :: e in events && distance(user, e) <= maxDistance ==> Annotated(e, distance(user, e)) in r
  {
    var annotated := Annotate(user, events, distance);
    forall x | x in r
      ensures x.event in events && x.distance == distance(user, x.event) && x.distance <= maxDistance
    {
      assert multiset(r)[x] > 0;
      assert multiset(annotated)[x] > 0;
      assert x in annotated;
      var i :| 0 <= i < |annotated| && annotated[i] == x;
    }
    forall e | e in events && distance(user, e) <= maxDistance
      ensures Annotated(e, distance(user, e)) in r
    {
      var i :| 0 <= i < |events| && events[i] == e;
      assert annotated[i] == Annotated(e, distance(user, e));
      assert multiset(annotated)[annotated[i]] > 0;
      assert multiset(r)[annotated[i]] > 0;
    }
  }

  /**
   * What `findEventsNearZip` promises: every result is an input event with
   * its distance, no farther than the radius; every event within the
   * radius is there, as often as it occurs; the results are in order of
   * distance, and events at the same distance keep their input order.
   */
  lemma FindEventsNearZipCorrect<E>(user: Zip.ZipCoords, events: seq<E>,
                                    distance: (Zip.ZipCoords, E) -> real, maxDistance: real)
    ensures var r := FindEventsNearZip(Some(user), Some(events), distance, maxDistance);
            var annotated := Annotate(user, events, distance);
            && (forall x :: x in r ==> x.event in events && x.distance == distance(user, x.event)
                                       && x.distance <= maxDistance)
            && (forall e :: e in events && distance(user, e) <= maxDistance ==>
                              Annotated(e, distance(user, e)) in r)
            && SortedByDistance(r)
            && (forall x :: multiset(r)[x] == if x.distance <= maxDistance then multiset(annotated)[x] else 0)
            && (forall d :: AtDistance(r, d) == if d <= maxDistance then AtDistance(annotated, d) else [])
  {
    var annotated := Annotate(user, events, distance);
    var r := SortByDistance(WithinRadius(annotated, maxDistance));
    SortWithinRadius(annotated, maxDistance);
    KeptMembers(user, events, distance, maxDistance, r);
  }

  /** What the page shows once `handleSearch` has run. */
  datatype Screen<E> = ErrorMessage(message: string) | StillLoading | EventList(events: seq<Annotated<E>>)

  /**
   * `handleSearch` followed by `doSearch`. The ZIP table is always loaded
   * through `loadZipCoords` (the `window.zipCoordsLoaded` it tests is never
   * set, because a top-level `let` is not a property of `window`), which
   * returns at once when the table is already loaded. When the first load
   * fails the callback never runs and the loading message stays up.
   * `download` and `fetched` are what the ZIP file and the events file
   * deliver, `None` when they fail.
   */
  method HandleSearch<E>(table: ZipTable, input: string, download: Option<seq<ZipRow>>,
                         fetched: Option<seq<E>>, distance: (Zip.ZipCoords, E) -> real)
    returns (screen: Screen<E>)
    requires table.Valid()
    modifies table
    ensures table.Valid()
    ensures ValidateSearch(input) == EmptyZip ==> screen == ErrorMessage(EnterZipMessage)
    ensures ValidateSearch(input) == InvalidZip ==> screen == ErrorMessage(InvalidZipMessage)
    ensures !ValidateSearch(input).Proceed? ==> unchanged(table)
    ensures ValidateSearch(input).Proceed? ==>
              && (table.loaded <==> old(table.loaded) || download.Some?)
              && (old(table.loaded) || download.None? ==> table.coords == old(table.coords))
              && (!old(table.loaded) && download.Some? ==> table.coords == StoreAll(map[], download.value))
    ensures ValidateSearch(input).Proceed? && !table.loaded ==> screen == StillLoading
    ensures ValidateSearch(input).Proceed? && table.loaded ==>
              var coords := table.GetCoordinatesForZip(ValidateSearch(input).zip);
              screen == if coords.None? then ErrorMessage(NoZipDataMessage)
                        else EventList(FindEventsNearZip(coords, fetched, distance, DefaultMaxDistance))
  {
    var zip := Trim(input);
    if zip == "" {
      return ErrorMessage(EnterZipMessage);
    }
    if !IsValidZipCode(zip) {
      return ErrorMessage(InvalidZipMessage);
    }
    var callbackRuns := table.Load(download);
    if !callbackRuns {
      return StillLoading;
    }
    var coords := table.GetCoordinatesForZip(zip);
    if coords.None? {
      return ErrorMessage(NoZipDataMessage);
    }
    screen := EventList(FindEventsNearZip(coords, fetched, distance, DefaultMaxDistance));
  }
}
