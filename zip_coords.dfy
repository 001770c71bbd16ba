/**
 * helperFunctions/zipCoords.js: the ZIP code table. The rows of the ZIP
 * file are read once (PapaParse with a header line), every row with a ZIP
 * code and two numeric coordinates is stored under its ZIP code, and
 * lookups are by exact ZIP code text.
 */
module ZipCoords {
  import opened Wrappers

  /** The `{lat, lng}` stored for a ZIP code. */
  datatype ZipCoords = ZipCoords(lat: real, lng: real)

  /**
   * One parsed row: the `zip` column ("" when the column is missing) and
   * `parseFloat` of the `lat` and `lng` columns, `None` standing for NaN.
   */
  datatype ZipRow = ZipRow(zip: string, lat: Option<real>, lng: Option<real>)

  /** A row is stored when it has a ZIP code and both coordinates are numbers. */
  predicate Accepted(row: ZipRow)
  {
    row.zip != "" && row.lat.Some? && row.lng.Some?
  }

  /**
   * One step of the `forEach`: an accepted row overwrites the entry for its
   * ZIP code; no other entry changes and no entry is removed.
   */
  function Store(table: map<string, ZipCoords>, row: ZipRow): (r: map<string, ZipCoords>)
    ensures table.Keys <= r.Keys
    ensures Lookup(r, row.zip) == if Accepted(row) then Some(ZipCoords(row.lat.value, row.lng.value))
                                  else Lookup(table, row.zip)
    ensures forall z :: z != row.zip ==> Lookup(r, z) == Lookup(table, z)
  {
    if Accepted(row) then table[row.zip := ZipCoords(row.lat.value, row.lng.value)] else table
  }

  /** The table after storing `rows` in order; no entry is ever removed. */
  function StoreAll(table: map<string, ZipCoords>, rows: seq<ZipRow>): (r: map<string, ZipCoords>)
    ensures table.Keys <= r.Keys
  {
    if rows == [] then table
    else Store(StoreAll(table, rows[..|rows| - 1]), rows[|rows| - 1])
  }

  /** Row `i` is accepted and is for `zip`. */
  predicate AcceptedFor(rows: seq<ZipRow>, i: nat, zip: string)
    requires i < |rows|
  {
    Accepted(rows[i]) && rows[i].zip == zip
  }

  /**
   * The coordinates of the last accepted row for `zip`: `None` exactly when
   * no accepted row is for `zip`, and otherwise those of an accepted row for
   * `zip` that no later accepted row for `zip` follows.
   */
  function LastAccepted(rows: seq<ZipRow>, zip: string): (r: Option<ZipCoords>)
    ensures r.None? <==> forall i :: 0 <= i < |rows| ==> !AcceptedFor(rows, i, zip)
    ensures r.Some? ==> exists i :: && 0 <= i < |rows| && AcceptedFor(rows, i, zip)
                                    && r.value == ZipCoords(rows[i].lat.value, rows[i].lng.value)
                                    && forall j :: i < j < |rows| ==> !AcceptedFor(rows, j, zip)
  {
    if rows == [] then None
    else
      var n := |rows| - 1;
      var row := rows[n];
      if Accepted(row) && row.zip == zip then
        assert AcceptedFor(rows, n, zip);
        Some(ZipCoords(row.lat.value, row.lng.value))
      else
        var init := rows[..n];
        assert forall i :: 0 <= i < n ==> AcceptedFor(init, i, zip) == AcceptedFor(rows, i, zip);
        LastAccepted(init, zip)
  }

  /** Looking `zip` up in `table`. */
  function Lookup(table: map<string, ZipCoords>, zip: string): Option<ZipCoords>
  {
    if zip in table then Some(table[zip]) else None
  }

  /**
   * Later rows win: after storing `rows`, a ZIP code maps to the
   * coordinates of its last accepted row, and keeps its old entry (or
   * stays absent) when no row for it was accepted.
   */
  lemma {:induction false} StoreAllLookup(table: map<string, ZipCoords>, rows: seq<ZipRow>, zip: string)
    ensures Lookup(StoreAll(table, rows), zip)
            == if LastAccepted(rows, zip).Some? then LastAccepted(rows, zip) else Lookup(table, zip)
  {
    if rows != [] {
      StoreAllLookup(table, rows[..|rows| - 1], zip);
    }
  }

  /** Only ZIP codes that were there before or that an accepted row names are keys afterwards. */
  lemma {:induction false} StoreAllKeys(table: map<string, ZipCoords>, rows: seq<ZipRow>)
    ensures forall z :: z in StoreAll(table, rows) ==>
              z in table || exists i :: 0 <= i < |rows| && Accepted(rows[i]) && rows[i].zip == z
  {
    if rows != [] {
      var init := rows[..|rows| - 1];
      StoreAllKeys(table, init);
      forall z | z in StoreAll(table, rows)
        ensures z in table || exists i :: 0 <= i < |rows| && Accepted(rows[i]) && rows[i].zip == z
      {
        if z !in StoreAll(table, init) {
          assert Accepted(rows[|rows| - 1]) && rows[|rows| - 1].zip == z;
        } else if z !in table {
          var i :| 0 <= i < |init| && Accepted(init[i]) && init[i].zip == z;
          assert rows[i] == init[i];
        }
      }
    }
  }

  /** The empty ZIP code is never a key of a table built from nothing. */
  lemma NoEmptyZip(rows: seq<ZipRow>)
    ensures "" !in StoreAll(map[], rows)
  {
    StoreAllKeys(map[], rows);
  }

  class ZipTable {
    /** `zipToCoords`. */
    var coords: map<string, ZipCoords>
    /** `zipCoordsLoaded`. */
    var loaded: bool

    /** Nothing is stored before the table has loaded. */
    predicate Valid()
      reads this
    {
      !loaded ==> coords == map[]
    }

    /** The state at page load. */
    constructor()
      ensures Valid() && !loaded && coords == map[]
    {
      coords := map[];
      loaded := false;
    }

    /** The `forEach` over the parsed rows. */
    method StoreRows(rows: seq<ZipRow>)
      modifies this
      ensures coords == StoreAll(old(coords), rows)
      ensures loaded == old(loaded)
    {
      var i := 0;
      while i < |rows|
        invariant 0 <= i <= |rows|
        invariant coords == StoreAll(old(coords), rows[..i])
        invariant loaded == old(loaded)
      {
        assert rows[..i + 1][..i] == rows[..i];
        var row := rows[i];
        if row.zip != "" && row.lat.Some? && row.lng.Some? {
          coords := coords[row.zip := ZipCoords(row.lat.value, row.lng.value)];
        }
        i := i + 1;
      }
      assert rows[..|rows|] == rows;
    }

    /**
     * `loadZipCoords(callback)`: once loaded, runs the callback at once.
     * Otherwise the download is a parameter: `None` when it fails, in which
     * case PapaParse never calls `complete` and the callback never runs;
     * otherwise every row is stored, the table is marked loaded, and then
     * the callback runs.
     */
    method Load(download: Option<seq<ZipRow>>) returns (callbackRuns: bool)
      requires Valid()
      modifies this
      ensures Valid()
      ensures callbackRuns <==> old(loaded) || download.Some?
      ensures loaded <==> old(loaded) || download.Some?
      ensures old(loaded) || download.None? ==> coords == old(coords)
      ensures !old(loaded) && download.Some? ==> coords == StoreAll(map[], download.value)
    {
      if loaded {
        return true;
      }
      if download.None? {
        return false;
      }
      StoreRows(download.value);
      loaded := true;
      callbackRuns := true;
    }

    /** `getCoordinatesForZip`: the entry stored under exactly this ZIP code, or `null`. */
    function GetCoordinatesForZip(zip: string): (r: Option<ZipCoords>)
      reads this
      ensures r.Some? <==> zip in coords
      ensures r.Some? ==> r.value == coords[zip]
    {
      Lookup(coords, zip)
    }
  }

  /**
   * After a first successful load, a ZIP code's coordinates are those of
   * the last accepted row for it in the file, and `null` when it has none.
   */
  lemma LookupAfterLoad(rows: seq<ZipRow>, zip: string)
    ensures Lookup(StoreAll(map[], rows), zip) == LastAccepted(rows, zip)
  {
    StoreAllLookup(map[], rows, zip);
  }
}
