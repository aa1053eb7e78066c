/** The `DatabaseUpdater` class of src/database_updater.py: four loops over the spreadsheet's
    sheets against the committed tables, then one commit. */
module DatabaseUpdater {
  import opened Wrappers
  import opened Entities
  import opened Staging
  import opened Reconciliation

  class DatabaseUpdater {
    /** The committed contents of the four tables. */
    var categories: map<int, CriminalCategory>
    var cities: map<int, City>
    var neighborhoods: map<int, Neighborhood>
    var stores: map<int, Store>

    function Snapshot(): Tables
      reads this
    {
      Tables(categories, cities, neighborhoods, stores)
    }

    /** Every committed row sits under its own primary key. */
    ghost predicate Valid()
      reads this
    {
      Keyed(Snapshot())
    }

    /** An updater over a database that already holds `initial`. */
    constructor(initial: Tables)
      requires Keyed(initial)
      ensures Valid()
      ensures Snapshot() == initial
    {
      categories := initial.categories;
      cities := initial.cities;
      neighborhoods := initial.neighborhoods;
      stores := initial.stores;
    }

    /** `update_from_excel`: returns `True` and commits exactly what `Reconcile` computes, or
        returns `False` and leaves the committed tables as they were. All timestamps of one run
        are `now`. On failure the source never rolls the session back (its guard
        `'session' in locals()` is always false), so rows staged or updated by the failed run may
        still be pending in the session when the next run starts; that carry-over is not part of
        this model, which starts each run from the committed tables. */
    method UpdateFromExcel(artifact: Artifact, now: Timestamp) returns (ok: bool)
      requires Valid()
      modifies this
      ensures Valid()
      ensures artifact.NotFound? ==> !ok
      ensures ok == Reconcile(old(Snapshot()), artifact, now).Some?
      ensures Snapshot() == if ok then Reconcile(old(Snapshot()), artifact, now).value else old(Snapshot())
    {
      if artifact.NotFound? {
        return false;
      }
      if artifact.Unreadable? {
        return false;
      }
      var book := artifact.book;

      var readable, categoriesToInsert := StageCategories(book.categories, now);
      if !readable {
        return false;
      }
      var newCategories := InsertAll(categories, categoriesToInsert, CategoryId);
      if newCategories.None? {
        return false;
      }

      var citiesToInsert;
      readable, citiesToInsert := StageCities(book.cities, now);
      if !readable {
        return false;
      }
      var newCities := InsertAll(cities, citiesToInsert, CityId);
      if newCities.None? {
        return false;
      }

      var neighborhoodsToInsert;
      readable, neighborhoodsToInsert := StageNeighborhoods(book.neighborhoods, now);
      if !readable {
        return false;
      }
      var newNeighborhoods := InsertAll(neighborhoods, neighborhoodsToInsert, NeighborhoodId);
      if newNeighborhoods.None? {
        return false;
      }

      var storeTable, storesToUpsert;
      readable, storeTable, storesToUpsert := StageStores(book.stores, now);
      if !readable {
        return false;
      }
      var newStores := InsertAll(storeTable, storesToUpsert, StoreId);
      if newStores.None? {
        return false;
      }

      ReconcileKeepsKeyed(Snapshot(), artifact, now);
      categories := newCategories.value;
      cities := newCities.value;
      neighborhoods := newNeighborhoods.value;
      stores := newStores.value;
      return true;
    }

    /** The category loop (src/database_updater.py:40-51): `readable` is false when it stops on
        a missing column; otherwise `staged` holds the records not yet stored, as rows. */
    method StageCategories(rs: seq<CategoryRecord>, now: Timestamp) returns (readable: bool, staged: seq<CriminalCategory>)
      ensures readable == CategoriesReadable(rs)
      ensures readable ==> staged == StageNew(categories, CategoryRows(rs, now), CategoryId, CategoryTitle)
    {
      staged := [];
      var i := 0;
      while i < |rs|
        invariant 0 <= i <= |rs|
        invariant CategoriesReadable(rs[..i])
        invariant staged == StageNew(categories, CategoryRows(rs[..i], now), CategoryId, CategoryTitle)
      {
        var row := rs[i];
        if row.id.Missing? || row.title.Missing? {
          return false, staged;
        }
        var categoryExists := row.id.value in categories && categories[row.id.value].title == row.title.value;
        if !categoryExists {
          staged := staged + [CriminalCategory(row.id.value, row.title.value, now)];
        }
        i := i + 1;
        assert CategoryRows(rs[..i], now)[..i - 1] == CategoryRows(rs[..i - 1], now);
      }
      assert rs[..i] == rs;
      readable := true;
    }

    /** The city loop (src/database_updater.py:56-67). */
    method StageCities(rs: seq<CityRecord>, now: Timestamp) returns (readable: bool, staged: seq<City>)
      ensures readable == CitiesReadable(rs)
      ensures readable ==> staged == StageNew(cities, CityRows(rs, now), CityId, CityName)
    {
      staged := [];
      var i := 0;
      while i < |rs|
        invariant 0 <= i <= |rs|
        invariant CitiesReadable(rs[..i])
        invariant staged == StageNew(cities, CityRows(rs[..i], now), CityId, CityName)
      {
        var row := rs[i];
        if row.id.Missing? || row.name.Missing? {
          return false, staged;
        }
        var cityExists := row.id.value in cities && cities[row.id.value].name == row.name.value;
        if !cityExists {
          staged := staged + [City(row.id.value, row.name.value, now)];
        }
        i := i + 1;
        assert CityRows(rs[..i], now)[..i - 1] == CityRows(rs[..i - 1], now);
      }
      assert rs[..i] == rs;
      readable := true;
    }

    /** The neighborhood loop (src/database_updater.py:72-85). */
    method StageNeighborhoods(rs: seq<NeighborhoodRecord>, now: Timestamp) returns (readable: bool, staged: seq<Neighborhood>)
      ensures readable == NeighborhoodsReadable(rs)
      ensures readable ==> staged == StageNew(neighborhoods, NeighborhoodRows(rs, now), NeighborhoodId, NeighborhoodNameAndCity)
    {
      staged := [];
      var i := 0;
      while i < |rs|
        invariant 0 <= i <= |rs|
        invariant NeighborhoodsReadable(rs[..i])
        invariant staged == StageNew(neighborhoods, NeighborhoodRows(rs[..i], now), NeighborhoodId, NeighborhoodNameAndCity)
      {
        var row := rs[i];
        if row.id.Missing? || row.name.Missing? || row.cityId.Missing? {
          return false, staged;
        }
        var neighborhoodExists := row.id.value in neighborhoods && neighborhoods[row.id.value].name == row.name.value
          && neighborhoods[row.id.value].cityId == row.cityId.value;
        if !neighborhoodExists {
          staged := staged + [Neighborhood(row.id.value, row.name.value, now, row.cityId.value)];
        }
        i := i + 1;
        assert NeighborhoodRows(rs[..i], now)[..i - 1] == NeighborhoodRows(rs[..i - 1], now);
      }
      assert rs[..i] == rs;
      readable := true;
    }

    /** The store loop (src/database_updater.py:90-119): `table` is the session's view of the
        stores after the in-place updates, `staged` the stores to insert. */
    method StageStores(rs: seq<StoreRecord>, now: Timestamp) returns (readable: bool, table: map<int, Store>, staged: seq<Store>)
      ensures readable == StoresReadable(rs)
      ensures readable ==> StoreMerge(table, staged) == MergeStores(stores, rs, now)
    {
      table := stores;
      staged := [];
      var i := 0;
      while i < |rs|
        invariant 0 <= i <= |rs|
        invariant StoresReadable(rs[..i])
        invariant StoreMerge(table, staged) == MergeStores(stores, rs[..i], now)
      {
        var row := rs[i];
        if !StoreReadable(row) {
          return false, table, staged;
        }
        if row.id.value in table && table[row.id.value].name == row.name.value {
          var store := table[row.id.value];
          table := table[row.id.value := store.(
            address := row.address.value, vote := row.vote.value, latitude := row.latitude.value,
            longitude := row.longitude.value, fullVote := row.fullVote.value, comment := row.comment.value,
            updatedAt := Some(now), criminalCategoryId := row.criminalCategoryId.value,
            neighborhoodId := row.neighborhoodId.value)];
        } else {
          staged := staged + [Store(
            row.id.value, row.name.value, row.address.value, row.vote.value, row.latitude.value,
            row.longitude.value, row.fullVote.value, row.comment.value, now, Some(now),
            row.criminalCategoryId.value, row.neighborhoodId.value)];
        }
        i := i + 1;
        assert rs[..i][..i - 1] == rs[..i - 1];
      }
      assert rs[..i] == rs;
      readable := true;
    }

    /** `pre_populateDB`: the same run under its older name. */
    method PrePopulateDb(artifact: Artifact, now: Timestamp) returns (ok: bool)
      requires Valid()
      modifies this
      ensures Valid()
      ensures ok == Reconcile(old(Snapshot()), artifact, now).Some?
      ensures Snapshot() == if ok then Reconcile(old(Snapshot()), artifact, now).value else old(Snapshot())
    {
      ok := UpdateFromExcel(artifact, now);
    }
  }
}
