/** What one run of `DatabaseUpdater.update_from_excel` (src/database_updater.py) does to the
    database, as a function of the tables before the run, the spreadsheet and the clock. The
    imperative run is the `DatabaseUpdater` class; this module is its specification and the
    properties proved about it. */
module Reconciliation {
  import opened Wrappers
  import opened Entities
  import opened Staging

  /** One spreadsheet cell as `row[column]` reads it: `Missing` when the sheet has no such
      column (pandas raises `KeyError`), otherwise the already converted value. */
  datatype Cell<+T> = Missing | Has(value: T)

  /** A row of sheet `category`. */
  datatype CategoryRecord = CategoryRecord(id: Cell<int>, title: Cell<string>)

  /** A row of sheet `city`. */
  datatype CityRecord = CityRecord(id: Cell<int>, name: Cell<string>)

  /** A row of sheet `neighborhood`. */
  datatype NeighborhoodRecord = NeighborhoodRecord(id: Cell<int>, name: Cell<string>, cityId: Cell<int>)

  /** A row of sheet `store`; a nullable cell read as SQL NULL is `Has(None)`. */
  datatype StoreRecord = StoreRecord(
    id: Cell<int>,
    name: Cell<string>,
    address: Cell<string>,
    vote: Cell<Float>,
    latitude: Cell<Option<Float>>,
    longitude: Cell<Option<Float>>,
    fullVote: Cell<Option<bool>>,
    comment: Cell<Option<string>>,
    criminalCategoryId: Cell<int>,
    neighborhoodId: Cell<int>)

  /** The four sheets, in file order. */
  datatype Workbook = Workbook(
    categories: seq<CategoryRecord>,
    cities: seq<CityRecord>,
    neighborhoods: seq<NeighborhoodRecord>,
    stores: seq<StoreRecord>)

  /** The spreadsheet at `FILE_PATH`: absent, present but not loadable as the four sheets
      (`pd.ExcelFile`/`pd.read_excel` raise), or loaded. */
  datatype Artifact = NotFound | Unreadable | Loaded(book: Workbook)

  // ---------------------------------------------------------------------------------------
  // Reading cells. A run reads every column of every row it visits.

  predicate CategoryReadable(r: CategoryRecord) { r.id.Has? && r.title.Has? }
  predicate CityReadable(r: CityRecord) { r.id.Has? && r.name.Has? }
  predicate NeighborhoodReadable(r: NeighborhoodRecord) { r.id.Has? && r.name.Has? && r.cityId.Has? }
  predicate StoreReadable(r: StoreRecord) {
    && r.id.Has? && r.name.Has? && r.address.Has? && r.vote.Has? && r.latitude.Has?
    && r.longitude.Has? && r.fullVote.Has? && r.comment.Has? && r.criminalCategoryId.Has?
    && r.neighborhoodId.Has?
  }

  predicate CategoriesReadable(rs: seq<CategoryRecord>) { forall i :: 0 <= i < |rs| ==> CategoryReadable(rs[i]) }
  predicate CitiesReadable(rs: seq<CityRecord>) { forall i :: 0 <= i < |rs| ==> CityReadable(rs[i]) }
  predicate NeighborhoodsReadable(rs: seq<NeighborhoodRecord>) { forall i :: 0 <= i < |rs| ==> NeighborhoodReadable(rs[i]) }
  predicate StoresReadable(rs: seq<StoreRecord>) { forall i :: 0 <= i < |rs| ==> StoreReadable(rs[i]) }

  /** No row of any sheet lacks a column the run reads. */
  predicate WorkbookReadable(b: Workbook) {
    && CategoriesReadable(b.categories)
    && CitiesReadable(b.cities)
    && NeighborhoodsReadable(b.neighborhoods)
    && StoresReadable(b.stores)
  }

  // ---------------------------------------------------------------------------------------
  // The three append-only families: the row a record would be inserted as, and its natural key
  // beside the primary key.

  function NewCategory(r: CategoryRecord, now: Timestamp): CriminalCategory
    requires CategoryReadable(r)
  {
    CriminalCategory(r.id.value, r.title.value, now)
  }

  function NewCity(r: CityRecord, now: Timestamp): City
    requires CityReadable(r)
  {
    City(r.id.value, r.name.value, now)
  }

  function NewNeighborhood(r: NeighborhoodRecord, now: Timestamp): Neighborhood
    requires NeighborhoodReadable(r)
  {
    Neighborhood(r.id.value, r.name.value, now, r.cityId.value)
  }

  function CategoryRows(rs: seq<CategoryRecord>, now: Timestamp): seq<CriminalCategory>
    requires CategoriesReadable(rs)
  {
    seq(|rs|, i requires 0 <= i < |rs| => NewCategory(rs[i], now))
  }

  function CityRows(rs: seq<CityRecord>, now: Timestamp): seq<City>
    requires CitiesReadable(rs)
  {
    seq(|rs|, i requires 0 <= i < |rs| => NewCity(rs[i], now))
  }

  function NeighborhoodRows(rs: seq<NeighborhoodRecord>, now: Timestamp): seq<Neighborhood>
    requires NeighborhoodsReadable(rs)
  {
    seq(|rs|, i requires 0 <= i < |rs| => NewNeighborhood(rs[i], now))
  }

  function CategoryTitle(c: CriminalCategory): string { c.title }
  function CityName(c: City): string { c.name }
  function NeighborhoodNameAndCity(n: Neighborhood): (string, int) { (n.name, n.cityId) }

  /** The existence query of src/database_updater.py:44 on (id, title). */
  predicate CategoryStored(table: map<int, CriminalCategory>, r: CategoryRecord)
    requires CategoryReadable(r)
  {
    r.id.value in table && table[r.id.value].title == r.title.value
  }

  /** The existence query of src/database_updater.py:60 on (id, name). */
  predicate CityStored(table: map<int, City>, r: CityRecord)
    requires CityReadable(r)
  {
    r.id.value in table && table[r.id.value].name == r.name.value
  }

  /** The existence query of src/database_updater.py:77 on (id, name, city_id). */
  predicate NeighborhoodStored(table: map<int, Neighborhood>, r: NeighborhoodRecord)
    requires NeighborhoodReadable(r)
  {
    r.id.value in table && table[r.id.value].name == r.name.value && table[r.id.value].cityId == r.cityId.value
  }

  /** Stage the categories not yet stored, then bulk-insert them. */
  function MergeCategories(table: map<int, CriminalCategory>, rs: seq<CategoryRecord>, now: Timestamp): Option<map<int, CriminalCategory>>
    requires CategoriesReadable(rs)
  {
    InsertAll(table, StageNew(table, CategoryRows(rs, now), CategoryId, CategoryTitle), CategoryId)
  }

  function MergeCities(table: map<int, City>, rs: seq<CityRecord>, now: Timestamp): Option<map<int, City>>
    requires CitiesReadable(rs)
  {
    InsertAll(table, StageNew(table, CityRows(rs, now), CityId, CityName), CityId)
  }

  function MergeNeighborhoods(table: map<int, Neighborhood>, rs: seq<NeighborhoodRecord>, now: Timestamp): Option<map<int, Neighborhood>>
    requires NeighborhoodsReadable(rs)
  {
    InsertAll(table, StageNew(table, NeighborhoodRows(rs, now), NeighborhoodId, NeighborhoodNameAndCity), NeighborhoodId)
  }

  // ---------------------------------------------------------------------------------------
  // Stores: update when (id, name) is stored, otherwise stage for insertion.

  /** The `filter_by(id=..., name=...).first()` lookup of src/database_updater.py:93. */
  predicate StoreMatches(table: map<int, Store>, r: StoreRecord)
    requires r.id.Has? && r.name.Has?
  {
    r.id.value in table && table[r.id.value].name == r.name.value
  }

  /** The stored row `s` after the field assignments of src/database_updater.py:95-103. */
  function UpdatedStore(s: Store, r: StoreRecord, now: Timestamp): Store
    requires StoreReadable(r)
  {
    s.(address := r.address.value, vote := r.vote.value, latitude := r.latitude.value,
       longitude := r.longitude.value, fullVote := r.fullVote.value, comment := r.comment.value,
       updatedAt := Some(now), criminalCategoryId := r.criminalCategoryId.value,
       neighborhoodId := r.neighborhoodId.value)
  }

  /** The mapping staged at src/database_updater.py:106-119. */
  function NewStore(r: StoreRecord, now: Timestamp): Store
    requires StoreReadable(r)
  {
    Store(r.id.value, r.name.value, r.address.value, r.vote.value, r.latitude.value,
          r.longitude.value, r.fullVote.value, r.comment.value, now, Some(now),
          r.criminalCategoryId.value, r.neighborhoodId.value)
  }

  function StoreRows(rs: seq<StoreRecord>, now: Timestamp): seq<Store>
    requires StoresReadable(rs)
  {
    seq(|rs|, i requires 0 <= i < |rs| => NewStore(rs[i], now))
  }

  function StoreName(s: Store): string { s.name }

  /** The working store table after the loop's in-place updates, and the stores staged for
      insertion. */
  datatype StoreMerge = StoreMerge(table: map<int, Store>, staged: seq<Store>)

  /** The store loop of src/database_updater.py:92-119 over `rs`. The lookup sees the rows the
      loop has already updated (their id and name never change). */
  function MergeStores(table: map<int, Store>, rs: seq<StoreRecord>, now: Timestamp): StoreMerge
    requires StoresReadable(rs)
    decreases |rs|
  {
    if rs == [] then StoreMerge(table, [])
    else
      var m := MergeStores(table, rs[..|rs| - 1], now);
      var r := rs[|rs| - 1];
      if StoreMatches(m.table, r) then
        StoreMerge(m.table[r.id.value := UpdatedStore(m.table[r.id.value], r, now)], m.staged)
      else
        StoreMerge(m.table, m.staged + [NewStore(r, now)])
  }

  /** The store loop followed by the bulk insert of src/database_updater.py:124-126. */
  function UpsertStores(table: map<int, Store>, rs: seq<StoreRecord>, now: Timestamp): Option<map<int, Store>>
    requires StoresReadable(rs)
  {
    var m := MergeStores(table, rs, now);
    InsertAll(m.table, m.staged, StoreId)
  }

  // ---------------------------------------------------------------------------------------
  // The run.

  /** The committed tables after `update_from_excel`, or `None` when it returns `False` (and
      commits nothing). */
  function Reconcile(t: Tables, artifact: Artifact, now: Timestamp): Option<Tables>
  {
    if !artifact.Loaded? || !WorkbookReadable(artifact.book) then None
    else
      var b := artifact.book;
      var categories :- MergeCategories(t.categories, b.categories, now);
      var cities :- MergeCities(t.cities, b.cities, now);
      var neighborhoods :- MergeNeighborhoods(t.neighborhoods, b.neighborhoods, now);
      var stores :- UpsertStores(t.stores, b.stores, now);
      Some(Tables(categories, cities, neighborhoods, stores))
  }

  // ---------------------------------------------------------------------------------------
  // When a family's bulk insert fails.

  /** Some record not yet stored reuses a stored id, or two records not yet stored share an id:
      either way the bulk insert raises an integrity error. */
  ghost predicate CategoriesCollide(table: map<int, CriminalCategory>, rs: seq<CategoryRecord>)
    requires CategoriesReadable(rs)
  {
    || (exists i :: 0 <= i < |rs| && !CategoryStored(table, rs[i]) && rs[i].id.value in table)
    || (exists i, j :: 0 <= i < j < |rs| && !CategoryStored(table, rs[i]) && !CategoryStored(table, rs[j])
          && rs[i].id.value == rs[j].id.value)
  }

  lemma MergeCategoriesFails(table: map<int, CriminalCategory>, rs: seq<CategoryRecord>, now: Timestamp)
    requires CategoriesReadable(rs)
    ensures MergeCategories(table, rs, now).None? <==> CategoriesCollide(table, rs)
  {
    var rows := CategoryRows(rs, now);
    StagedInsertFails(table, table, rows, CategoryId, CategoryTitle);
    assert forall i :: 0 <= i < |rs| ==> rows[i] == NewCategory(rs[i], now);
  }

  /** After a successful category merge: stored categories are untouched, every record that was
      not stored is stored as a fresh row, nothing else is added, and every record is stored. */
  lemma MergeCategoriesResult(table: map<int, CriminalCategory>, rs: seq<CategoryRecord>, now: Timestamp, r: map<int, CriminalCategory>)
    requires CategoriesReadable(rs)
    requires MergeCategories(table, rs, now) == Some(r)
    ensures forall k :: k in table ==> k in r && r[k] == table[k]
    ensures forall i :: 0 <= i < |rs| && !CategoryStored(table, rs[i]) ==>
      rs[i].id.value in r && r[rs[i].id.value] == NewCategory(rs[i], now)
    ensures forall k :: k in r ==> k in table || exists i :: 0 <= i < |rs| && !CategoryStored(table, rs[i]) && rs[i].id.value == k
    ensures forall i :: 0 <= i < |rs| ==> CategoryStored(r, rs[i])
  {
    var rows := CategoryRows(rs, now);
    StagedInsertKeeps(table, table, rows, CategoryId, CategoryTitle, r);
    StagedInsertOnly(table, table, rows, CategoryId, CategoryTitle, r);
    StagedInsertAllPresent(table, table, rows, CategoryId, CategoryTitle, r);
    assert forall i :: 0 <= i < |rs| ==> rows[i] == NewCategory(rs[i], now);
  }

  ghost predicate CitiesCollide(table: map<int, City>, rs: seq<CityRecord>)
    requires CitiesReadable(rs)
  {
    || (exists i :: 0 <= i < |rs| && !CityStored(table, rs[i]) && rs[i].id.value in table)
    || (exists i, j :: 0 <= i < j < |rs| && !CityStored(table, rs[i]) && !CityStored(table, rs[j])
          && rs[i].id.value == rs[j].id.value)
  }

  lemma MergeCitiesFails(table: map<int, City>, rs: seq<CityRecord>, now: Timestamp)
    requires CitiesReadable(rs)
    ensures MergeCities(table, rs, now).None? <==> CitiesCollide(table, rs)
  {
    var rows := CityRows(rs, now);
    StagedInsertFails(table, table, rows, CityId, CityName);
    assert forall i :: 0 <= i < |rs| ==> rows[i] == NewCity(rs[i], now);
  }

  lemma MergeCitiesResult(table: map<int, City>, rs: seq<CityRecord>, now: Timestamp, r: map<int, City>)
    requires CitiesReadable(rs)
    requires MergeCities(table, rs, now) == Some(r)
    ensures forall k :: k in table ==> k in r && r[k] == table[k]
    ensures forall i :: 0 <= i < |rs| && !CityStored(table, rs[i]) ==>
      rs[i].id.value in r && r[rs[i].id.value] == NewCity(rs[i], now)
    ensures forall k :: k in r ==> k in table || exists i :: 0 <= i < |rs| && !CityStored(table, rs[i]) && rs[i].id.value == k
    ensures forall i :: 0 <= i < |rs| ==> CityStored(r, rs[i])
  {
    var rows := CityRows(rs, now);
    StagedInsertKeeps(table, table, rows, CityId, CityName, r);
    StagedInsertOnly(table, table, rows, CityId, CityName, r);
    StagedInsertAllPresent(table, table, rows, CityId, CityName, r);
    assert forall i :: 0 <= i < |rs| ==> rows[i] == NewCity(rs[i], now);
  }

  ghost predicate NeighborhoodsCollide(table: map<int, Neighborhood>, rs: seq<NeighborhoodRecord>)
    requires NeighborhoodsReadable(rs)
  {
    || (exists i :: 0 <= i < |rs| && !NeighborhoodStored(table, rs[i]) && rs[i].id.value in table)
    || (exists i, j :: 0 <= i < j < |rs| && !NeighborhoodStored(table, rs[i]) && !NeighborhoodStored(table, rs[j])
          && rs[i].id.value == rs[j].id.value)
  }

  lemma MergeNeighborhoodsFails(table: map<int, Neighborhood>, rs: seq<NeighborhoodRecord>, now: Timestamp)
    requires NeighborhoodsReadable(rs)
    ensures MergeNeighborhoods(table, rs, now).None? <==> NeighborhoodsCollide(table, rs)
  {
    var rows := NeighborhoodRows(rs, now);
    StagedInsertFails(table, table, rows, NeighborhoodId, NeighborhoodNameAndCity);
    assert forall i :: 0 <= i < |rs| ==> rows[i] == NewNeighborhood(rs[i], now);
  }

  lemma MergeNeighborhoodsResult(table: map<int, Neighborhood>, rs: seq<NeighborhoodRecord>, now: Timestamp, r: map<int, Neighborhood>)
    requires NeighborhoodsReadable(rs)
    requires MergeNeighborhoods(table, rs, now) == Some(r)
    ensures forall k :: k in table ==> k in r && r[k] == table[k]
    ensures forall i :: 0 <= i < |rs| && !NeighborhoodStored(table, rs[i]) ==>
      rs[i].id.value in r && r[rs[i].id.value] == NewNeighborhood(rs[i], now)
    ensures forall k :: k in r ==> k in table || exists i :: 0 <= i < |rs| && !NeighborhoodStored(table, rs[i]) && rs[i].id.value == k
    ensures forall i :: 0 <= i < |rs| ==> NeighborhoodStored(r, rs[i])
  {
    var rows := NeighborhoodRows(rs, now);
    StagedInsertKeeps(table, table, rows, NeighborhoodId, NeighborhoodNameAndCity, r);
    StagedInsertOnly(table, table, rows, NeighborhoodId, NeighborhoodNameAndCity, r);
    StagedInsertAllPresent(table, table, rows, NeighborhoodId, NeighborhoodNameAndCity, r);
    assert forall i :: 0 <= i < |rs| ==> rows[i] == NewNeighborhood(rs[i], now);
  }

  // ---------------------------------------------------------------------------------------
  // The store loop.

  /** The last record that matches the stored store `k` by (id, name), if any. */
  function LastMatch(table: map<int, Store>, rs: seq<StoreRecord>, k: int): (j: Option<nat>)
    requires StoresReadable(rs)
    ensures j.Some? ==> j.value < |rs| && StoreMatches(table, rs[j.value]) && rs[j.value].id.value == k
    ensures j.Some? ==> forall i :: j.value < i < |rs| ==> !(StoreMatches(table, rs[i]) && rs[i].id.value == k)
    ensures j.None? ==> forall i :: 0 <= i < |rs| ==> !(StoreMatches(table, rs[i]) && rs[i].id.value == k)
    decreases |rs|
  {
    if rs == [] then None
    else
      var last := rs[|rs| - 1];
      if StoreMatches(table, last) && last.id.value == k then Some(|rs| - 1)
      else LastMatch(table, rs[..|rs| - 1], k)
  }

  /** The loop never adds or removes a key of the working table and never changes a stored
      store's id, name or creation time. */
  lemma {:induction false} MergeStoresFrame(table: map<int, Store>, rs: seq<StoreRecord>, now: Timestamp)
    requires StoresReadable(rs)
    ensures var m := MergeStores(table, rs, now);
      && m.table.Keys == table.Keys
      && forall k :: k in table ==>
           m.table[k].id == table[k].id && m.table[k].name == table[k].name && m.table[k].createdAt == table[k].createdAt
    decreases |rs|
  {
    if rs != [] {
      MergeStoresFrame(table, rs[..|rs| - 1], now);
    }
  }

  /** Each stored store ends as it was, or as the last record matching it made it. */
  lemma {:induction false} MergeStoresAt(table: map<int, Store>, rs: seq<StoreRecord>, now: Timestamp, k: int)
    requires StoresReadable(rs)
    requires k in table
    ensures k in MergeStores(table, rs, now).table
    ensures MergeStores(table, rs, now).table[k] ==
      match LastMatch(table, rs, k)
      case None => table[k]
      case Some(j) => UpdatedStore(table[k], rs[j], now)
    decreases |rs|
  {
    MergeStoresFrame(table, rs, now);
    if rs != [] {
      var init := rs[..|rs| - 1];
      MergeStoresAt(table, init, now, k);
      MergeStoresFrame(table, init, now);
    }
  }

  /** The stores staged for insertion are exactly the records not matched in the table, in
      order. */
  lemma {:induction false} MergeStoresStaged(table: map<int, Store>, rs: seq<StoreRecord>, now: Timestamp)
    requires StoresReadable(rs)
    ensures MergeStores(table, rs, now).staged == StageNew(table, StoreRows(rs, now), StoreId, StoreName)
    decreases |rs|
  {
    if rs != [] {
      var init := rs[..|rs| - 1];
      MergeStoresStaged(table, init, now);
      MergeStoresFrame(table, init, now);
      assert StoreRows(rs, now)[..|rs| - 1] == StoreRows(init, now);
    }
  }

  // ---------------------------------------------------------------------------------------
  // Stores: the loop followed by the bulk insert.

  /** A record that matches no stored store reuses a stored id, or two unmatched records share
      an id. */
  ghost predicate StoresCollide(table: map<int, Store>, rs: seq<StoreRecord>)
    requires StoresReadable(rs)
  {
    || (exists i :: 0 <= i < |rs| && !StoreMatches(table, rs[i]) && rs[i].id.value in table)
    || (exists i, j :: 0 <= i < j < |rs| && !StoreMatches(table, rs[i]) && !StoreMatches(table, rs[j])
          && rs[i].id.value == rs[j].id.value)
  }

  lemma UpsertStoresFails(table: map<int, Store>, rs: seq<StoreRecord>, now: Timestamp)
    requires StoresReadable(rs)
    ensures UpsertStores(table, rs, now).None? <==> StoresCollide(table, rs)
  {
    var m := MergeStores(table, rs, now);
    var rows := StoreRows(rs, now);
    MergeStoresFrame(table, rs, now);
    MergeStoresStaged(table, rs, now);
    StagedInsertFails(table, m.table, rows, StoreId, StoreName);
    forall i | 0 <= i < |rs|
      ensures rows[i] == NewStore(rs[i], now)
      ensures Present(table, rows[i], StoreId, StoreName) <==> StoreMatches(table, rs[i])
    {
    }
  }

  /** After a successful store merge: the keys are the stored ones plus the ids of unmatched
      records; each unmatched record is inserted as a fresh row under an id no other record
      uses; and every record now matches a stored store. */
  lemma UpsertStoresResult(table: map<int, Store>, rs: seq<StoreRecord>, now: Timestamp, r: map<int, Store>)
    requires StoresReadable(rs)
    requires UpsertStores(table, rs, now) == Some(r)
    ensures forall k :: k in r <==> k in table || exists i :: 0 <= i < |rs| && !StoreMatches(table, rs[i]) && rs[i].id.value == k
    ensures forall i :: 0 <= i < |rs| && !StoreMatches(table, rs[i]) ==>
      && rs[i].id.value !in table
      && rs[i].id.value in r && r[rs[i].id.value] == NewStore(rs[i], now)
      && forall j :: 0 <= j < |rs| && j != i ==> rs[j].id.value != rs[i].id.value
    ensures forall i :: 0 <= i < |rs| ==> StoreMatches(r, rs[i])
  {
    var m := MergeStores(table, rs, now);
    var rows := StoreRows(rs, now);
    MergeStoresFrame(table, rs, now);
    MergeStoresStaged(table, rs, now);
    UpsertStoresFails(table, rs, now);
    StagedInsertKeeps(table, m.table, rows, StoreId, StoreName, r);
    StagedInsertOnly(table, m.table, rows, StoreId, StoreName, r);
    StagedInsertAllPresent(table, m.table, rows, StoreId, StoreName, r);
    forall i | 0 <= i < |rs|
      ensures rows[i] == NewStore(rs[i], now)
      ensures Present(table, rows[i], StoreId, StoreName) <==> StoreMatches(table, rs[i])
      ensures Present(r, rows[i], StoreId, StoreName) <==> StoreMatches(r, rs[i])
    {
    }
  }

  /** A stored store after a successful merge, in terms of the last record matching it. */
  lemma UpsertStoresExisting(table: map<int, Store>, rs: seq<StoreRecord>, now: Timestamp, r: map<int, Store>, k: int)
    requires StoresReadable(rs)
    requires UpsertStores(table, rs, now) == Some(r)
    requires k in table
    ensures k in r
    ensures r[k] ==
      match LastMatch(table, rs, k)
      case None => table[k]
      case Some(j) => UpdatedStore(table[k], rs[j], now)
  {
    var m := MergeStores(table, rs, now);
    MergeStoresFrame(table, rs, now);
    MergeStoresStaged(table, rs, now);
    MergeStoresAt(table, rs, now, k);
    StagedInsertKeeps(table, m.table, StoreRows(rs, now), StoreId, StoreName, r);
  }

  /** The last record matching a stored store by (id, name) overwrites every other column of
      it and stamps `updated_at`; id, name and `created_at` stay. */
  lemma UpsertStoresUpdated(table: map<int, Store>, rs: seq<StoreRecord>, now: Timestamp, r: map<int, Store>, i: nat)
    requires StoresReadable(rs)
    requires UpsertStores(table, rs, now) == Some(r)
    requires i < |rs| && StoreMatches(table, rs[i])
    requires forall j :: i < j < |rs| && StoreMatches(table, rs[j]) ==> rs[j].id.value != rs[i].id.value
    ensures var k := rs[i].id.value; var rec := rs[i];
      && k in r
      && r[k].id == table[k].id && r[k].name == table[k].name && r[k].createdAt == table[k].createdAt
      && r[k].address == rec.address.value && r[k].vote == rec.vote.value
      && r[k].latitude == rec.latitude.value && r[k].longitude == rec.longitude.value
      && r[k].fullVote == rec.fullVote.value && r[k].comment == rec.comment.value
      && r[k].updatedAt == Some(now)
      && r[k].criminalCategoryId == rec.criminalCategoryId.value && r[k].neighborhoodId == rec.neighborhoodId.value
  {
    UpsertStoresExisting(table, rs, now, r, rs[i].id.value);
  }

  /** A stored store that no record matches is left exactly as it was. */
  lemma UpsertStoresUntouched(table: map<int, Store>, rs: seq<StoreRecord>, now: Timestamp, r: map<int, Store>, k: int)
    requires StoresReadable(rs)
    requires UpsertStores(table, rs, now) == Some(r)
    requires k in table
    requires forall i :: 0 <= i < |rs| && StoreMatches(table, rs[i]) ==> rs[i].id.value != k
    ensures k in r && r[k] == table[k]
  {
    UpsertStoresExisting(table, rs, now, r, k);
  }

  // ---------------------------------------------------------------------------------------
  // Properties of a whole run.

  /** A run returns `False` exactly when the file is missing or unreadable, a row lacks a
      column, or one of the four bulk inserts collides on a primary key. */
  lemma ReconcileFailsExactly(t: Tables, artifact: Artifact, now: Timestamp)
    ensures Reconcile(t, artifact, now).None? <==>
      || !artifact.Loaded?
      || !WorkbookReadable(artifact.book)
      || CategoriesCollide(t.categories, artifact.book.categories)
      || CitiesCollide(t.cities, artifact.book.cities)
      || NeighborhoodsCollide(t.neighborhoods, artifact.book.neighborhoods)
      || StoresCollide(t.stores, artifact.book.stores)
  {
    if artifact.Loaded? && WorkbookReadable(artifact.book) {
      var b := artifact.book;
      MergeCategoriesFails(t.categories, b.categories, now);
      MergeCitiesFails(t.cities, b.cities, now);
      MergeNeighborhoodsFails(t.neighborhoods, b.neighborhoods, now);
      UpsertStoresFails(t.stores, b.stores, now);
    }
  }

  lemma MergeCategoriesAgain(table: map<int, CriminalCategory>, rs: seq<CategoryRecord>, now: Timestamp, later: Timestamp, r: map<int, CriminalCategory>)
    requires CategoriesReadable(rs)
    requires MergeCategories(table, rs, now) == Some(r)
    ensures MergeCategories(r, rs, later) == Some(r)
  {
    MergeCategoriesResult(table, rs, now, r);
    var rows := CategoryRows(rs, later);
    assert forall i :: 0 <= i < |rs| ==> rows[i] == NewCategory(rs[i], later);
    StageNewAllPresent(r, rows, CategoryId, CategoryTitle);
  }

  lemma MergeCitiesAgain(table: map<int, City>, rs: seq<CityRecord>, now: Timestamp, later: Timestamp, r: map<int, City>)
    requires CitiesReadable(rs)
    requires MergeCities(table, rs, now) == Some(r)
    ensures MergeCities(r, rs, later) == Some(r)
  {
    MergeCitiesResult(table, rs, now, r);
    var rows := CityRows(rs, later);
    assert forall i :: 0 <= i < |rs| ==> rows[i] == NewCity(rs[i], later);
    StageNewAllPresent(r, rows, CityId, CityName);
  }

  lemma MergeNeighborhoodsAgain(table: map<int, Neighborhood>, rs: seq<NeighborhoodRecord>, now: Timestamp, later: Timestamp, r: map<int, Neighborhood>)
    requires NeighborhoodsReadable(rs)
    requires MergeNeighborhoods(table, rs, now) == Some(r)
    ensures MergeNeighborhoods(r, rs, later) == Some(r)
  {
    MergeNeighborhoodsResult(table, rs, now, r);
    var rows := NeighborhoodRows(rs, later);
    assert forall i :: 0 <= i < |rs| ==> rows[i] == NewNeighborhood(rs[i], later);
    StageNewAllPresent(r, rows, NeighborhoodId, NeighborhoodNameAndCity);
  }

  /** Which record matches store `k` depends only on the entry under `k`, and only on its name. */
  lemma {:induction false} LastMatchSameEntry(t1: map<int, Store>, t2: map<int, Store>, rs: seq<StoreRecord>, k: int)
    requires StoresReadable(rs)
    requires k in t1 <==> k in t2
    requires k in t1 ==> t1[k].name == t2[k].name
    ensures LastMatch(t1, rs, k) == LastMatch(t2, rs, k)
    decreases |rs|
  {
    if rs != [] {
      LastMatchSameEntry(t1, t2, rs[..|rs| - 1], k);
    }
  }

  /** A second store merge of the same records only restamps `updated_at`. */
  lemma UpsertStoresAgainAt(table: map<int, Store>, rs: seq<StoreRecord>, now: Timestamp, later: Timestamp, r: map<int, Store>, k: int)
    requires StoresReadable(rs)
    requires UpsertStores(table, rs, now) == Some(r)
    requires k in r
    ensures k in MergeStores(r, rs, later).table
    ensures MergeStores(r, rs, later).table[k].(updatedAt := r[k].updatedAt) == r[k]
    ensures later == now ==> MergeStores(r, rs, later).table[k] == r[k]
  {
    UpsertStoresResult(table, rs, now, r);
    MergeStoresAt(r, rs, later, k);
    if k in table {
      UpsertStoresExisting(table, rs, now, r, k);
      LastMatchSameEntry(table, r, rs, k);
    } else {
      var i :| 0 <= i < |rs| && !StoreMatches(table, rs[i]) && rs[i].id.value == k;
      assert StoreMatches(r, rs[i]);
    }
  }

  lemma UpsertStoresAgain(table: map<int, Store>, rs: seq<StoreRecord>, now: Timestamp, later: Timestamp, r: map<int, Store>)
    requires StoresReadable(rs)
    requires UpsertStores(table, rs, now) == Some(r)
    ensures UpsertStores(r, rs, later).Some?
    ensures var again := UpsertStores(r, rs, later).value;
      && again.Keys == r.Keys
      && forall k :: k in r ==> again[k].(updatedAt := r[k].updatedAt) == r[k]
    ensures later == now ==> UpsertStores(r, rs, later) == Some(r)
  {
    UpsertStoresResult(table, rs, now, r);
    var rows := StoreRows(rs, later);
    assert forall i :: 0 <= i < |rs| ==> rows[i] == NewStore(rs[i], later);
    StageNewAllPresent(r, rows, StoreId, StoreName);
    MergeStoresStaged(r, rs, later);
    MergeStoresFrame(r, rs, later);
    var m := MergeStores(r, rs, later);
    assert UpsertStores(r, rs, later) == Some(m.table);
    forall k | k in r
      ensures m.table[k].(updatedAt := r[k].updatedAt) == r[k]
      ensures later == now ==> m.table[k] == r[k]
    {
      UpsertStoresAgainAt(table, rs, now, later, r, k);
    }
    if later == now {
      assert m.table == r;
    }
  }

  /** Running the update a second time on the same file succeeds and only restamps the
      `updated_at` of the stores the file lists; at the same instant it changes nothing. */
  lemma ReconcileIdempotent(t: Tables, b: Workbook, now: Timestamp, later: Timestamp, r: Tables)
    requires Reconcile(t, Loaded(b), now) == Some(r)
    ensures Reconcile(r, Loaded(b), later).Some?
    ensures var again := Reconcile(r, Loaded(b), later).value;
      && again.categories == r.categories
      && again.cities == r.cities
      && again.neighborhoods == r.neighborhoods
      && again.stores.Keys == r.stores.Keys
      && forall k :: k in r.stores ==> again.stores[k].(updatedAt := r.stores[k].updatedAt) == r.stores[k]
    ensures later == now ==> Reconcile(r, Loaded(b), later) == Some(r)
  {
    MergeCategoriesAgain(t.categories, b.categories, now, later, r.categories);
    MergeCitiesAgain(t.cities, b.cities, now, later, r.cities);
    MergeNeighborhoodsAgain(t.neighborhoods, b.neighborhoods, now, later, r.neighborhoods);
    UpsertStoresAgain(t.stores, b.stores, now, later, r.stores);
  }

  /** A run keeps every table keyed by its rows' primary keys. */
  lemma ReconcileKeepsKeyed(t: Tables, artifact: Artifact, now: Timestamp)
    requires Keyed(t)
    requires Reconcile(t, artifact, now).Some?
    ensures Keyed(Reconcile(t, artifact, now).value)
  {
    var b := artifact.book;
    InsertAllKeyed(t.categories, StageNew(t.categories, CategoryRows(b.categories, now), CategoryId, CategoryTitle), CategoryId);
    InsertAllKeyed(t.cities, StageNew(t.cities, CityRows(b.cities, now), CityId, CityName), CityId);
    InsertAllKeyed(t.neighborhoods, StageNew(t.neighborhoods, NeighborhoodRows(b.neighborhoods, now), NeighborhoodId, NeighborhoodNameAndCity), NeighborhoodId);
    var m := MergeStores(t.stores, b.stores, now);
    MergeStoresFrame(t.stores, b.stores, now);
    InsertAllKeyed(m.table, m.staged, StoreId);
  }

  /** A store whose id is stored under another name cannot be renamed from the spreadsheet: it
      is staged as new, collides on its id, and the whole run fails. */
  lemma ReconcileRenamedStoreFails(t: Tables, b: Workbook, now: Timestamp, i: nat)
    requires WorkbookReadable(b)
    requires i < |b.stores|
    requires b.stores[i].id.value in t.stores && t.stores[b.stores[i].id.value].name != b.stores[i].name.value
    ensures Reconcile(t, Loaded(b), now) == None
  {
    ReconcileFailsExactly(t, Loaded(b), now);
  }

  /** Two spreadsheet rows for the same new store make the whole run fail. */
  lemma ReconcileDuplicateNewStoreFails(t: Tables, b: Workbook, now: Timestamp, i: nat, j: nat)
    requires WorkbookReadable(b)
    requires i < j < |b.stores|
    requires b.stores[i].id.value !in t.stores && b.stores[i].id.value == b.stores[j].id.value
    ensures Reconcile(t, Loaded(b), now) == None
  {
    ReconcileFailsExactly(t, Loaded(b), now);
  }

  /** A successful run deletes nothing: every stored key of every table is still there, and
      stored categories, cities and neighborhoods are unchanged; stored stores keep their id,
      name and `created_at`. */
  lemma ReconcileNeverDeletes(t: Tables, artifact: Artifact, now: Timestamp, r: Tables)
    requires Reconcile(t, artifact, now) == Some(r)
    ensures forall k :: k in t.categories ==> k in r.categories && r.categories[k] == t.categories[k]
    ensures forall k :: k in t.cities ==> k in r.cities && r.cities[k] == t.cities[k]
    ensures forall k :: k in t.neighborhoods ==> k in r.neighborhoods && r.neighborhoods[k] == t.neighborhoods[k]
    ensures forall k :: k in t.stores ==>
      && k in r.stores
      && r.stores[k].id == t.stores[k].id && r.stores[k].name == t.stores[k].name
      && r.stores[k].createdAt == t.stores[k].createdAt
  {
    var b := artifact.book;
    MergeCategoriesResult(t.categories, b.categories, now, r.categories);
    MergeCitiesResult(t.cities, b.cities, now, r.cities);
    MergeNeighborhoodsResult(t.neighborhoods, b.neighborhoods, now, r.neighborhoods);
    UpsertStoresResult(t.stores, b.stores, now, r.stores);
    forall k | k in t.stores
      ensures k in r.stores && r.stores[k].id == t.stores[k].id && r.stores[k].name == t.stores[k].name
        && r.stores[k].createdAt == t.stores[k].createdAt
    {
      UpsertStoresExisting(t.stores, b.stores, now, r.stores, k);
    }
  }
}
