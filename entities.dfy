/** The rows of the four tables the reconciler writes (src/bot_db_entities.py). Every table is
    keyed by the integer primary key `id`, which the spreadsheet assigns. */
module Entities {
  import opened Wrappers

  /** A clock reading. The clock itself is never read by the model: callers pass `now`. */
  type Timestamp = int

  /** A floating-point column (vote, latitude, longitude). The reconciler only copies these
      values from a cell into a row, so exact reals stand in for them. */
  type Float = real

  /** Table `criminal_category`; all columns NOT NULL. */
  datatype CriminalCategory = CriminalCategory(id: int, title: string, createdAt: Timestamp)

  /** Table `city`; all columns NOT NULL. */
  datatype City = City(id: int, name: string, createdAt: Timestamp)

  /** Table `neighborhood`; `cityId` refers to `city.id`. */
  datatype Neighborhood = Neighborhood(id: int, name: string, createdAt: Timestamp, cityId: int)

  /** Table `store`. `None` is SQL NULL in the nullable columns. */
  datatype Store = Store(
    id: int,
    name: string,
    address: string,
    vote: Float,
    latitude: Option<Float>,
    longitude: Option<Float>,
    fullVote: Option<bool>,
    comment: Option<string>,
    createdAt: Timestamp,
    updatedAt: Option<Timestamp>,
    criminalCategoryId: int,
    neighborhoodId: int)

  function CategoryId(c: CriminalCategory): int { c.id }
  function CityId(c: City): int { c.id }
  function NeighborhoodId(n: Neighborhood): int { n.id }
  function StoreId(s: Store): int { s.id }

  /** A table stores every row under its own primary key. */
  ghost predicate KeyedBy<T>(table: map<int, T>, key: T -> int) {
    forall k :: k in table ==> key(table[k]) == k
  }

  /** The state of the database: one table per entity. */
  datatype Tables = Tables(
    categories: map<int, CriminalCategory>,
    cities: map<int, City>,
    neighborhoods: map<int, Neighborhood>,
    stores: map<int, Store>)

  ghost predicate Keyed(t: Tables) {
    && KeyedBy(t.categories, CategoryId)
    && KeyedBy(t.cities, CityId)
    && KeyedBy(t.neighborhoods, NeighborhoodId)
    && KeyedBy(t.stores, StoreId)
  }
}
