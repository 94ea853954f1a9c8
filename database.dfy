/**
 * The listing store: one table keyed by listing id, with an upsert, a
 * retention purge and a row count. The table is a map from id to row; time is
 * an integer clock in seconds supplied by the caller; a storage failure is the
 * `fault` flag, which selects the store's safe-default branch.
 */
module Database {

  /** A normalised listing, as the parser hands it to the store. */
  datatype CarInfo = CarInfo(
    id: string,
    image: string,
    modelAndMake: string,
    link: string,
    price: string,
    company: string,
    features: map<string, string>,
    transmission: string)

  /** One row of the `car_listings` table; `features` is kept as the map itself. */
  datatype StoredRow = StoredRow(
    id: string,
    modelAndMake: string,
    price: string,
    link: string,
    image: string,
    company: string,
    transmission: string,
    features: map<string, string>,
    createdAt: int,
    updatedAt: int)

  type Table = map<string, StoredRow>

  /** Every row is stored under its own primary key. */
  predicate WellKeyed(rows: Table) {
    forall k :: k in rows ==> rows[k].id == k
  }

  /** The row `car` becomes, with the given timestamps. */
  function RowOf(car: CarInfo, createdAt: int, updatedAt: int): StoredRow {
    StoredRow(car.id, car.modelAndMake, car.price, car.link, car.image,
              car.company, car.transmission, car.features, createdAt, updatedAt)
  }

  /** The row `car` holds after an upsert at time `now`: a fresh row, or the old one with `created_at` kept. */
  function UpsertedRow(rows: Table, car: CarInfo, now: int): StoredRow {
    RowOf(car, if car.id in rows then rows[car.id].createdAt else now, now)
  }

  /**
   * The table after `insert_car(car)` at time `now` succeeds: the row for
   * `car.id` carries the supplied fields and `updated_at = now`; `created_at`
   * is `now` for a new id and kept for an existing one; every other row is
   * untouched.
   */
  function Upsert(rows: Table, car: CarInfo, now: int): (r: Table)
    ensures r.Keys == rows.Keys + {car.id}
    ensures r[car.id] == RowOf(car, if car.id in rows then rows[car.id].createdAt else now, now)
    ensures forall k :: k in rows && k != car.id ==> r[k] == rows[k]
  {
    var r := rows[car.id := UpsertedRow(rows, car, now)];
    assert r.Keys == rows.Keys + {car.id};
    r
  }

  /** The table grows by one row exactly when the upserted id was absent. */
  lemma UpsertSize(rows: Table, car: CarInfo, now: int)
    ensures |Upsert(rows, car, now)| == if car.id in rows then |rows| else |rows| + 1
  {
    StoreSize(rows, car.id, UpsertedRow(rows, car, now));
  }

  /** Storing under a key adds one entry exactly when the key was absent. */
  lemma StoreSize<K, V>(m: map<K, V>, k: K, v: V)
    ensures |m[k := v]| == if k in m then |m| else |m| + 1
  {
    if k in m {
      assert m[k := v].Keys == m.Keys;
    } else {
      assert m[k := v].Keys == m.Keys + {k};
    }
  }

  /** An upsert keeps every row under its own id. */
  lemma UpsertKeepsWellKeyed(rows: Table, car: CarInfo, now: int)
    requires WellKeyed(rows)
    ensures WellKeyed(Upsert(rows, car, now))
  {
  }

  /** The ids whose row was last updated strictly before `cutoff`. */
  function Expired(rows: Table, cutoff: int): set<string> {
    set k | k in rows && rows[k].updatedAt < cutoff
  }

  /**
   * The table after deleting every row with `updated_at < cutoff`: exactly the
   * rows stamped at or after the cutoff survive, unchanged, and the table
   * shrinks by the number of expired rows.
   */
  function Purge(rows: Table, cutoff: int): (r: Table)
    ensures forall k :: k in r <==> k in rows && cutoff <= rows[k].updatedAt
    ensures forall k :: k in r ==> r[k] == rows[k]
    ensures |rows| - |r| == |Expired(rows, cutoff)|
    ensures WellKeyed(rows) ==> WellKeyed(r)
  {
    var r := map k | k in rows && cutoff <= rows[k].updatedAt :: rows[k];
    assert rows.Keys == r.Keys + Expired(rows, cutoff);
    assert r.Keys * Expired(rows, cutoff) == {};
    r
  }

  /** The model's clock counts seconds; `timedelta(days=1)` is this many of them. */
  const SecondsPerDay: int := 86400

  /** `datetime.now() - timedelta(days=days)` on the model's clock. */
  function Cutoff(now: int, days: int): int {
    now - days * SecondsPerDay
  }

  /** Upserting one id twice: new, then not new; the row holds the second call's fields and both stamps. */
  lemma UpsertTwice(rows: Table, first: CarInfo, second: CarInfo, t1: int, t2: int)
    requires first.id == second.id && first.id !in rows
    ensures var r1 := Upsert(rows, first, t1);
      && first.id in r1
      && Upsert(r1, second, t2)[second.id] == RowOf(second, t1, t2)
      && |Upsert(r1, second, t2)| == |rows| + 1
  {
  }

  /** A row refreshed at `now` survives every purge whose cutoff is not after `now`. */
  lemma FreshRowSurvives(rows: Table, car: CarInfo, now: int, cutoff: int)
    requires cutoff <= now
    ensures car.id in Purge(Upsert(rows, car, now), cutoff)
  {
  }

  /** Purging twice at the same cutoff removes nothing more. */
  lemma PurgeIdempotent(rows: Table, cutoff: int)
    ensures Purge(Purge(rows, cutoff), cutoff) == Purge(rows, cutoff)
  {
  }

  class DatabaseManager {
    /** The `car_listings` table. */
    var rows: Table

    ghost predicate Valid()
      reads this
    {
      WellKeyed(rows)
    }

    /** Opening the store creates the table only if absent, so existing rows are kept. */
    constructor (existing: Table)
      requires WellKeyed(existing)
      ensures Valid() && rows == existing
    {
      rows := existing;
    }

    /**
     * `insert_car`: reports a new listing exactly when the id was absent and
     * the storage call succeeded; on a storage failure nothing is written and
     * the answer is false.
     */
    method InsertCar(car: CarInfo, now: int, fault: bool) returns (isNew: bool)
      requires Valid()
      modifies this
      ensures Valid()
      ensures isNew == (!fault && car.id !in old(rows))
      ensures rows == if fault then old(rows) else Upsert(old(rows), car, now)
      ensures |rows| == if isNew then |old(rows)| + 1 else |old(rows)|
    {
      if fault {
        return false;
      }
      UpsertSize(rows, car, now);
      if car.id in rows {
        rows := rows[car.id := RowOf(car, rows[car.id].createdAt, now)];
        isNew := false;
      } else {
        rows := rows[car.id := RowOf(car, now, now)];
        isNew := true;
      }
    }

    /**
     * `delete_old_cars(days)`: deletes the rows updated strictly before
     * `now - days` and returns how many went; on a storage failure nothing is
     * deleted and the answer is 0.
     */
    method DeleteOldCars(days: int, now: int, fault: bool) returns (deleted: nat)
      requires Valid()
      modifies this
      ensures Valid()
      ensures rows == if fault then old(rows) else Purge(old(rows), Cutoff(now, days))
      ensures deleted == if fault then 0 else |old(rows)| - |rows|
      ensures !fault ==> deleted == |Expired(old(rows), Cutoff(now, days))|
    {
      if fault {
        return 0;
      }
      var cutoff := Cutoff(now, days);
      deleted := |Expired(rows, cutoff)|;
      rows := Purge(rows, cutoff);
    }

    /** `get_car_count`: the number of rows, or 0 on a storage failure. */
    method GetCarCount(fault: bool) returns (count: nat)
      ensures count == if fault then 0 else |rows|
    {
      count := if fault then 0 else |rows|;
    }
  }
}
