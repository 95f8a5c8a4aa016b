/**
 * The `modules` table behind `ModuleDao`: rows keyed by `moduleNumber`.
 * The pure functions below give the effect of each DAO operation on the
 * table; the class `ModuleDao` holds the table and applies them in place.
 */
module Data {
  import opened Wrappers
  import opened Model
  import LexOrder

  type Table = map<string, ModuleRecord>

  /** The primary-key invariant: every row is stored under its own module number. */
  ghost predicate KeyedByNumber(t: Table) {
    forall k :: k in t ==> t[k].moduleNumber == k
  }

  /** `@Insert(onConflict = REPLACE)`: adds `r`, replacing any row with the same key. */
  function Upsert(t: Table, r: ModuleRecord): (t': Table)
    ensures r.moduleNumber in t' && t'[r.moduleNumber] == r
    ensures t'.Keys == t.Keys + {r.moduleNumber}
    ensures forall k :: k in t && k != r.moduleNumber ==> t'[k] == t[k]
    ensures KeyedByNumber(t) ==> KeyedByNumber(t')
  {
    t[r.moduleNumber := r]
  }

  /** `@Update`: replaces the row with `r`'s key if there is one, and otherwise changes nothing. */
  function UpdateExisting(t: Table, r: ModuleRecord): (t': Table)
    ensures t'.Keys == t.Keys
    ensures r.moduleNumber in t ==> t'[r.moduleNumber] == r
    ensures forall k :: k in t && k != r.moduleNumber ==> t'[k] == t[k]
    ensures r.moduleNumber !in t ==> t' == t
    ensures KeyedByNumber(t) ==> KeyedByNumber(t')
  {
    if r.moduleNumber in t then t[r.moduleNumber := r] else t
  }

  /** `@Delete`: removes the row with key `key`, if any, and nothing else. */
  function Remove(t: Table, key: string): (t': Table)
    ensures t'.Keys == t.Keys - {key}
    ensures forall k :: k in t' ==> t'[k] == t[k]
    ensures key !in t ==> t' == t
    ensures KeyedByNumber(t) ==> KeyedByNumber(t')
  {
    t - {key}
  }

  /** `SELECT * FROM modules WHERE moduleNumber = :moduleNumber`. */
  function Lookup(t: Table, key: string): (r: Option<ModuleRecord>)
    ensures r.Some? <==> key in t
    ensures r.Some? ==> r.value == t[key]
    ensures KeyedByNumber(t) && r.Some? ==> r.value.moduleNumber == key
  {
    if key in t then Some(t[key]) else None
  }

  /**
   * `SELECT * FROM modules ORDER BY moduleNumber ASC`: every row exactly
   * once, in strictly ascending text order of the module number.
   */
  ghost function Listing(t: Table): (rs: seq<ModuleRecord>)
    requires KeyedByNumber(t)
    ensures |rs| == |t|
    ensures forall i, j :: 0 <= i < j < |rs| ==> LexOrder.Less(rs[i].moduleNumber, rs[j].moduleNumber)
    ensures forall i :: 0 <= i < |rs| ==> rs[i].moduleNumber in t && t[rs[i].moduleNumber] == rs[i]
    ensures forall k :: k in t ==> t[k] in rs
  {
    var keys := LexOrder.SortedKeys(t.Keys);
    assert |t.Keys| == |t|;
    RowsAtCover(t, keys);
    RowsAt(t, keys)
  }

  /** The rows stored under `keys`, in the order of `keys`. */
  function RowsAt(t: Table, keys: seq<string>): (rs: seq<ModuleRecord>)
    requires forall i :: 0 <= i < |keys| ==> keys[i] in t
    ensures |rs| == |keys|
    ensures forall i :: 0 <= i < |keys| ==> rs[i] == t[keys[i]]
  {
    seq(|keys|, i requires 0 <= i < |keys| => t[keys[i]])
  }

  lemma RowsAtCover(t: Table, keys: seq<string>)
    requires forall i :: 0 <= i < |keys| ==> keys[i] in t
    requires forall k :: k in t ==> k in keys
    ensures forall k :: k in t ==> t[k] in RowsAt(t, keys)
  {
    var rs := RowsAt(t, keys);
    forall k | k in t
      ensures t[k] in rs
    {
      var i :| 0 <= i < |keys| && keys[i] == k;
      assert rs[i] == t[k];
    }
  }

  /** No two listed rows share a module number. */
  lemma ListingKeysDistinct(t: Table, i: int, j: int)
    requires KeyedByNumber(t)
    requires 0 <= i < |Listing(t)| && 0 <= j < |Listing(t)| && i != j
    ensures Listing(t)[i].moduleNumber != Listing(t)[j].moduleNumber
  {
    var rs := Listing(t);
    if i < j {
      LexOrder.LessIrreflexive(rs[i].moduleNumber);
    } else {
      LexOrder.LessIrreflexive(rs[j].moduleNumber);
    }
  }

  /**
   * The listing is fixed by the table: any strictly ascending sequence of
   * exactly the table's rows is `Listing(t)`.
   */
  lemma ListingUnique(t: Table, rs: seq<ModuleRecord>)
    requires KeyedByNumber(t)
    requires forall i, j :: 0 <= i < j < |rs| ==> LexOrder.Less(rs[i].moduleNumber, rs[j].moduleNumber)
    requires forall i :: 0 <= i < |rs| ==> rs[i].moduleNumber in t && t[rs[i].moduleNumber] == rs[i]
    requires forall k :: k in t ==> t[k] in rs
    ensures rs == Listing(t)
  {
    var keys := NumbersOf(rs);
    assert LexOrder.StrictlySorted(keys);
    forall k | k in t.Keys
      ensures k in keys
    {
      var i :| 0 <= i < |rs| && rs[i] == t[k];
      assert keys[i] == k;
    }
    LexOrder.SortedKeysUnique(keys, t.Keys);
    assert Listing(t) == RowsAt(t, keys);
    assert rs == RowsAt(t, keys);
  }

  /** The module numbers of `rs`, in order. */
  function NumbersOf(rs: seq<ModuleRecord>): (keys: seq<string>)
    ensures |keys| == |rs|
    ensures forall i :: 0 <= i < |rs| ==> keys[i] == rs[i].moduleNumber
  {
    seq(|rs|, i requires 0 <= i < |rs| => rs[i].moduleNumber)
  }

  /** The key lookup and the listing agree on every row. */
  lemma LookupAgreesWithListing(t: Table, key: string, r: ModuleRecord)
    requires KeyedByNumber(t)
    ensures Lookup(t, key) == Some(r) <==> r in Listing(t) && r.moduleNumber == key
  {
  }

  /** Inserting the same key twice keeps only the latest row (last write wins). */
  lemma UpsertLastWriteWins(t: Table, r1: ModuleRecord, r2: ModuleRecord)
    requires r1.moduleNumber == r2.moduleNumber
    ensures Upsert(Upsert(t, r1), r2) == Upsert(t, r2)
  {
  }

  /** After an insert the listing holds the new row, one more row only when its key was new. */
  lemma ListingAfterUpsert(t: Table, r: ModuleRecord)
    requires KeyedByNumber(t)
    ensures r in Listing(Upsert(t, r))
    ensures |Listing(Upsert(t, r))| == if r.moduleNumber in t then |t| else |t| + 1
  {
    var t' := Upsert(t, r);
    if r.moduleNumber in t {
      assert t'.Keys == t.Keys;
    } else {
      assert t'.Keys == t.Keys + {r.moduleNumber};
    }
  }

  /**
   * The end-to-end story: insert ("M123", "Title") without grades into an
   * empty table, then update it with grades 5.0 and 5.5.
   */
  lemma InsertThenUpdateStory()
    ensures var r0 := ModuleRecord("M123", "Title", None, None);
            var r1 := ModuleRecord("M123", "Title", Some(5.0), Some(5.5));
            var t0 := Upsert(map[], r0);
            var t1 := UpdateExisting(t0, r1);
            && KeyedByNumber(t0) && Listing(t0) == [r0] && Average(r0.zpNote, r0.lbNote) == None
            && KeyedByNumber(t1) && Listing(t1) == [r1] && Average(r1.zpNote, r1.lbNote) == Some(5.25)
  {
    var r0 := ModuleRecord("M123", "Title", None, None);
    var r1 := ModuleRecord("M123", "Title", Some(5.0), Some(5.5));
    var t0 := Upsert(map[], r0);
    var t1 := UpdateExisting(t0, r1);
    ListingUnique(t0, [r0]);
    ListingUnique(t1, [r1]);
  }

  /** The DAO over the `modules` table. */
  class ModuleDao {
    var table: Table

    ghost predicate Valid()
      reads this
    {
      KeyedByNumber(table)
    }

    /** A fresh database holds no modules. */
    constructor ()
      ensures Valid() && table == map[]
    {
      table := map[];
    }

    /** `insert`: the row of `m` is stored under its number, replacing any earlier row with that number. */
    method Insert(m: Module)
      requires Valid()
      modifies this
      ensures Valid()
      ensures table == Upsert(old(table), m.Record())
    {
      table := table[m.moduleNumber := m.Record()];
    }

    /** `update`: overwrites the row with `m`'s number if it exists; otherwise the table is unchanged. */
    method Update(m: Module)
      requires Valid()
      modifies this
      ensures Valid()
      ensures table == UpdateExisting(old(table), m.Record())
    {
      if m.moduleNumber in table {
        table := table[m.moduleNumber := m.Record()];
      }
    }

    /** `delete`: removes the row with `m`'s number, if any. */
    method Delete(m: Module)
      requires Valid()
      modifies this
      ensures Valid()
      ensures table == Remove(old(table), m.moduleNumber)
    {
      table := table - {m.moduleNumber};
    }

    /** `getAllModules()`: a snapshot of every row in ascending module-number order. */
    ghost function GetAllModules(): (rs: seq<ModuleRecord>)
      reads this
      requires Valid()
      ensures |rs| == |table|
      ensures forall i, j :: 0 <= i < j < |rs| ==> LexOrder.Less(rs[i].moduleNumber, rs[j].moduleNumber)
      ensures forall i :: 0 <= i < |rs| ==> rs[i] in table.Values
      ensures forall r :: r in table.Values ==> r in rs
    {
      Listing(table)
    }

    /** `getModuleByNumber(number)`: the row stored under `number`, or `None`. */
    function GetModuleByNumber(number: string): (r: Option<ModuleRecord>)
      reads this
      ensures r.Some? <==> number in table
      ensures r.Some? ==> r.value == table[number]
      ensures Valid() && r.Some? ==> r.value.moduleNumber == number
    {
      Lookup(table, number)
    }
  }

  /** Inserting the same number twice with different titles leaves one row with the latest title. */
  method UpsertTwiceScenario() returns (found: Option<ModuleRecord>, count: nat)
    ensures found == Some(ModuleRecord("M335", "Mobile Apps erstellen", None, None))
    ensures count == 1
  {
    var dao := new ModuleDao();
    var m := new Module("M335", "Mobile Apps");
    dao.Insert(m);
    m.SetModuleTitle("Mobile Apps erstellen");
    dao.Insert(m);
    found := dao.GetModuleByNumber("M335");
    count := |dao.table|;
  }
}
