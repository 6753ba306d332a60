/** A table: its primary database (id to record, walked in id order by a
    cursor) and its secondary index, which the database keeps in step with the
    primary rows through the key creator of the Extraction module. */
module Tables {
  import opened Wrappers
  import opened Values
  import opened IndexKeys
  import opened Cursor
  import opened Extraction

  /** One primary row: the record stored under integer id `id`. */
  datatype PrimaryEntry = PrimaryEntry(id: nat, record: Record)

  /** The primary B-tree holds each id once, in ascending order. */
  predicate IdsIncreasing(primary: seq<PrimaryEntry>) {
    forall i, j :: 0 <= i < j < |primary| ==> primary[i].id < primary[j].id
  }

  /** db.get: the record stored under `id`, if any. */
  function Lookup(primary: seq<PrimaryEntry>, id: nat): (r: Option<Record>)
    ensures r.None? <==> forall j :: 0 <= j < |primary| ==> primary[j].id != id
    ensures r.Some? ==> exists j :: 0 <= j < |primary| && primary[j] == PrimaryEntry(id, r.value)
  {
    if primary == [] then None
    else if primary[0].id == id then Some(primary[0].record)
    else Lookup(primary[1..], id)
  }

  /** db.put: store `rec` under `id`, replacing what was there. */
  function Upsert(primary: seq<PrimaryEntry>, id: nat, rec: Record): (r: seq<PrimaryEntry>)
    ensures |primary| <= |r| <= |primary| + 1
  {
    if primary == [] || id < primary[0].id then [PrimaryEntry(id, rec)] + primary
    else if id == primary[0].id then [PrimaryEntry(id, rec)] + primary[1..]
    else [primary[0]] + Upsert(primary[1..], id, rec)
  }

  /** After db.put, `id` reads as `rec` and every other id as before. */
  lemma {:induction false} UpsertLookup(primary: seq<PrimaryEntry>, id: nat, rec: Record)
    ensures forall i :: Lookup(Upsert(primary, id, rec), i) == if i == id then Some(rec) else Lookup(primary, i)
  {
    var r := Upsert(primary, id, rec);
    if primary == [] || id < primary[0].id {
      assert r[1..] == primary;
    } else if id == primary[0].id {
      assert r[1..] == primary[1..];
    } else {
      UpsertLookup(primary[1..], id, rec);
      assert r[1..] == Upsert(primary[1..], id, rec);
    }
  }

  /** db.put adds no row but the one under `id`. */
  lemma {:induction false} UpsertMembers(primary: seq<PrimaryEntry>, id: nat, rec: Record)
    ensures forall e :: e in Upsert(primary, id, rec) ==> e.id == id || e in primary
  {
    if !(primary == [] || id <= primary[0].id) {
      UpsertMembers(primary[1..], id, rec);
    }
  }

  /** A row with an id below every id of an ordered list can go in front of it. */
  lemma ConsIncreasing(x: PrimaryEntry, rest: seq<PrimaryEntry>)
    requires IdsIncreasing(rest) && forall e :: e in rest ==> x.id < e.id
    ensures IdsIncreasing([x] + rest)
  {
    var r := [x] + rest;
    forall i, j | 0 <= i < j < |r| ensures r[i].id < r[j].id {
      assert r[j] == rest[j - 1] && rest[j - 1] in rest;
      if i > 0 {
        assert r[i] == rest[i - 1];
      }
    }
  }

  /** The tail of an ordered list is ordered, and above its head. */
  lemma TailIncreasing(primary: seq<PrimaryEntry>)
    requires IdsIncreasing(primary) && primary != []
    ensures IdsIncreasing(primary[1..]) && forall e :: e in primary[1..] ==> primary[0].id < e.id
  {
    forall e | e in primary[1..] ensures primary[0].id < e.id {
      var k :| 0 <= k < |primary| - 1 && primary[1..][k] == e;
      assert primary[k + 1] == e;
    }
  }

  /** db.put keeps the ids in order. */
  lemma {:induction false} UpsertKeepsOrder(primary: seq<PrimaryEntry>, id: nat, rec: Record)
    requires IdsIncreasing(primary)
    ensures IdsIncreasing(Upsert(primary, id, rec))
  {
    if primary == [] {
    } else if id < primary[0].id {
      ConsIncreasing(PrimaryEntry(id, rec), primary);
    } else if id == primary[0].id {
      TailIncreasing(primary);
      ConsIncreasing(PrimaryEntry(id, rec), primary[1..]);
    } else {
      TailIncreasing(primary);
      UpsertKeepsOrder(primary[1..], id, rec);
      UpsertMembers(primary[1..], id, rec);
      ConsIncreasing(primary[0], Upsert(primary[1..], id, rec));
    }
  }

  /** db.delete: remove the row stored under `id`, if any. */
  function Delete(primary: seq<PrimaryEntry>, id: nat): (r: seq<PrimaryEntry>)
    ensures |r| <= |primary|
  {
    if primary == [] then []
    else if primary[0].id == id then primary[1..]
    else [primary[0]] + Delete(primary[1..], id)
  }

  /** After db.delete, `id` reads as missing and every other id as before. */
  lemma {:induction false} DeleteLookup(primary: seq<PrimaryEntry>, id: nat)
    requires IdsIncreasing(primary)
    ensures forall i :: Lookup(Delete(primary, id), i) == if i == id then None else Lookup(primary, i)
  {
    if primary != [] {
      if primary[0].id == id {
        assert forall j :: 1 <= j < |primary| ==> primary[j].id != id;
      } else {
        DeleteLookup(primary[1..], id);
        assert Delete(primary, id)[1..] == Delete(primary[1..], id);
      }
    }
  }

  /** db.delete adds no row. */
  lemma {:induction false} DeleteMembers(primary: seq<PrimaryEntry>, id: nat)
    ensures forall e :: e in Delete(primary, id) ==> e in primary
  {
    if primary != [] && primary[0].id != id {
      DeleteMembers(primary[1..], id);
    }
  }

  /** db.delete keeps the ids in order. */
  lemma {:induction false} DeleteKeepsOrder(primary: seq<PrimaryEntry>, id: nat)
    requires IdsIncreasing(primary)
    ensures IdsIncreasing(Delete(primary, id))
  {
    if primary != [] {
      TailIncreasing(primary);
      if primary[0].id != id {
        DeleteKeepsOrder(primary[1..], id);
        DeleteMembers(primary[1..], id);
        ConsIncreasing(primary[0], Delete(primary[1..], id));
      }
    }
  }

  /** The index holds exactly the entries the key creator derives from the
      primary rows: (k, id) for every key k of the record stored under id. */
  ghost predicate IndexMatches(primary: seq<PrimaryEntry>, index: seq<IndexEntry>) {
    && (forall e :: e in index ==> Lookup(primary, e.id).Some? && e.key in SecondaryKeysAsWritten(Lookup(primary, e.id).value))
    && (forall id, k :: Lookup(primary, id).Some? && k in SecondaryKeysAsWritten(Lookup(primary, id).value) ==> IndexEntry(k, id) in index)
  }

  /** Every key in a consistent index decodes. */
  lemma IndexKeysDecode(primary: seq<PrimaryEntry>, index: seq<IndexEntry>, e: IndexEntry)
    requires IndexMatches(primary, index) && e in index
    ensures IndexKeyToProperty(e.key).Some?
  {
    KeyComesFromProperty(Lookup(primary, e.id).value, e.key);
    var prop, v :| PropertyToIndexKey(prop, v, false) == e.key;
    RoundTrip(prop, v);
  }

  /** An index entry always points at a stored row. */
  lemma IndexedRowsExist(primary: seq<PrimaryEntry>, index: seq<IndexEntry>, e: IndexEntry)
    requires IndexMatches(primary, index) && e in index
    ensures exists j :: 0 <= j < |primary| && primary[j].id == e.id
  {
    assert Lookup(primary, e.id).Some?;
  }

  /** What a query returns per surviving id: the id itself (select('_id')), a
      Storable wrapper for the record (select() with no or an empty argument),
      or one property of the record (select(name)). */
  datatype Row = IdRow(id: nat) | EntityRow(typeName: string, id: nat) | ValueRow(value: Value)

  datatype Projection = Ids | Whole | Field(name: string)

  /** The select argument: '_id' asks for ids; a missing or empty (falsy)
      argument for whole records; any other string for that property. */
  function ProjectionOf(property: Option<string>): (p: Projection)
    ensures p == Ids <==> property == Some("_id")
    ensures p == Whole <==> property == None || property == Some("")
  {
    match property
    case None => Whole
    case Some(name) => if name == "_id" then Ids else if name == "" then Whole else Field(name)
  }

  /** The row for one id: the wrapper's property of a record that is gone
      reads as undefined. */
  function RowFor(typeName: string, primary: seq<PrimaryEntry>, p: Projection, id: nat): Row {
    match p
    case Ids => IdRow(id)
    case Whole => EntityRow(typeName, id)
    case Field(name) =>
      match Lookup(primary, id)
      case None => ValueRow(Undefined)
      case Some(rec) => ValueRow(WrapperGet(rec, name))
  }

  /** A table of one type. */
  class Table {
    const typeName: string
    var primary: seq<PrimaryEntry>
    var index: seq<IndexEntry>

    ghost predicate Valid()
      reads this
    {
      && IdsIncreasing(primary) && Sorted(index) && IndexMatches(primary, index)
      && (index != [] ==> primary != [])
    }

    /** A table opened on empty databases. */
    constructor (typeName: string)
      ensures Valid() && this.typeName == typeName && primary == [] && index == []
    {
      this.typeName := typeName;
      primary := [];
      index := [];
    }

    /** load: the record stored under `id`, or nothing. */
    method Load(id: nat) returns (r: Option<Record>)
      ensures r.Some? <==> exists j :: 0 <= j < |primary| && primary[j].id == id
      ensures r.Some? ==> exists j :: 0 <= j < |primary| && primary[j] == PrimaryEntry(id, r.value)
    {
      r := Lookup(primary, id);
    }

    /** retrieve: a Storable wrapper for the row under `id`, or null when
        there is none. */
    method Retrieve(id: nat) returns (r: Option<Row>)
      ensures r.Some? <==> Lookup(primary, id).Some?
      ensures r.Some? ==> r.value == EntityRow(typeName, id)
    {
      var rec := Load(id);
      if rec.Some? {
        r := Some(EntityRow(typeName, id));
      } else {
        r := None;
      }
    }

    /** store: put the record under its id; the database then replaces the
        record's index entries with the keys the key creator derives from it. */
    method Store(id: nat, rec: Record)
      requires Valid()
      modifies this
      ensures Valid()
      ensures primary == Upsert(old(primary), id, rec)
      ensures forall e :: e in index <==> (e in old(index) && e.id != id) || (e.id == id && e.key in SecondaryKeysAsWritten(rec))
    {
      var keys := CreateSecondaryKeys(rec);
      var newIndex := ReplaceEntries(index, id, keys);
      UpsertLookup(primary, id, rec);
      UpsertKeepsOrder(primary, id, rec);
      ghost var before := primary;
      primary := Upsert(primary, id, rec);
      index := newIndex;
      assert IndexMatches(primary, index) by {
        forall i, k | Lookup(primary, i).Some? && k in SecondaryKeysAsWritten(Lookup(primary, i).value)
          ensures IndexEntry(k, i) in index
        {
          if i != id {
            assert Lookup(before, i) == Lookup(primary, i);
          }
        }
      }
    }

    /** The secondary database's side of a put: drop the id's old entries and
        insert one entry per new key, each at its place in key order. */
    static method ReplaceEntries(index: seq<IndexEntry>, id: nat, keys: set<IndexKey>) returns (newIndex: seq<IndexEntry>)
      requires Sorted(index)
      ensures Sorted(newIndex)
      ensures forall e :: e in newIndex <==> (e in index && e.id != id) || (e.id == id && e.key in keys)
    {
      newIndex := RemoveId(index, id);
      RemoveIdMembers(index, id);
      RemoveIdKeepsOrder(index, id);
      var remaining := keys;
      while remaining != {}
        invariant remaining <= keys
        invariant Sorted(newIndex)
        invariant forall e :: e in newIndex <==> (e in index && e.id != id) || (e.id == id && e.key in keys - remaining)
        decreases remaining
      {
        var k :| k in remaining;
        InsertSortedKeepsOrder(newIndex, IndexEntry(k, id));
        InsertSortedAddsEntry(newIndex, IndexEntry(k, id));
        newIndex := InsertSorted(newIndex, IndexEntry(k, id));
        assert forall e :: e in newIndex <==> e in multiset(newIndex);
        remaining := remaining - {k};
      }
    }

    /** remove: delete the row under `id`; the database deletes its index entries. */
    method Remove(id: nat)
      requires Valid()
      modifies this
      ensures Valid()
      ensures primary == Delete(old(primary), id)
      ensures forall e :: e in index <==> e in old(index) && e.id != id
    {
      DeleteLookup(primary, id);
      DeleteKeepsOrder(primary, id);
      RemoveIdMembers(index, id);
      RemoveIdKeepsOrder(index, id);
      primary := Delete(primary, id);
      index := RemoveId(index, id);
      if index != [] {
        IndexedRowsExist(primary, index, index[0]);
      }
      assert IndexMatches(primary, index) by {
        forall i, k | Lookup(primary, i).Some? && k in SecondaryKeysAsWritten(Lookup(primary, i).value)
          ensures IndexEntry(k, i) in index
        {
          assert Lookup(old(primary), i) == Lookup(primary, i);
        }
      }
    }

    /** retrieveAll: walk the primary cursor from the first row, one Storable
        wrapper per row, in id order. */
    method RetrieveAll() returns (rows: seq<Row>)
      requires Valid()
      ensures |rows| == |primary|
      ensures forall j :: 0 <= j < |rows| ==> rows[j] == EntityRow(typeName, primary[j].id)
      ensures forall i, j :: 0 <= i < j < |rows| ==> rows[i].id < rows[j].id
    {
      rows := [];
      var pos := 0;
      while pos < |primary|
        invariant pos <= |primary| && |rows| == pos
        invariant forall j :: 0 <= j < pos ==> rows[j] == EntityRow(typeName, primary[j].id)
      {
        rows := rows + [EntityRow(typeName, primary[pos].id)];
        pos := pos + 1;
      }
    }
  }
}
