/** The store: a registry of tables by type name, each opened the first time
    its type is used, and the store-level operations, each of which routes to
    the table of one type. */
module Stores {
  import opened Wrappers
  import opened Values
  import opened Cursor
  import opened Extraction
  import opened Tables
  import opened Queries

  /** The part of `s` before its first `c`, or all of `s` when it has none. */
  function Before(s: string, c: char): (r: string)
    ensures |r| <= |s| && r == s[..|r|] && c !in r
    ensures |r| < |s| ==> s[|r|] == c
  {
    if s == [] || s[0] == c then [] else [s[0]] + Before(s[1..], c)
  }

  /** The part of `s` after its first `c`; nothing when `s` has no `c`. */
  function After(s: string, c: char): (r: Option<string>)
    ensures r.None? <==> c !in s
    ensures r.Some? ==> s == Before(s, c) + [c] + r.value
  {
    if s == [] then None
    else if s[0] == c then Some(s[1..])
    else After(s[1..], c)
  }

  /** `var [type, id] = ref.split(":")`: the type is the text before the
      first colon; the id is the text between the first and the second colon,
      and undefined when there is no colon at all. */
  function SplitRef(ref: string): (string, Option<string>) {
    (Before(ref, ':'), match After(ref, ':') case None => None case Some(rest) => Some(Before(rest, ':')))
  }

  /** When `s` has no `c` before position `k`, and a `c` or its end at `k`,
      the text before its first `c` is its first `k` characters. */
  lemma {:induction false} BeforeAt(s: string, c: char, k: nat)
    requires k <= |s| && c !in s[..k] && (k < |s| ==> s[k] == c)
    ensures Before(s, c) == s[..k]
  {
    if k > 0 {
      assert s[0] == s[..k][0];
      assert s[1..][..k - 1] == s[..k][1..];
      BeforeAt(s[1..], c, k - 1);
      assert s[..k] == [s[0]] + s[1..][..k - 1];
    }
  }

  /** Splitting a reference written as type, colon, id gives back the type
      and the id, as long as neither holds a colon. */
  lemma SplitRefJoin(typeName: string, id: string)
    requires ':' !in typeName && ':' !in id
    ensures SplitRef(typeName + ":" + id) == (typeName, Some(id))
  {
    var ref := typeName + ":" + id;
    assert ref[..|typeName|] == typeName;
    BeforeAt(ref, ':', |typeName|);
    assert ref[|typeName|] in ref;
    var rest := After(ref, ':').value;
    assert ref == typeName + [':'] + rest;
    assert rest == ref[|typeName| + 1..] == id;
    assert id[..|id|] == id;
    BeforeAt(id, ':', |id|);
  }

  /** A reference without a colon names its whole text as the type and has
      no id. */
  lemma SplitRefWithoutColon(ref: string)
    requires ':' !in ref
    ensures SplitRef(ref) == (ref, None)
  {
    assert ref[..|ref|] == ref;
    BeforeAt(ref, ':', |ref|);
  }

  class Store {
    var tables: map<string, Table>

    /** Every registered table is consistent and is registered under its own
        type name. */
    ghost predicate Valid()
      reads this, tables.Values
    {
      forall t :: t in tables ==> tables[t].typeName == t && tables[t].Valid()
    }

    constructor ()
      ensures Valid() && tables == map[]
    {
      tables := map[];
    }

    /** getTable: the table registered for the type, or a new empty one, which
        is registered under the type from then on. */
    method GetTable(typeName: string) returns (t: Table)
      requires Valid()
      modifies this
      ensures Valid() && typeName in tables && t == tables[typeName]
      ensures typeName in old(tables) ==> tables == old(tables)
      ensures typeName !in old(tables) ==>
                fresh(t) && t.primary == [] && t.index == [] && tables == old(tables)[typeName := t]
    {
      if typeName in tables {
        t := tables[typeName];
      } else {
        t := new Table(typeName);
        tables := tables[typeName := t];
      }
    }

    /** The rows of a type: those of its table, or none before it is opened. */
    ghost function RowsOf(typeName: string): seq<PrimaryEntry>
      reads this, tables.Values
    {
      if typeName in tables then tables[typeName].primary else []
    }

    /** load(type, id): the record stored under `id` in the type's table. */
    method Load(typeName: string, id: nat) returns (r: Option<Record>)
      requires Valid()
      modifies this
      ensures typeName in tables && (typeName in old(tables) ==> tables == old(tables))
      ensures typeName !in old(tables) ==>
                fresh(tables[typeName]) && tables[typeName].primary == [] && tables[typeName].index == []
                && tables == old(tables)[typeName := tables[typeName]]
      ensures Valid() && RowsOf(typeName) == old(RowsOf(typeName))
      ensures r == Lookup(RowsOf(typeName), id)
    {
      var t := GetTable(typeName);
      r := t.Load(id);
      if r.Some? {
        var j :| 0 <= j < |t.primary| && t.primary[j] == PrimaryEntry(id, r.value);
        LookupAt(t.primary, j);
      }
    }

    /** retrieve(type, id): a wrapper for the row under `id`, if there is one. */
    method Retrieve(typeName: string, id: nat) returns (r: Option<Row>)
      requires Valid()
      modifies this
      ensures typeName in tables && (typeName in old(tables) ==> tables == old(tables))
      ensures typeName !in old(tables) ==>
                fresh(tables[typeName]) && tables[typeName].primary == [] && tables[typeName].index == []
                && tables == old(tables)[typeName := tables[typeName]]
      ensures Valid() && RowsOf(typeName) == old(RowsOf(typeName))
      ensures r.Some? <==> Lookup(RowsOf(typeName), id).Some?
      ensures r.Some? ==> r.value == EntityRow(typeName, id)
    {
      var t := GetTable(typeName);
      r := t.Retrieve(id);
    }

    /** retrieveAll(type): one wrapper per row of the type, in id order. */
    method RetrieveAll(typeName: string) returns (rows: seq<Row>)
      requires Valid()
      modifies this
      ensures typeName in tables && (typeName in old(tables) ==> tables == old(tables))
      ensures typeName !in old(tables) ==>
                fresh(tables[typeName]) && tables[typeName].primary == [] && tables[typeName].index == []
                && tables == old(tables)[typeName := tables[typeName]]
      ensures Valid() && RowsOf(typeName) == old(RowsOf(typeName))
      ensures |rows| == |RowsOf(typeName)|
      ensures forall j :: 0 <= j < |rows| ==> rows[j] == EntityRow(typeName, RowsOf(typeName)[j].id)
    {
      var t := GetTable(typeName);
      rows := t.RetrieveAll();
    }

    /** query(type): the base query of the type's table. */
    method Query(typeName: string) returns (t: Table, q: Query)
      requires Valid()
      modifies this
      ensures typeName in tables && (typeName in old(tables) ==> tables == old(tables))
      ensures typeName !in old(tables) ==>
                fresh(tables[typeName]) && tables[typeName].primary == [] && tables[typeName].index == []
                && tables == old(tables)[typeName := tables[typeName]]
      ensures Valid() && typeName in tables && t == tables[typeName] && t.typeName == typeName
      ensures q == Base && t.primary == old(RowsOf(typeName))
    {
      t := GetTable(typeName);
      q := Base;
    }

    /** store(entity): put the record under its id in the table of its type;
        the type and the id are those of the entity's key. No other table
        changes. */
    method Put(typeName: string, id: nat, rec: Record)
      requires Valid()
      modifies this, tables.Values
      ensures Valid() && tables.Keys == old(tables).Keys + {typeName}
      ensures RowsOf(typeName) == Upsert(old(RowsOf(typeName)), id, rec)
      ensures forall e :: e in tables[typeName].index <==>
                (e in old(if typeName in tables then tables[typeName].index else []) && e.id != id)
                || (e.id == id && e.key in SecondaryKeysAsWritten(rec))
      ensures forall u :: u in old(tables) && u != typeName ==>
                tables[u] == old(tables[u]) && tables[u].primary == old(tables[u].primary)
                && tables[u].index == old(tables[u].index)
    {
      var t := GetTable(typeName);
      t.Store(id, rec);
    }

    /** remove(key): split the key's reference into type and id, and delete
        the row from the type's table. How the id text becomes the integer
        the primary database is keyed by is left to `toInt`. */
    method Remove(ref: string, toInt: Option<string> -> int)
      requires Valid()
      modifies this, tables.Values
      ensures Valid() && tables.Keys == old(tables).Keys + {SplitRef(ref).0}
      ensures var (typeName, idText) := SplitRef(ref);
              RowsOf(typeName) == if toInt(idText) < 0 then old(RowsOf(typeName))
                                    else Delete(old(RowsOf(typeName)), toInt(idText))
      ensures forall u :: u in old(tables) && u != SplitRef(ref).0 ==>
                tables[u] == old(tables[u]) && tables[u].primary == old(tables[u].primary)
                && tables[u].index == old(tables[u].index)
    {
      var (typeName, idText) := SplitRef(ref);
      RemoveId(typeName, toInt(idText));
    }

    /** The rest of remove, once the reference is split: open the type's
        table and delete the row when the id is not negative. */
    method RemoveId(typeName: string, id: int)
      requires Valid()
      modifies this, tables.Values
      ensures Valid() && tables.Keys == old(tables).Keys + {typeName}
      ensures RowsOf(typeName) == if id < 0 then old(RowsOf(typeName)) else Delete(old(RowsOf(typeName)), id)
      ensures forall u :: u in old(tables) && u != typeName ==>
                tables[u] == old(tables[u]) && tables[u].primary == old(tables[u].primary)
                && tables[u].index == old(tables[u].index)
    {
      var t := GetTable(typeName);
      if id >= 0 {
        t.Remove(id);
      }
    }
  }
}
