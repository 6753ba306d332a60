/** The query builder of a table. A base query selects every row; equals,
    greater, greaterEquals, less and lessEquals each wrap the query they are
    called on in an operator query that adds one filter. An operator query's
    select asks its parent, recursively, for a fresh QueryImpl, adds its own
    filter to it and runs that. No query object ever changes once built. */
module Queries {
  import opened Wrappers
  import opened Values
  import opened Filters
  import opened Tables
  import opened Planner

  /** A query object: the base query, or an operator query holding its parent
      query and the filter it adds. */
  datatype Query = Base | Where(parent: Query, op: Operator, name: string, value: Value)

  /** The filters on the chain from the base query to `q`, the base end first. */
  function Chain(q: Query): seq<FilterSpec> {
    match q
    case Base => []
    case Where(parent, op, name, value) => Chain(parent) + [FilterSpec(name, op, value)]
  }

  /** `d` is `q` or was built from `q` by further builder calls. */
  predicate BuiltFrom(d: Query, q: Query) {
    d == q || (d.Where? && BuiltFrom(d.parent, q))
  }

  /** Building on a query leaves the query itself as it was: the filters of a
      derived query start with exactly the filters of every query it was built
      from, and add one per builder call. */
  lemma {:induction false} BuiltFromExtendsChain(d: Query, q: Query)
    requires BuiltFrom(d, q)
    ensures |Chain(q)| <= |Chain(d)| && Chain(d)[..|Chain(q)|] == Chain(q)
  {
    if d != q {
      BuiltFromExtendsChain(d.parent, q);
      assert Chain(d) == Chain(d.parent) + [FilterSpec(d.name, d.op, d.value)];
      assert Chain(d)[..|Chain(d.parent)|] == Chain(d.parent);
    }
  }

  function Equals(q: Query, name: string, value: Value): (r: Query)
    ensures BuiltFrom(r, q) && Chain(r) == Chain(q) + [FilterSpec(name, Equal, value)]
  {
    Where(q, Equal, name, value)
  }

  function Greater(q: Query, name: string, value: Value): (r: Query)
    ensures BuiltFrom(r, q) && Chain(r) == Chain(q) + [FilterSpec(name, GreaterThan, value)]
  {
    Where(q, GreaterThan, name, value)
  }

  function GreaterEquals(q: Query, name: string, value: Value): (r: Query)
    ensures BuiltFrom(r, q) && Chain(r) == Chain(q) + [FilterSpec(name, GreaterThanOrEqual, value)]
  {
    Where(q, GreaterThanOrEqual, name, value)
  }

  function Less(q: Query, name: string, value: Value): (r: Query)
    ensures BuiltFrom(r, q) && Chain(r) == Chain(q) + [FilterSpec(name, LessThan, value)]
  {
    Where(q, LessThan, name, value)
  }

  function LessEquals(q: Query, name: string, value: Value): (r: Query)
    ensures BuiltFrom(r, q) && Chain(r) == Chain(q) + [FilterSpec(name, LessThanOrEqual, value)]
  {
    Where(q, LessThanOrEqual, name, value)
  }

  /** getQuery: the base query makes a new QueryImpl; an operator query takes
      its parent's and adds its own filter to it. */
  method GetQuery(q: Query, table: Table) returns (impl: QueryImpl)
    ensures fresh(impl) && impl.table == table
    ensures Specs(impl.filters) == Chain(q)
    ensures forall i :: 0 <= i < |impl.filters| ==> fresh(impl.filters[i]) && impl.filters[i].weight.None?
    decreases q
  {
    match q
    case Base =>
      impl := new QueryImpl(table);
    case Where(parent, op, name, value) =>
      impl := GetQuery(parent, table);
      ghost var before := impl.filters;
      impl.AddFilter(name, op, value);
      assert impl.filters == before + [impl.filters[|before|]];
      SpecsConcat(before, [impl.filters[|before|]]);
  }

  /** The ids of the primary rows, in the order the primary cursor visits them. */
  function PrimaryIds(primary: seq<PrimaryEntry>): (ids: seq<nat>)
    ensures |ids| == |primary| && forall j :: 0 <= j < |primary| ==> ids[j] == primary[j].id
  {
    if primary == [] then [] else [primary[0].id] + PrimaryIds(primary[1..])
  }

  /** The row at cursor position `j` is what a lookup of its id finds. */
  lemma LookupAt(primary: seq<PrimaryEntry>, j: nat)
    requires IdsIncreasing(primary) && j < |primary|
    ensures Lookup(primary, primary[j].id) == Some(primary[j].record)
  {
    var k :| 0 <= k < |primary| && primary[k] == PrimaryEntry(primary[j].id, Lookup(primary, primary[j].id).value);
    assert k == j;
  }

  /** select on the base query: walk the primary cursor from the first row and
      emit the id, the wrapper, or one property of each record. */
  method BaseSelect(table: Table, property: Option<string>) returns (rows: seq<Row>)
    requires table.Valid()
    ensures rows == Rows(table.typeName, table.primary, ProjectionOf(property), PrimaryIds(table.primary))
  {
    var primary := table.primary;
    var p := ProjectionOf(property);
    rows := [];
    var pos := 0;
    while pos < |primary|
      invariant pos <= |primary| && |rows| == pos
      invariant forall j :: 0 <= j < pos ==> rows[j] == RowFor(table.typeName, primary, p, primary[j].id)
    {
      var e := primary[pos];
      var row;
      if p == Ids {
        row := IdRow(e.id);
      } else if p == Whole {
        row := EntityRow(table.typeName, e.id);
      } else {
        row := ValueRow(WrapperGet(e.record, p.name));
      }
      LookupAt(primary, pos);
      assert row == RowFor(table.typeName, primary, p, e.id);
      rows := rows + [row];
      pos := pos + 1;
    }
  }

  /** Two sequences of ids, each strictly increasing, holding the same ids,
      are the same sequence. */
  lemma {:induction false} IncreasingIsUnique(a: seq<nat>, b: seq<nat>)
    requires forall i, j :: 0 <= i < j < |a| ==> a[i] < a[j]
    requires forall i, j :: 0 <= i < j < |b| ==> b[i] < b[j]
    requires forall x :: x in a <==> x in b
    ensures a == b
    decreases |a|
  {
    if a == [] || b == [] {
      if a != [] {
        HeadIsMember(a);
        assert false;
      } else if b != [] {
        HeadIsMember(b);
        assert false;
      }
    } else {
      assert a[0] in b && b[0] in a;
      assert a[0] == b[0];
      forall x
        ensures x in a[1..] <==> x in b[1..]
      {
        if x in a[1..] {
          var i :| 1 <= i < |a| && a[i] == x;
          assert x in b && x != b[0];
        }
        if x in b[1..] {
          var i :| 1 <= i < |b| && b[i] == x;
          assert x in a && x != a[0];
        }
      }
      IncreasingIsUnique(a[1..], b[1..]);
      assert a == [a[0]] + a[1..] && b == [b[0]] + b[1..];
    }
  }

  lemma HeadIsMember(s: seq<nat>)
    requires s != []
    ensures s[0] in s
  {
  }

  /** The primary cursor visits the ids in ascending order, the order in
      which the model lists what an operator query's select keeps. */
  lemma CursorOrderIsAscending(primary: seq<PrimaryEntry>)
    requires IdsIncreasing(primary)
    ensures PrimaryIds(primary) == Ascending(set e | e in primary :: e.id)
  {
    var ids := PrimaryIds(primary);
    var all := set e | e in primary :: e.id;
    forall x
      ensures x in ids <==> x in Ascending(all)
    {
      if x in ids {
        var j :| 0 <= j < |ids| && ids[j] == x;
        assert primary[j] in primary;
      }
    }
    IncreasingIsUnique(ids, Ascending(all));
  }

  /** select on any query: the base query lists every row in cursor order; an
      operator query builds a fresh QueryImpl holding exactly the filters of
      its chain and runs its select, which orders those filters by weight
      (in an order among equal weights that the sort leaves open). */
  method Select(q: Query, table: Table, property: Option<string>) returns (rows: seq<Row>)
    requires table.Valid()
    ensures q == Base ==>
              rows == Rows(table.typeName, table.primary, ProjectionOf(property), PrimaryIds(table.primary))
    ensures q != Base ==>
              exists order ::
                && multiset(order) == multiset(Chain(q))
                && SortedByWeight(order, table.index, |table.primary|)
                && rows == Rows(table.typeName, table.primary, ProjectionOf(property),
                                Ascending(Execute(PlansFor(table.primary, table.index, order), |table.primary|)))
  {
    if q == Base {
      rows := BaseSelect(table, property);
    } else {
      var impl := GetQuery(q, table);
      ghost var before := impl.filters;
      rows := impl.Select(property);
      assert multiset(Specs(impl.filters)) == multiset(Specs(before)) == multiset(Chain(q));
    }
  }
}
