/** The secondary index as its cursor sees it: a sequence of (index key, primary
    id) entries in key order. getSearchKey is "the first entry whose key equals
    the probe", getSearchKeyRange "the first entry whose key is at least the
    probe", getNext "the next position", and count() the number of entries that
    share the current key. */
module Cursor {
  import opened Wrappers
  import opened IndexKeys

  datatype IndexEntry = IndexEntry(key: IndexKey, id: nat)

  /** The B-tree keeps its entries in key order. */
  ghost predicate Sorted(index: seq<IndexEntry>) {
    forall i, j :: 0 <= i < j < |index| ==> KeyLe(index[i].key, index[j].key)
  }

  /** getSearchKey: position of the first entry whose key is `probe`. */
  function SearchKey(index: seq<IndexEntry>, probe: IndexKey): (r: Option<nat>)
    ensures r.Some? ==> r.value < |index| && index[r.value].key == probe
    ensures r.Some? ==> forall q :: 0 <= q < r.value ==> index[q].key != probe
    ensures r.None? ==> forall q :: 0 <= q < |index| ==> index[q].key != probe
  {
    if index == [] then None
    else if index[0].key == probe then Some(0)
    else match SearchKey(index[1..], probe)
      case Some(p) => Some(p + 1)
      case None => None
  }

  /** getSearchKeyRange: position of the first entry whose key is at least `probe`. */
  function SearchKeyRange(index: seq<IndexEntry>, probe: IndexKey): (r: Option<nat>)
    ensures r.Some? ==> r.value < |index| && KeyLe(probe, index[r.value].key)
    ensures r.Some? ==> forall q :: 0 <= q < r.value ==> !KeyLe(probe, index[q].key)
    ensures r.None? ==> forall q :: 0 <= q < |index| ==> !KeyLe(probe, index[q].key)
  {
    if index == [] then None
    else if KeyLe(probe, index[0].key) then Some(0)
    else match SearchKeyRange(index[1..], probe)
      case Some(p) => Some(p + 1)
      case None => None
  }

  /** count() at a key: how many entries carry exactly that key. */
  function DupCount(index: seq<IndexEntry>, probe: IndexKey): (n: nat)
    ensures n <= |index|
    ensures n == 0 <==> forall q :: 0 <= q < |index| ==> index[q].key != probe
  {
    if index == [] then 0
    else (if index[0].key == probe then 1 else 0) + DupCount(index[1..], probe)
  }

  /** In a sorted index the entries that carry one key form one contiguous run. */
  lemma SortedRunIsContiguous(index: seq<IndexEntry>, p: nat, j: nat, q: nat)
    requires Sorted(index)
    requires p <= j <= q < |index| && index[p].key == index[q].key
    ensures index[j].key == index[p].key
  {
    if p < j < q {
      KeyLeTransitive(index[j].key, index[q].key, index[p].key);
      KeyLeAntisymmetric(index[p].key, index[j].key);
    }
  }

  /** Where the B-tree puts a new entry: after every entry with a key not
      above it, before the first greater one. */
  function InsertSorted(index: seq<IndexEntry>, e: IndexEntry): (r: seq<IndexEntry>)
    ensures |r| == |index| + 1
  {
    if index == [] || KeyLess(e.key, index[0].key) then [e] + index
    else [index[0]] + InsertSorted(index[1..], e)
  }

  /** Inserting gains exactly the new entry. */
  lemma {:induction false} InsertSortedAddsEntry(index: seq<IndexEntry>, e: IndexEntry)
    ensures multiset(InsertSorted(index, e)) == multiset(index) + multiset{e}
  {
    if !(index == [] || KeyLess(e.key, index[0].key)) {
      InsertSortedAddsEntry(index[1..], e);
      assert index == [index[0]] + index[1..];
    }
  }

  /** The tail of a sorted index is sorted. */
  lemma TailSorted(index: seq<IndexEntry>)
    requires Sorted(index) && index != []
    ensures Sorted(index[1..])
  {
    forall i, j | 0 <= i < j < |index| - 1 ensures KeyLe(index[1..][i].key, index[1..][j].key) {
      assert index[1..][i] == index[i + 1] && index[1..][j] == index[j + 1];
    }
  }

  /** Inserting into a sorted index keeps it sorted. */
  lemma {:induction false} InsertSortedKeepsOrder(index: seq<IndexEntry>, e: IndexEntry)
    requires Sorted(index)
    ensures Sorted(InsertSorted(index, e))
  {
    var r := InsertSorted(index, e);
    if index == [] || KeyLess(e.key, index[0].key) {
      forall i, j | 0 <= i < j < |r| ensures KeyLe(r[i].key, r[j].key) {
        assert r[j] == index[j - 1];
        if i == 0 {
          KeyLeTransitive(e.key, index[0].key, index[j - 1].key);
        } else {
          assert r[i] == index[i - 1];
        }
      }
    } else {
      TailSorted(index);
      InsertSortedKeepsOrder(index[1..], e);
      InsertSortedAddsEntry(index[1..], e);
      var rest := InsertSorted(index[1..], e);
      assert r == [index[0]] + rest;
      KeyLeTotal(e.key, index[0].key);
      forall i, j | 0 <= i < j < |r| ensures KeyLe(r[i].key, r[j].key) {
        assert r[j] == rest[j - 1];
        if i == 0 {
          assert rest[j - 1] in multiset(rest);
          if rest[j - 1] != e {
            assert rest[j - 1] in multiset(index[1..]);
            var k :| 0 < k < |index| && index[k] == rest[j - 1];
          }
        } else {
          assert r[i] == rest[i - 1];
        }
      }
    }
  }

  /** The entries left once every entry of primary id `id` is deleted. */
  function RemoveId(index: seq<IndexEntry>, id: nat): (r: seq<IndexEntry>)
    ensures |r| <= |index|
  {
    if index == [] then []
    else if index[0].id == id then RemoveId(index[1..], id)
    else [index[0]] + RemoveId(index[1..], id)
  }

  /** Exactly the entries of other ids stay. */
  lemma {:induction false} RemoveIdMembers(index: seq<IndexEntry>, id: nat)
    ensures forall e :: e in RemoveId(index, id) <==> e in index && e.id != id
  {
    if index != [] {
      RemoveIdMembers(index[1..], id);
      assert index == [index[0]] + index[1..];
    }
  }

  /** Deleting entries keeps a sorted index sorted. */
  lemma {:induction false} RemoveIdKeepsOrder(index: seq<IndexEntry>, id: nat)
    requires Sorted(index)
    ensures Sorted(RemoveId(index, id))
  {
    if index != [] {
      TailSorted(index);
      RemoveIdKeepsOrder(index[1..], id);
      if index[0].id != id {
        RemoveIdMembers(index[1..], id);
        var rest := RemoveId(index[1..], id);
        var r := [index[0]] + rest;
        forall i, j | 0 <= i < j < |r| ensures KeyLe(r[i].key, r[j].key) {
          assert r[j] == rest[j - 1];
          if i == 0 {
            assert rest[j - 1] in index[1..];
            var k :| 0 <= k < |index| - 1 && index[1..][k] == rest[j - 1];
            assert index[k + 1] == rest[j - 1];
          } else {
            assert r[i] == rest[i - 1];
          }
        }
      }
    }
  }
}
