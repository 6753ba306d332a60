/** When select finds every matching record: on a consistent table whose
    filter arguments are strings, numbers, booleans or Dates, and whose
    filtered properties are absent or hold a value the index keys under the
    argument's own kind (a short string, a number, a boolean, a stored date
    against a Date), each filter's index scan reaches exactly the records its
    checkObject admits. Then
    select returns exactly the ids whose records pass every filter, whatever
    order the filters run in and whichever of them run as scans. */
module Completeness {
  import opened Wrappers
  import opened Values
  import opened IndexKeys
  import opened Cursor
  import opened Extraction
  import opened Filters
  import opened Tables
  import opened Planner

  // ---------------------------------------------------------------------
  // The planner on plans whose scan and record check agree

  /** From position `p` on, the accepted steps carry exactly the ids of
      `admitted`, and no false verdict comes before an accepted step. */
  ghost predicate ScanFinds(steps: seq<Step>, p: nat, admitted: set<nat>) {
    && (forall id :: id in admitted <==> exists j :: p <= j < |steps| && steps[j] == Step(Accept, id))
    && (forall j, q :: p <= q < j < |steps| && steps[j].verdict == Accept ==> steps[q].verdict != Stop)
  }

  /** A filter whose scan and record check agree: a failed seek means no
      record passes the check, and otherwise the scan from where the seek
      lands reaches exactly the ids whose records pass it. */
  ghost predicate ExactPlan(plan: Plan) {
    match plan.seek
    case None => plan.admitted == {}
    case Some(p) => ScanFinds(plan.steps, p, plan.admitted)
  }

  /** Such a scan collects exactly the admitted ids (among the previous
      results, when there are any). */
  lemma WalkIsExact(steps: seq<Step>, p: nat, admitted: set<nat>, prev: Option<set<nat>>)
    requires ScanFinds(steps, p, admitted)
    ensures prev.None? ==> Walk(steps, p, prev).ids == admitted
    ensures prev.Some? ==> Walk(steps, p, prev).ids == admitted * prev.value
  {
    var found := Walk(steps, p, prev).ids;
    WalkBounds(steps, p, prev);
    forall id | id in found
      ensures id in admitted
    {
      WalkIdsAccepted(steps, p, prev, id);
    }
    forall id | id in admitted && (prev.None? || id in prev.value)
      ensures id in found
    {
      var j :| p <= j < |steps| && steps[j] == Step(Accept, id);
      WalkCollectsReachable(steps, p, j, prev);
    }
  }

  /** One pass of such a filter keeps exactly the admitted ids among those it
      is given (the first pass: exactly the admitted ids), and fails only when
      the filter admits nothing. */
  lemma PassIsExact(plan: Plan, numKeys: nat, first: bool, res: Results)
    requires ExactPlan(plan)
    ensures Pass(plan, numKeys, first, res).None? ==> plan.admitted == {}
    ensures Pass(plan, numKeys, first, res).Some? ==>
              Pass(plan, numKeys, first, res).value.ids == if first then plan.admitted else res.ids * plan.admitted
  {
    if plan.seek.Some? {
      WalkIsExact(plan.steps, plan.seek.value, plan.admitted, None);
      WalkIsExact(plan.steps, plan.seek.value, plan.admitted, Some(res.ids));
    }
  }

  /** After the first `k` filters (k >= 1) the results are exactly the ids
      every one of them admits; a failed seek happens only where a filter
      admits nothing. */
  lemma {:induction false} RunIsExact(plans: seq<Plan>, numKeys: nat, k: nat)
    requires 1 <= k <= |plans|
    requires forall q :: 0 <= q < |plans| ==> ExactPlan(plans[q])
    ensures Run(plans, numKeys, k).Some? ==>
              forall id :: id in Run(plans, numKeys, k).value.ids <==> forall q :: 0 <= q < k ==> id in plans[q].admitted
    ensures Run(plans, numKeys, k).None? ==> exists q :: 0 <= q < k && plans[q].admitted == {}
  {
    if k > 1 {
      RunIsExact(plans, numKeys, k - 1);
    }
    match Run(plans, numKeys, k - 1)
    case None =>
    case Some(res) =>
      PassIsExact(plans[k - 1], numKeys, k == 1, res);
      if Run(plans, numKeys, k).None? {
        assert plans[k - 1].admitted == {};
      }
  }

  /** select returns exactly the ids every filter admits. */
  lemma ExecuteIsExact(plans: seq<Plan>, numKeys: nat)
    requires plans != []
    requires forall q :: 0 <= q < |plans| ==> ExactPlan(plans[q])
    ensures forall id :: id in Execute(plans, numKeys) <==> forall q :: 0 <= q < |plans| ==> id in plans[q].admitted
  {
    RunIsExact(plans, numKeys, |plans|);
  }

  // ---------------------------------------------------------------------
  // Filters whose scan and record check agree on a table

  /** Arguments the index keys by the value checkObject compares: strings,
      numbers, booleans and Dates. */
  predicate PlainArgument(v: Value) {
    v.Str? || v.Num? || v.Bool? || v.JsDate?
  }

  /** Property values the index holds as checkObject reads them, for a filter
      whose argument is `arg`: absent (undefined), or a scalar the index keys
      under the argument's own tag, that is a string short enough to be
      indexed, a number, a boolean, or a stored date against a Date. Null,
      arrays, keys, other objects and values of another kind are not. */
  predicate PlainProperty(v: Value, arg: Value) {
    v.Undefined? || (IsIndexableProperty(v) && !v.Arr? && TagOf(v) == TagOf(arg))
  }

  /** A filter with a plain argument on a table whose every record holds a
      plain value (or nothing) under the filtered property. */
  ghost predicate IndexAgrees(primary: seq<PrimaryEntry>, f: FilterSpec) {
    && PlainArgument(f.value)
    && forall id :: Lookup(primary, id).Some? ==> PlainProperty(Get(Lookup(primary, id).value, f.name), f.value)
  }

  /** Every entry of a consistent index is the key of a value that some
      property of the record it points at puts into the index. */
  lemma EntryOf(primary: seq<PrimaryEntry>, index: seq<IndexEntry>, j: nat) returns (rec: Record, prop: string, v: Value)
    requires IndexMatches(primary, index) && j < |index|
    ensures Lookup(primary, index[j].id) == Some(rec)
    ensures prop in rec && IndexedAsWritten(rec[prop], v) && index[j].key == PropertyToIndexKey(prop, v, false)
    ensures IndexKeyToProperty(index[j].key) == Some(Property(prop, IndexedScalar(v)))
  {
    assert index[j] in index;
    rec := Lookup(primary, index[j].id).value;
    KeyComesFromProperty(rec, index[j].key);
    prop, v :| prop in rec && IndexedAsWritten(rec[prop], v) && index[j].key == PropertyToIndexKey(prop, v, false);
    RoundTrip(prop, v);
  }

  /** An entry the scan accepts is the key of its record's own value for the
      filtered property: a value of the argument's kind on which checkObject
      passes. */
  lemma AcceptedEntry(primary: seq<PrimaryEntry>, index: seq<IndexEntry>, f: FilterSpec, j: nat) returns (v: Value)
    requires IndexMatches(primary, index) && IndexAgrees(primary, f) && j < |index|
    requires VerdictAt(index, f, j) == Accept
    ensures CheckObject(f, Lookup(primary, index[j].id))
    ensures index[j].key == PropertyToIndexKey(f.name, v, false)
    ensures TagOf(v) == TagOf(f.value) != TYPE_NULL
    ensures Satisfies(f.op, IndexedScalar(v), IndexedScalar(f.value))
  {
    var rec, prop;
    rec, prop, v := EntryOf(primary, index, j);
    assert prop == f.name;
    assert PlainProperty(Get(rec, f.name), f.value);
    assert v == rec[f.name];
    IndexAgreesWithComparable(f.value);
    WrapperReadsAsIndexed(rec, f.name);
    CheckObjectMeansSatisfies(f, Some(rec));
  }

  /** A record that passes checkObject has an entry the scan accepts. */
  lemma MatchHasEntry(primary: seq<PrimaryEntry>, index: seq<IndexEntry>, f: FilterSpec, id: nat) returns (j: nat)
    requires IndexMatches(primary, index) && IndexAgrees(primary, f)
    requires CheckObject(f, Lookup(primary, id))
    ensures j < |index| && index[j].id == id && VerdictAt(index, f, j) == Accept
  {
    var rec := Lookup(primary, id).value;
    var v := Get(rec, f.name);
    CheckObjectMeansSatisfies(f, Some(rec));
    IndexAgreesWithComparable(f.value);
    WrapperReadsAsIndexed(rec, f.name);
    assert f.name in rec && IndexedAsWritten(rec[f.name], v);
    PropertyKeyIsContributed(rec, f.name, v);
    var e := IndexEntry(PropertyToIndexKey(f.name, v, false), id);
    assert e in index;
    j :| 0 <= j < |index| && index[j] == e;
    RoundTrip(f.name, v);
  }

  /** The scan reaches every entry it accepts: the seek lands at or before
      it, and no entry in between stops the walk. For the range operators
      this is the key order at work: every key between the seek key and an
      accepted key belongs to the same property and kind, with a value
      between theirs. */
  lemma ScanReaches(primary: seq<PrimaryEntry>, index: seq<IndexEntry>, f: FilterSpec, j: nat)
    requires Sorted(index) && IndexMatches(primary, index) && IndexAgrees(primary, f)
    requires j < |index| && VerdictAt(index, f, j) == Accept
    ensures InitCursor(index, f).Some? && InitCursor(index, f).value <= j
    ensures forall q :: InitCursor(index, f).value <= q < j ==> VerdictAt(index, f, q) != Stop
  {
    var vj := AcceptedEntry(primary, index, f, j);
    SeekKeyBelowAccepted(f, vj);
    if f.op == Equal {
      EqualScanReaches(index, f, j);
    } else {
      RangeScanReaches(primary, index, f, vj, j);
    }
  }

  /** EQUAL: the seek lands on the first entry of the argument's key, and
      every entry up to the accepted one carries that key. */
  lemma EqualScanReaches(index: seq<IndexEntry>, f: FilterSpec, j: nat)
    requires Sorted(index) && PlainArgument(f.value) && f.op == Equal
    requires j < |index| && index[j].key == InitIndexKey(f)
    ensures InitCursor(index, f).Some? && InitCursor(index, f).value <= j
    ensures forall q :: InitCursor(index, f).value <= q < j ==> VerdictAt(index, f, q) != Stop
  {
    var p := SearchKey(index, InitIndexKey(f)).value;
    forall q | p <= q < j
      ensures VerdictAt(index, f, q) != Stop
    {
      SortedRunIsContiguous(index, p, q, j);
      EqualKeyAccepted(f);
    }
  }

  /** The range operators: the seek lands at or before the accepted entry,
      and every entry in between lies between the seek key and it. */
  lemma RangeScanReaches(primary: seq<PrimaryEntry>, index: seq<IndexEntry>, f: FilterSpec, vj: Value, j: nat)
    requires Sorted(index) && IndexMatches(primary, index) && PlainArgument(f.value) && f.op != Equal
    requires j < |index| && index[j].key == PropertyToIndexKey(f.name, vj, false)
    requires TagOf(vj) == TagOf(f.value) != TYPE_NULL
    requires Satisfies(f.op, IndexedScalar(vj), IndexedScalar(f.value))
    requires KeyLe(InitIndexKey(f), index[j].key)
    ensures InitCursor(index, f).Some? && InitCursor(index, f).value <= j
    ensures forall q :: InitCursor(index, f).value <= q < j ==> VerdictAt(index, f, q) != Stop
  {
    var p := SearchKeyRange(index, InitIndexKey(f)).value;
    forall q | p <= q < j
      ensures VerdictAt(index, f, q) != Stop
    {
      KeyLeTransitive(InitIndexKey(f), index[p].key, index[q].key);
      RangeEntryBetween(primary, index, f, vj, q, j);
    }
  }

  /** The key an accepted value is stored under is the seek key itself for
      EQUAL, and at or above it for the range operators. */
  lemma SeekKeyBelowAccepted(f: FilterSpec, vj: Value)
    requires PlainArgument(f.value) && TagOf(vj) == TagOf(f.value) != TYPE_NULL
    requires Satisfies(f.op, IndexedScalar(vj), IndexedScalar(f.value))
    ensures f.op == Equal ==> InitIndexKey(f) == PropertyToIndexKey(f.name, vj, false)
    ensures KeyLe(InitIndexKey(f), PropertyToIndexKey(f.name, vj, false))
  {
    KeyOrderIsValueOrder(f.name, f.value, vj);
    ComparisonTrichotomy(IndexedScalar(f.value), IndexedScalar(vj));
    BoundKeyIsPrefix(f.name, f.value, vj);
  }

  /** An EQUAL filter accepts the key of its own argument. */
  lemma EqualKeyAccepted(f: FilterSpec)
    requires PlainArgument(f.value) && f.op == Equal
    ensures IndexKeyToProperty(InitIndexKey(f)).Some?
    ensures CheckProperty(f, IndexKeyToProperty(InitIndexKey(f)).value) == Accept
  {
    RoundTrip(f.name, f.value);
    IndexAgreesWithComparable(f.value);
  }

  /** An entry whose key lies between a range filter's seek key and an entry
      the filter accepts does not stop the walk. */
  lemma RangeEntryBetween(primary: seq<PrimaryEntry>, index: seq<IndexEntry>, f: FilterSpec, vj: Value, q: nat, j: nat)
    requires Sorted(index) && IndexMatches(primary, index) && PlainArgument(f.value) && f.op != Equal
    requires q < j < |index| && index[j].key == PropertyToIndexKey(f.name, vj, false)
    requires TagOf(vj) == TagOf(f.value) != TYPE_NULL
    requires Satisfies(f.op, IndexedScalar(vj), IndexedScalar(f.value))
    requires KeyLe(InitIndexKey(f), index[q].key)
    ensures VerdictAt(index, f, q) != Stop
  {
    var omit := f.op == LessThan || f.op == LessThanOrEqual;
    var rec, prop, v := EntryOf(primary, index, q);
    KeyBetween(f.name, f.value, omit, prop, v, vj);
    IndexAgreesWithComparable(f.value);
    var c, cv, cj := IndexedScalar(f.value), IndexedScalar(v), IndexedScalar(vj);
    ComparisonTrichotomy(c, cv);
    if f.op == LessThan {
      LessOrEqualThenLess(cv, cj, c);
    } else if f.op == LessThanOrEqual {
      LessOrEqualTransitive(cv, cj, c);
    }
  }

  /** On such a table each filter's scan and record check agree. */
  lemma PlanIsExact(primary: seq<PrimaryEntry>, index: seq<IndexEntry>, f: FilterSpec)
    requires Sorted(index) && IndexMatches(primary, index) && IndexAgrees(primary, f)
    ensures ExactPlan(PlanFor(primary, index, f))
  {
    var plan := PlanFor(primary, index, f);
    var steps := Steps(index, f);
    AdmittedMeansCheckObject(primary, f);
    match plan.seek
    case None =>
      if plan.admitted != {} {
        var id :| id in plan.admitted;
        var j := MatchHasEntry(primary, index, f, id);
        ScanReaches(primary, index, f, j);
        assert false;
      }
    case Some(p) =>
      forall id
        ensures id in plan.admitted <==> exists j :: p <= j < |steps| && steps[j] == Step(Accept, id)
      {
        if id in plan.admitted {
          var j := MatchHasEntry(primary, index, f, id);
          ScanReaches(primary, index, f, j);
          StepAt(index, f, j);
        }
        if exists j :: p <= j < |steps| && steps[j] == Step(Accept, id) {
          var j :| p <= j < |steps| && steps[j] == Step(Accept, id);
          StepAt(index, f, j);
          var _ := AcceptedEntry(primary, index, f, j);
        }
      }
      forall j, q | p <= q < j < |steps| && steps[j].verdict == Accept
        ensures steps[q].verdict != Stop
      {
        StepAt(index, f, j);
        StepAt(index, f, q);
        ScanReaches(primary, index, f, j);
      }
  }

  /** Outside those tables a range scan is not confined to its argument's
      tag: the walk goes on past the last key of that tag as long as
      checkProperty answers true or 0. Past the numbers, GREATER_THAN on a
      number stops at a boolean (the model takes `false == 0` and `true > 0`
      as false), and accepts a stored date, whose key decodes as a plain
      number. */
  lemma {:induction false} RangeScanLeavesItsTag(name: string, t: int, b: bool)
    requires t > 0
    ensures KeyLess(PropertyToIndexKey(name, Num(0), false), PropertyToIndexKey(name, Bool(b), false))
    ensures KeyLess(PropertyToIndexKey(name, Bool(b), false), PropertyToIndexKey(name, StoredDate(t), false))
    ensures CheckProperty(FilterSpec(name, GreaterThan, Num(0)),
                          IndexKeyToProperty(PropertyToIndexKey(name, Bool(b), false)).value) == Stop
    ensures CheckProperty(FilterSpec(name, GreaterThan, Num(0)),
                          IndexKeyToProperty(PropertyToIndexKey(name, StoredDate(t), false)).value) == Accept
  {
    KeyOrderByNameThenTag(name, Num(0), false, name, Bool(b), false);
    KeyOrderByNameThenTag(name, Bool(b), false, name, StoredDate(t), false);
    RoundTrip(name, Bool(b));
    RoundTrip(name, StoredDate(t));
  }

  /** select on such a table returns exactly the stored records that pass
      every filter of the query, in whatever order the filters were sorted
      into: `order` is any rearrangement of the query's filters `fs`. */
  lemma QueryIsExact(primary: seq<PrimaryEntry>, index: seq<IndexEntry>, numKeys: nat,
                     fs: seq<FilterSpec>, order: seq<FilterSpec>)
    requires Sorted(index) && IndexMatches(primary, index)
    requires fs != [] && multiset(order) == multiset(fs)
    requires forall f :: f in fs ==> IndexAgrees(primary, f)
    ensures forall id :: id in Execute(PlansFor(primary, index, order), numKeys)
              <==> Lookup(primary, id).Some? && forall f :: f in fs ==> CheckObject(f, Lookup(primary, id))
  {
    var plans := PlansFor(primary, index, order);
    assert forall f :: f in order <==> f in fs by {
      forall f
        ensures f in order <==> f in fs
      {
        assert f in order <==> f in multiset(order);
      }
    }
    forall q | 0 <= q < |plans|
      ensures ExactPlan(plans[q]) && plans[q].admitted == Admitted(primary, order[q])
    {
      PlanAt(primary, index, order, q);
      PlanIsExact(primary, index, order[q]);
    }
    ExecuteIsExact(plans, numKeys);
    forall f | f in order {
      AdmittedMeansCheckObject(primary, f);
    }
    forall id
      ensures id in Execute(plans, numKeys)
              <==> Lookup(primary, id).Some? && forall f :: f in fs ==> CheckObject(f, Lookup(primary, id))
    {
      if id in Execute(plans, numKeys) {
        forall f | f in fs
          ensures CheckObject(f, Lookup(primary, id))
        {
          var q :| 0 <= q < |order| && order[q] == f;
        }
      }
    }
  }
}
