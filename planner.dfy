/** QueryImpl: a query over one table as a list of filters. select orders the
    filters by weight, runs the first as an index scan, and then each further
    filter either as another index scan restricted to the ids found so far
    (while more than a quarter of the table is still in the running) or as a
    check of every remaining record; the surviving ids come out once each, as
    ids, as entity wrappers, or as one property of each. The order of the list
    is the engine's `for…in` order; the model lists the ids in ascending order.

    The planner is stated in two layers: first on what each filter sees (where
    its seek lands, the verdicts along the index, the ids whose records pass
    checkObject), then on how a table determines what each filter sees. */
module Planner {
  import opened Wrappers
  import opened Values
  import opened IndexKeys
  import opened Cursor
  import opened Extraction
  import opened Filters
  import opened Tables

  // ---------------------------------------------------------------------
  // The planner on what each filter sees

  /** What the scan loop sees at one cursor position: the verdict of
      checkProperty on the decoded key and the primary id of the entry. */
  datatype Step = Step(verdict: Verdict, id: nat)

  /** The `results` object of select: its ids, and its `count` property, which
      counts accepted index entries, not distinct ids. */
  datatype Results = Results(ids: set<nat>, count: int)

  /** The scan loop from cursor position `pos`: an accepted entry adds its id
      (when there is no previous pass, or the previous pass found the id) and
      counts it; 0 moves on; false, or the end of the index, ends the scan. */
  function Walk(steps: seq<Step>, pos: nat, prev: Option<set<nat>>): Results
    decreases |steps| - pos
  {
    if pos >= |steps| then Results({}, 0)
    else
      match steps[pos].verdict
      case Stop => Results({}, 0)
      case Skip => Walk(steps, pos + 1, prev)
      case Accept =>
        var rest := Walk(steps, pos + 1, prev);
        var id := steps[pos].id;
        if prev.None? || id in prev.value then Results(rest.ids + {id}, rest.count + 1)
        else rest
  }

  /** A scan restricted to the previous results finds only ids among them,
      and it counts at least as many entries as it collects ids. */
  lemma {:induction false} WalkBounds(steps: seq<Step>, pos: nat, prev: Option<set<nat>>)
    ensures prev.Some? ==> Walk(steps, pos, prev).ids <= prev.value
    ensures |Walk(steps, pos, prev).ids| <= Walk(steps, pos, prev).count
    decreases |steps| - pos
  {
    if pos < |steps| && steps[pos].verdict != Stop {
      WalkBounds(steps, pos + 1, prev);
      SingletonUnionSize(Walk(steps, pos + 1, prev).ids, steps[pos].id);
    }
  }

  /** One step of the scan loop, as Walk takes it. */
  lemma WalkStep(steps: seq<Step>, pos: nat, prev: Option<set<nat>>)
    requires pos < |steps|
    ensures steps[pos].verdict == Stop ==> Walk(steps, pos, prev) == Results({}, 0)
    ensures steps[pos].verdict == Skip ==> Walk(steps, pos, prev) == Walk(steps, pos + 1, prev)
    ensures steps[pos].verdict == Accept ==>
              Walk(steps, pos, prev) ==
                if prev.None? || steps[pos].id in prev.value
                then Results(Walk(steps, pos + 1, prev).ids + {steps[pos].id}, Walk(steps, pos + 1, prev).count + 1)
                else Walk(steps, pos + 1, prev)
  {
  }

  /** Every id the scan collects comes from an accepted entry at or after `pos`. */
  lemma {:induction false} WalkIdsAccepted(steps: seq<Step>, pos: nat, prev: Option<set<nat>>, id: nat)
    requires id in Walk(steps, pos, prev).ids
    ensures exists j :: pos <= j < |steps| && steps[j] == Step(Accept, id)
    decreases |steps| - pos
  {
    if steps[pos].verdict == Accept && steps[pos].id == id {
    } else {
      WalkIdsAccepted(steps, pos + 1, prev, id);
    }
  }

  lemma SingletonUnionSize(s: set<nat>, x: nat)
    ensures |s + {x}| <= |s| + 1
  {
    if x !in s {
      assert s + {x} - {x} == s;
    } else {
      assert s + {x} == s;
    }
  }

  /** One index-scan pass: nothing when the seek fails, otherwise the scan
      from where the seek left the cursor. */
  function ScanPass(seek: Option<nat>, steps: seq<Step>, prev: Option<set<nat>>): Option<Results> {
    match seek
    case None => None
    case Some(p) => Some(Walk(steps, p, prev))
  }

  /** One record-check pass: every id whose record is not admitted is deleted,
      and the count goes down by one for each. */
  function LoadPass(admitted: set<nat>, res: Results): Results {
    var kept := res.ids * admitted;
    Results(kept, res.count - |res.ids - kept|)
  }

  /** The check keeps exactly the admitted ids among the previous results and
      takes one off the count for each id it deletes. */
  lemma LoadPassKeeps(admitted: set<nat>, res: Results)
    ensures LoadPass(admitted, res).ids <= res.ids
    ensures forall id :: id in res.ids ==> (id in LoadPass(admitted, res).ids <==> id in admitted)
    ensures res.count - LoadPass(admitted, res).count == |res.ids| - |LoadPass(admitted, res).ids|
  {
    SubsetSize(res.ids * admitted, res.ids);
  }

  lemma SubsetSize(a: set<nat>, b: set<nat>)
    requires a <= b
    ensures |b - a| == |b| - |a|
  {
    assert b == (b - a) + a;
  }

  /** What one filter sees: where initCursor lands (if anywhere), the steps
      along the index, and the ids whose loaded records pass checkObject. */
  datatype Plan = Plan(seek: Option<nat>, steps: seq<Step>, admitted: set<nat>)

  /** One iteration of select's loop over the ordered filters, given the
      results so far: the first filter, and any later one while more than a
      quarter of the table's rows are counted, scans the index (intersecting
      with the previous results after the first); the others check the loaded
      records. `None` is a seek that found nothing, which ends the loop. */
  function Pass(plan: Plan, numKeys: nat, first: bool, res: Results): Option<Results> {
    if first then ScanPass(plan.seek, plan.steps, None)
    else if 4 * res.count > numKeys then ScanPass(plan.seek, plan.steps, Some(res.ids))
    else Some(LoadPass(plan.admitted, res))
  }

  /** The results after the first `k` filters have run; `None` once a seek
      has failed. */
  function Run(plans: seq<Plan>, numKeys: nat, k: nat): Option<Results>
    requires k <= |plans|
  {
    if k == 0 then Some(Results({}, 0))
    else match Run(plans, numKeys, k - 1)
      case None => None
      case Some(res) => Pass(plans[k - 1], numKeys, k == 1, res)
  }

  /** A pass after the first keeps a subset of the ids it is given. */
  lemma PassShrinks(plan: Plan, numKeys: nat, res: Results)
    requires Pass(plan, numKeys, false, res).Some?
    ensures Pass(plan, numKeys, false, res).value.ids <= res.ids
  {
    if 4 * res.count > numKeys {
      WalkBounds(plan.steps, plan.seek.value, Some(res.ids));
    } else {
      LoadPassKeeps(plan.admitted, res);
    }
  }

  lemma RunNext(plans: seq<Plan>, numKeys: nat, k: nat, res: Results)
    requires k < |plans| && Run(plans, numKeys, k) == Some(res)
    ensures Run(plans, numKeys, k + 1) == Pass(plans[k], numKeys, k == 0, res)
  {
  }

  /** The ids select returns: those left when every filter has run, and none
      once a seek has failed. */
  function Execute(plans: seq<Plan>, numKeys: nat): (r: set<nat>) {
    match Run(plans, numKeys, |plans|)
    case None => {}
    case Some(res) => res.ids
  }

  /** When every filter has run, select returns the ids of the last results. */
  lemma ExecuteAfterRun(plans: seq<Plan>, numKeys: nat, res: Results)
    requires Run(plans, numKeys, |plans|) == Some(res)
    ensures Execute(plans, numKeys) == res.ids
  {
  }

  /** A seek that finds nothing empties the query for good: every later
      filter leaves it empty, and select returns nothing. An EQUAL filter
      whose value is absent weighs least, runs first, and ends the query so. */
  lemma FailedSeekEndsQuery(plans: seq<Plan>, numKeys: nat, k: nat, m: nat)
    requires k <= m <= |plans| && Run(plans, numKeys, k).None?
    ensures Run(plans, numKeys, m).None?
    ensures Execute(plans, numKeys) == {}
  {
    StaysFailed(plans, numKeys, k, m);
    StaysFailed(plans, numKeys, k, |plans|);
  }

  lemma {:induction false} StaysFailed(plans: seq<Plan>, numKeys: nat, k: nat, m: nat)
    requires k <= m <= |plans| && Run(plans, numKeys, k).None?
    ensures Run(plans, numKeys, m).None?
    decreases m - k
  {
    if k < m {
      StaysFailed(plans, numKeys, k + 1, m);
    }
  }

  /** No filter after the first adds an id: each pass keeps a subset of the
      ids the previous pass left. */
  lemma {:induction false} PassesOnlyShrink(plans: seq<Plan>, numKeys: nat, k: nat, m: nat)
    requires 1 <= k <= m <= |plans| && Run(plans, numKeys, m).Some?
    ensures Run(plans, numKeys, k).Some?
    ensures Run(plans, numKeys, m).value.ids <= Run(plans, numKeys, k).value.ids
    decreases m - k
  {
    if k < m {
      PassesOnlyShrink(plans, numKeys, k, m - 1);
      PassShrinks(plans[m - 1], numKeys, Run(plans, numKeys, m - 1).value);
    }
  }

  /** A filter admits an id through an accepted step of that id, or through
      the check of its record. */
  ghost predicate Admits(p: Plan, id: nat) {
    (exists j :: 0 <= j < |p.steps| && p.steps[j] == Step(Accept, id)) || id in p.admitted
  }

  /** An id that survives the first `k` filters is admitted by each of them. */
  lemma {:induction false} RunIsSound(plans: seq<Plan>, numKeys: nat, k: nat, id: nat)
    requires k <= |plans| && Run(plans, numKeys, k).Some? && id in Run(plans, numKeys, k).value.ids
    ensures forall q :: 0 <= q < k ==> Admits(plans[q], id)
  {
    if k > 0 {
      var res := Run(plans, numKeys, k - 1).value;
      var plan := plans[k - 1];
      if k > 1 {
        PassShrinks(plan, numKeys, res);
        RunIsSound(plans, numKeys, k - 1, id);
      }
      if k == 1 {
        WalkIdsAccepted(plan.steps, plan.seek.value, None, id);
      } else if 4 * res.count > numKeys {
        WalkIdsAccepted(plan.steps, plan.seek.value, Some(res.ids), id);
      }
    }
  }

  /** Every id in the result is admitted by every filter of the query. */
  lemma ExecuteIsSound(plans: seq<Plan>, numKeys: nat, id: nat)
    requires id in Execute(plans, numKeys)
    ensures forall k :: 0 <= k < |plans| ==> Admits(plans[k], id)
  {
    RunIsSound(plans, numKeys, |plans|, id);
  }

  /** The scan collects every accepted entry it reaches before a false verdict. */
  lemma {:induction false} WalkCollectsReachable(steps: seq<Step>, pos: nat, j: nat, prev: Option<set<nat>>)
    requires pos <= j < |steps|
    requires forall q :: pos <= q < j ==> steps[q].verdict != Stop
    requires steps[j].verdict == Accept
    requires prev.None? || steps[j].id in prev.value
    ensures steps[j].id in Walk(steps, pos, prev).ids
    decreases j - pos
  {
    if pos < j {
      WalkCollectsReachable(steps, pos + 1, j, prev);
      assert steps[pos].verdict != Stop;
      assert Walk(steps, pos + 1, prev).ids <= Walk(steps, pos, prev).ids;
    }
  }

  /** `count` counts accepted entries: two accepted entries of one id (two
      elements of one array property) count twice, while the id is in the
      results once; so the quarter-of-the-table test can see more matches
      than there are records. */
  lemma CountCountsEntries(id: nat)
    ensures Walk([Step(Accept, id), Step(Accept, id)], 0, None) == Results({id}, 2)
  {
    var steps := [Step(Accept, id), Step(Accept, id)];
    assert Walk(steps, 2, None) == Results({}, 0);
    assert Walk(steps, 1, None) == Results({id}, 1);
  }

  // ---------------------------------------------------------------------
  // What a filter sees in a table

  /** Every key in the index decodes (indexKeyToProperty succeeds on it). */
  ghost predicate Decodable(index: seq<IndexEntry>) {
    forall j :: 0 <= j < |index| ==> IndexKeyToProperty(index[j].key).Some?
  }

  /** A consistent index holds only keys the key creator wrote, so all decode. */
  lemma ConsistentIndexDecodes(primary: seq<PrimaryEntry>, index: seq<IndexEntry>)
    requires IndexMatches(primary, index)
    ensures Decodable(index)
  {
    forall j | 0 <= j < |index|
      ensures IndexKeyToProperty(index[j].key).Some?
    {
      IndexKeysDecode(primary, index, index[j]);
    }
  }

  /** checkProperty on the decoded key under the cursor at position `j`; a key
      that does not decode (none does in a consistent index) ends the walk. */
  function VerdictAt(index: seq<IndexEntry>, f: FilterSpec, j: nat): Verdict
    requires j < |index|
  {
    match IndexKeyToProperty(index[j].key)
    case None => Stop
    case Some(p) => CheckProperty(f, p)
  }

  /** The steps of the index from position `j` on, as filter `f` reads them. */
  function StepsFrom(index: seq<IndexEntry>, f: FilterSpec, j: nat): (s: seq<Step>)
    requires j <= |index|
    ensures |s| == |index| - j
    decreases |index| - j
  {
    if j == |index| then []
    else [Step(VerdictAt(index, f, j), index[j].id)] + StepsFrom(index, f, j + 1)
  }

  function Steps(index: seq<IndexEntry>, f: FilterSpec): (s: seq<Step>)
    ensures |s| == |index|
  {
    StepsFrom(index, f, 0)
  }

  lemma {:induction false} StepsFromAt(index: seq<IndexEntry>, f: FilterSpec, j: nat, q: nat)
    requires j <= q < |index|
    ensures StepsFrom(index, f, j)[q - j] == Step(VerdictAt(index, f, q), index[q].id)
    decreases q - j
  {
    if j < q {
      StepsFromAt(index, f, j + 1, q);
    }
  }

  /** The step at position `q` is the verdict on the entry there and its id. */
  lemma StepAt(index: seq<IndexEntry>, f: FilterSpec, q: nat)
    requires q < |index|
    ensures Steps(index, f)[q] == Step(VerdictAt(index, f, q), index[q].id)
  {
    StepsFromAt(index, f, 0, q);
  }

  /** The ids whose loaded records pass checkObject. */
  function Admitted(primary: seq<PrimaryEntry>, f: FilterSpec): set<nat> {
    if primary == [] then {}
    else
      var rest := Admitted(primary[1..], f) - {primary[0].id};
      if CheckObject(f, Some(primary[0].record)) then rest + {primary[0].id} else rest
  }

  /** An id is admitted exactly when the record a lookup of it loads passes
      checkObject (an id with no record never does). */
  lemma {:induction false} AdmittedMeansCheckObject(primary: seq<PrimaryEntry>, f: FilterSpec)
    ensures forall id :: id in Admitted(primary, f) <==> CheckObject(f, Lookup(primary, id))
  {
    if primary != [] {
      AdmittedMeansCheckObject(primary[1..], f);
    }
  }

  function PlanFor(primary: seq<PrimaryEntry>, index: seq<IndexEntry>, f: FilterSpec): Plan
  {
    Plan(InitCursor(index, f), Steps(index, f), Admitted(primary, f))
  }

  /** What each filter of `order` sees in the table. */
  function PlansFor(primary: seq<PrimaryEntry>, index: seq<IndexEntry>, order: seq<FilterSpec>): (r: seq<Plan>)
    ensures |r| == |order|
  {
    if order == [] then [] else [PlanFor(primary, index, order[0])] + PlansFor(primary, index, order[1..])
  }

  /** What each filter of `specs` sees. */
  lemma PlansForEach(primary: seq<PrimaryEntry>, index: seq<IndexEntry>, specs: seq<FilterSpec>)
    ensures forall k :: 0 <= k < |specs| ==> PlansFor(primary, index, specs)[k] == PlanFor(primary, index, specs[k])
  {
    forall k | 0 <= k < |specs| {
      PlanAt(primary, index, specs, k);
    }
  }

  /** What filter `k` of `specs` sees. */
  lemma {:induction false} PlanAt(primary: seq<PrimaryEntry>, index: seq<IndexEntry>, specs: seq<FilterSpec>, k: nat)
    requires k < |specs|
    ensures PlansFor(primary, index, specs)[k] == PlanFor(primary, index, specs[k])
  {
    if k > 0 {
      PlanAt(primary, index, specs[1..], k - 1);
    }
  }

  /** The record puts into the index (as its property or an element of it) a
      value that satisfies the filter, compared as the index stores it. */
  ghost predicate IndexedMatch(f: FilterSpec, rec: Record) {
    exists v :: IndexedAsWritten(Get(rec, f.name), v)
                && Satisfies(f.op, IndexedScalar(v), f.Comparable())
  }

  /** In a consistent table, a filter admits only stored records, each either
      through an indexed value that satisfies it or through checkObject. */
  lemma AdmitsMeansMatch(primary: seq<PrimaryEntry>, index: seq<IndexEntry>, f: FilterSpec, id: nat)
    requires IndexMatches(primary, index)
    requires Admits(PlanFor(primary, index, f), id)
    ensures Lookup(primary, id).Some?
    ensures IndexedMatch(f, Lookup(primary, id).value) || CheckObject(f, Lookup(primary, id))
  {
    AdmittedMeansCheckObject(primary, f);
    if !CheckObject(f, Lookup(primary, id)) {
      var steps := Steps(index, f);
      var j :| 0 <= j < |steps| && steps[j] == Step(Accept, id);
      StepAt(index, f, j);
      var e := index[j];
      assert e in index;
      var rec := Lookup(primary, id).value;
      KeyComesFromProperty(rec, e.key);
      var prop, v :| prop in rec && IndexedAsWritten(rec[prop], v) && e.key == PropertyToIndexKey(prop, v, false);
      RoundTrip(prop, v);
      assert IndexedAsWritten(Get(rec, f.name), v);
    }
  }

  /** What select promises: every id it returns names a stored record, and
      every filter of the query holds of that record, through the index or
      through the record itself. */
  lemma QueryResultsMatchRecords(primary: seq<PrimaryEntry>, index: seq<IndexEntry>, numKeys: nat,
                                 order: seq<FilterSpec>, id: nat)
    requires IndexMatches(primary, index)
    requires id in Execute(PlansFor(primary, index, order), numKeys)
    ensures Lookup(primary, id).Some?
    ensures forall k :: 0 <= k < |order| ==>
              IndexedMatch(order[k], Lookup(primary, id).value) || CheckObject(order[k], Lookup(primary, id))
  {
    var plans := PlansFor(primary, index, order);
    ExecuteIsSound(plans, numKeys, id);
    PlanAt(primary, index, order, 0);
    AdmitsMeansMatch(primary, index, order[0], id);
    forall k | 0 <= k < |order|
      ensures IndexedMatch(order[k], Lookup(primary, id).value) || CheckObject(order[k], Lookup(primary, id))
    {
      PlanAt(primary, index, order, k);
      AdmitsMeansMatch(primary, index, order[k], id);
    }
  }

  /** An EQUAL scan on a sorted index finds every entry that carries the exact
      key of the argument (for arguments that compare through the index as
      they do through the record). */
  lemma EqualScanIsComplete(index: seq<IndexEntry>, f: FilterSpec, prev: Option<set<nat>>, j: nat)
    requires Sorted(index)
    requires f.op == Equal && SelfComparable(f.value)
    requires j < |index| && index[j].key == InitIndexKey(f)
    requires prev.None? || index[j].id in prev.value
    ensures ScanPass(InitCursor(index, f), Steps(index, f), prev).Some?
    ensures index[j].id in ScanPass(InitCursor(index, f), Steps(index, f), prev).value.ids
  {
    var probe := InitIndexKey(f);
    var p := SearchKey(index, probe).value;
    var steps := Steps(index, f);
    RoundTrip(f.name, f.value);
    IndexAgreesWithComparable(f.value);
    forall q | p <= q <= j
      ensures steps[q].verdict == Accept
    {
      SortedRunIsContiguous(index, p, q, j);
      StepAt(index, f, q);
    }
    StepAt(index, f, j);
    WalkCollectsReachable(steps, p, j, prev);
  }

  // ---------------------------------------------------------------------
  // Ordering filters by weight

  /** Each filter weighs no more than any later one. */
  predicate SortedByWeight(order: seq<FilterSpec>, index: seq<IndexEntry>, numKeys: nat)
    requires index != [] ==> numKeys > 0
  {
    forall i, j :: 0 <= i < j < |order| ==> Weight(order[i], index, numKeys) <= Weight(order[j], index, numKeys)
  }

  /** An EQUAL filter whose key is absent weighs least: its seek fails, and
      every filter ordered before it weighs -5 as well. */
  lemma AbsentEqualWeighsLeast(order: seq<FilterSpec>, index: seq<IndexEntry>, numKeys: nat, k: nat)
    requires index != [] ==> numKeys > 0
    requires SortedByWeight(order, index, numKeys) && k < |order|
    requires order[k].op == Equal && SearchKey(index, InitIndexKey(order[k])).None?
    ensures InitCursor(index, order[k]).None?
    ensures forall i :: 0 <= i <= k ==> Weight(order[i], index, numKeys) == -5
  {
  }

  /** When the absent EQUAL filter is the only filter weighing -5, the sort
      puts it first, its seek fails, and select returns nothing. */
  lemma AbsentEqualAloneEndsQuery(primary: seq<PrimaryEntry>, index: seq<IndexEntry>, numKeys: nat,
                                  order: seq<FilterSpec>, k: nat)
    requires index != [] ==> numKeys > 0
    requires SortedByWeight(order, index, numKeys) && k < |order|
    requires order[k].op == Equal && SearchKey(index, InitIndexKey(order[k])).None?
    requires forall i :: 0 <= i < |order| && i != k ==> Weight(order[i], index, numKeys) > -5
    ensures k == 0
    ensures Execute(PlansFor(primary, index, order), numKeys) == {}
  {
    AbsentEqualWeighsLeast(order, index, numKeys, k);
    PlanAt(primary, index, order, 0);
    var plans := PlansFor(primary, index, order);
    assert Run(plans, numKeys, 1).None?;
    FailedSeekEndsQuery(plans, numKeys, 1, 1);
  }

  /** Line 146 as written: a key present on one row in 21 weighs -5, as much
      as an absent key, so the sort may put that filter first. The absent
      EQUAL filter then runs second, and on a table of 21 rows (one id counted
      so far) as a record check: its failed seek is never consulted, and an id
      the check admits is returned. */
  lemma AbsentEqualTiesWithRareKey()
    ensures EqualWeight(1, 21) == -5
    ensures Execute([Plan(Some(0), [Step(Accept, 7)], {7}), Plan(None, [], {7})], 21) == {7}
  {
    var plans := [Plan(Some(0), [Step(Accept, 7)], {7}), Plan(None, [], {7})];
    assert Walk([Step(Accept, 7)], 1, None) == Results({}, 0);
    assert Walk([Step(Accept, 7)], 0, None) == Results({7}, 1);
    assert Run(plans, 21, 0) == Some(Results({}, 0));
    assert Run(plans, 21, 1) == Some(Results({7}, 1));
    assert Run(plans, 21, 2) == Some(LoadPass({7}, Results({7}, 1)));
  }

  /** Each filter weighs no more than any later one, by the corrected weight. */
  predicate SortedByCorrectedWeight(order: seq<FilterSpec>, index: seq<IndexEntry>, numKeys: nat)
    requires index != [] ==> numKeys > 0
  {
    forall i, j :: 0 <= i < j < |order| ==>
      WeightCorrected(order[i], index, numKeys) <= WeightCorrected(order[j], index, numKeys)
  }

  /** With the corrected weight, an absent EQUAL filter sorts before every
      filter whose key is present, ties or not: the first filter's seek fails
      and select returns nothing. */
  lemma AbsentEqualRunsFirstCorrected(primary: seq<PrimaryEntry>, index: seq<IndexEntry>, numKeys: nat,
                                      order: seq<FilterSpec>, k: nat)
    requires index != [] ==> numKeys > 0
    requires SortedByCorrectedWeight(order, index, numKeys) && k < |order|
    requires order[k].op == Equal && SearchKey(index, InitIndexKey(order[k])).None?
    ensures order[0].op == Equal && InitCursor(index, order[0]).None?
    ensures Execute(PlansFor(primary, index, order), numKeys) == {}
  {
    assert WeightCorrected(order[0], index, numKeys) <= WeightCorrected(order[k], index, numKeys) == -6;
    PlanAt(primary, index, order, 0);
    var plans := PlansFor(primary, index, order);
    assert Run(plans, numKeys, 1).None?;
    FailedSeekEndsQuery(plans, numKeys, 1, 1);
  }

  /** A filter with the weight getWeight reported for it. */
  datatype Ranked = Ranked(filter: Filter, weight: int)

  /** Each filter weighs no more than the next. */
  predicate RankSorted(rs: seq<Ranked>) {
    |rs| < 2 || (rs[0].weight <= rs[1].weight && RankSorted(rs[1..]))
  }

  /** Ordered neighbour by neighbour is ordered pair by pair. */
  lemma {:induction false} RankSortedPairs(rs: seq<Ranked>)
    requires RankSorted(rs)
    ensures forall i, j :: 0 <= i < j < |rs| ==> rs[i].weight <= rs[j].weight
  {
    if |rs| >= 2 {
      RankSortedPairs(rs[1..]);
      forall i, j | 0 <= i < j < |rs| ensures rs[i].weight <= rs[j].weight {
        assert rs[j] == rs[1..][j - 1];
        if i > 0 {
          assert rs[i] == rs[1..][i - 1];
        } else if j > 1 {
          assert rs[1] == rs[1..][0];
        }
      }
    }
  }

  function FiltersOf(rs: seq<Ranked>): (fs: seq<Filter>)
    ensures |fs| == |rs| && forall i :: 0 <= i < |rs| ==> fs[i] == rs[i].filter
  {
    if rs == [] then [] else [rs[0].filter] + FiltersOf(rs[1..])
  }

  /** One insertion step of the sort: the new filter goes after every filter
      whose weight is not above its own and before the first heavier one. */
  function InsertRanked(rs: seq<Ranked>, x: Ranked): (r: seq<Ranked>)
    ensures |r| == |rs| + 1
  {
    if rs == [] || x.weight < rs[0].weight then [x] + rs
    else [rs[0]] + InsertRanked(rs[1..], x)
  }

  /** Insertion adds nothing but the new filter. */
  lemma {:induction false} InsertRankedMembers(rs: seq<Ranked>, x: Ranked)
    ensures forall j :: 0 <= j < |rs| + 1 ==> InsertRanked(rs, x)[j] == x || InsertRanked(rs, x)[j] in rs
  {
    if !(rs == [] || x.weight < rs[0].weight) {
      InsertRankedMembers(rs[1..], x);
      var rest := InsertRanked(rs[1..], x);
      forall j | 0 <= j < |rest| ensures rest[j] == x || rest[j] in rs {
        if rest[j] != x {
          var k :| 0 <= k < |rs[1..]| && rs[1..][k] == rest[j];
          assert rs[k + 1] == rest[j];
        }
      }
      assert InsertRanked(rs, x) == [rs[0]] + rest;
    }
  }

  /** Insertion into a list ordered by weight keeps it ordered. */
  lemma {:induction false} InsertRankedSorted(rs: seq<Ranked>, x: Ranked)
    requires RankSorted(rs)
    ensures RankSorted(InsertRanked(rs, x))
  {
    if rs == [] || x.weight < rs[0].weight {
      assert ([x] + rs)[1..] == rs;
    } else {
      InsertRankedSorted(rs[1..], x);
      var rest := InsertRanked(rs[1..], x);
      assert ([rs[0]] + rest)[1..] == rest;
      assert rest[0] == x || rest[0] == rs[1];
    }
  }

  /** Insertion gains exactly the new filter: the filters, counted with
      multiplicity, are the old ones and the new one. */
  lemma {:induction false} InsertRankedFilters(rs: seq<Ranked>, x: Ranked)
    ensures multiset(FiltersOf(InsertRanked(rs, x))) == multiset(FiltersOf(rs)) + multiset{x.filter}
  {
    if rs == [] || x.weight < rs[0].weight {
      assert ([x] + rs)[1..] == rs;
    } else {
      InsertRankedFilters(rs[1..], x);
      var rest := InsertRanked(rs[1..], x);
      assert ([rs[0]] + rest)[1..] == rest;
    }
  }

  /** Every ranked filter carries its own weight on this index. */
  predicate WeightsAgree(rs: seq<Ranked>, index: seq<IndexEntry>, numKeys: nat)
    requires index != [] ==> numKeys > 0
  {
    forall q :: 0 <= q < |rs| ==> rs[q].weight == Weight(rs[q].filter.spec, index, numKeys)
  }

  /** A list drawn from filters that carry their own weights carries them too. */
  lemma MembersKeepWeights(rs: seq<Ranked>, r: seq<Ranked>, index: seq<IndexEntry>, numKeys: nat)
    requires index != [] ==> numKeys > 0
    requires WeightsAgree(rs, index, numKeys)
    requires forall j :: 0 <= j < |r| ==> r[j] in rs
    ensures WeightsAgree(r, index, numKeys)
  {
    forall q | 0 <= q < |r| ensures r[q].weight == Weight(r[q].filter.spec, index, numKeys) {
      var k :| 0 <= k < |rs| && rs[k] == r[q];
    }
  }

  /** Insertion sort of ranked filters, lightest first. */
  function SortRanked(rs: seq<Ranked>): (r: seq<Ranked>)
    ensures |r| == |rs|
  {
    if rs == [] then [] else InsertRanked(SortRanked(rs[1..]), rs[0])
  }

  /** The sort orders by weight. */
  lemma {:induction false} SortRankedSorted(rs: seq<Ranked>)
    ensures RankSorted(SortRanked(rs))
  {
    if rs != [] {
      SortRankedSorted(rs[1..]);
      InsertRankedSorted(SortRanked(rs[1..]), rs[0]);
    }
  }

  /** The sort draws every entry from its input. */
  lemma {:induction false} SortRankedMembers(rs: seq<Ranked>)
    ensures forall j :: 0 <= j < |rs| ==> SortRanked(rs)[j] in rs
  {
    if rs != [] {
      SortRankedMembers(rs[1..]);
      var rest := SortRanked(rs[1..]);
      InsertRankedMembers(rest, rs[0]);
      var r := SortRanked(rs);
      forall j | 0 <= j < |rs| ensures r[j] in rs {
        if r[j] != rs[0] {
          assert r[j] in rest;
          var k :| 0 <= k < |rest| && rest[k] == r[j];
          assert rest[k] in rs[1..];
        }
      }
    }
  }

  /** The sort neither drops nor duplicates a filter. */
  lemma {:induction false} SortRankedFilters(rs: seq<Ranked>)
    ensures multiset(FiltersOf(SortRanked(rs))) == multiset(FiltersOf(rs))
  {
    if rs != [] {
      SortRankedFilters(rs[1..]);
      InsertRankedFilters(SortRanked(rs[1..]), rs[0]);
      assert FiltersOf(rs) == [rs[0].filter] + FiltersOf(rs[1..]);
    }
  }

  /** Filters ranked by their own weights are sorted by weight. */
  lemma RankedFiltersAreSorted(rs: seq<Ranked>, index: seq<IndexEntry>, numKeys: nat)
    requires index != [] ==> numKeys > 0
    requires RankSorted(rs) && WeightsAgree(rs, index, numKeys)
    ensures SortedByWeight(Specs(FiltersOf(rs)), index, numKeys)
  {
    RankSortedPairs(rs);
  }

  /** The specifications of a list of filters, in order. */
  function Specs(fs: seq<Filter>): (r: seq<FilterSpec>)
    ensures |r| == |fs| && forall i :: 0 <= i < |fs| ==> r[i] == fs[i].spec
  {
    if fs == [] then [] else [fs[0].spec] + Specs(fs[1..])
  }

  lemma SpecsConcat(x: seq<Filter>, y: seq<Filter>)
    ensures Specs(x + y) == Specs(x) + Specs(y)
  {
  }

  /** Reordering the filter objects reorders their specifications alike. */
  lemma {:induction false} SpecsPermutation(a: seq<Filter>, b: seq<Filter>)
    requires multiset(a) == multiset(b)
    ensures multiset(Specs(a)) == multiset(Specs(b))
    decreases |a|
  {
    if a == [] {
      assert |multiset(b)| == 0;
    } else {
      var j := Locate(a, b);
      SpecsPermutation(a[1..], b[..j] + b[j + 1..]);
      SpecsWithout(b, j);
      assert Specs(a) == [a[0].spec] + Specs(a[1..]);
    }
  }

  /** Where the first of `a` sits in its reordering `b`, and what is left. */
  lemma Locate(a: seq<Filter>, b: seq<Filter>) returns (j: nat)
    requires a != [] && multiset(a) == multiset(b)
    ensures j < |b| && b[j] == a[0] && multiset(a[1..]) == multiset(b[..j] + b[j + 1..])
  {
    assert a[0] in multiset(b);
    j :| 0 <= j < |b| && b[j] == a[0];
    FilterWithout(b, j);
    assert a == [a[0]] + a[1..];
    assert multiset(a) == multiset{a[0]} + multiset(a[1..]);
    assert multiset(a[1..]) == multiset(a) - multiset{a[0]};
    assert multiset(b[..j] + b[j + 1..]) == multiset(b) - multiset{b[j]};
  }

  lemma FilterWithout(b: seq<Filter>, j: nat)
    requires j < |b|
    ensures multiset(b) == multiset(b[..j] + b[j + 1..]) + multiset{b[j]}
  {
    FilterSplit(b, j);
  }

  lemma SpecsWithout(b: seq<Filter>, j: nat)
    requires j < |b|
    ensures multiset(Specs(b)) == multiset(Specs(b[..j] + b[j + 1..])) + multiset{b[j].spec}
  {
    FilterSplit(b, j);
    SpecsSplice(b[..j], b[j], b[j + 1..]);
  }

  lemma FilterSplit(b: seq<Filter>, j: nat)
    requires j < |b|
    ensures b == b[..j] + [b[j]] + b[j + 1..]
  {
  }

  lemma SpecsSplice(x: seq<Filter>, e: Filter, y: seq<Filter>)
    ensures multiset(Specs(x + [e] + y)) == multiset(Specs(x + y)) + multiset{e.spec}
  {
    SpecsConcat(x + [e], y);
    SpecsConcat(x, [e]);
    SpecsConcat(x, y);
    assert Specs([e]) == [e.spec];
  }

  // ---------------------------------------------------------------------
  // Output

  ghost function Smallest(s: set<nat>): (m: nat)
    requires s != {}
    ensures m in s && forall y :: y in s ==> m <= y
    decreases s
  {
    var x :| x in s;
    if s == {x} then
      assert forall y :: y in s ==> y == x;
      x
    else
      var m := Smallest(s - {x});
      assert forall y :: y in s ==> y == x || y in s - {x};
      if x < m then x else m
  }

  function MinOf(s: set<nat>): (m: nat)
    requires s != {}
    ensures m in s && forall y :: y in s ==> m <= y
  {
    assert Smallest(s) in s;
    var m :| m in s && forall y :: y in s ==> m <= y;
    m
  }

  /** The order in which the model lists the surviving ids: ascending, each
      once. (`for (id in results)` leaves the order to the engine.) */
  function Ascending(s: set<nat>): (r: seq<nat>)
    ensures forall i, j :: 0 <= i < j < |r| ==> r[i] < r[j]
    ensures forall x :: x in r <==> x in s
    ensures |r| == |s|
    decreases s
  {
    if s == {} then []
    else
      var m := MinOf(s);
      var rest := Ascending(s - {m});
      SubsetSize({m}, s);
      [m] + rest
  }

  /** The list select builds: one row per id, in the given order. */
  function Rows(typeName: string, primary: seq<PrimaryEntry>, p: Projection, ids: seq<nat>): (rows: seq<Row>)
    ensures |rows| == |ids|
    ensures forall i :: 0 <= i < |ids| ==> rows[i] == RowFor(typeName, primary, p, ids[i])
  {
    if ids == [] then [] else [RowFor(typeName, primary, p, ids[0])] + Rows(typeName, primary, p, ids[1..])
  }

  // ---------------------------------------------------------------------
  // The query object

  class QueryImpl {
    const table: Table
    var filters: seq<Filter>

    constructor (table: Table)
      ensures this.table == table && filters == []
    {
      this.table := table;
      filters := [];
    }

    /** addFilter: append a new filter object, its weight not yet computed. */
    method AddFilter(name: string, op: Operator, value: Value)
      modifies this
      ensures |filters| == |old(filters)| + 1 && filters[..|old(filters)|] == old(filters)
      ensures filters[|old(filters)|].spec == FilterSpec(name, op, value)
      ensures fresh(filters[|old(filters)|]) && filters[|old(filters)|].weight.None?
    {
      var f := new Filter(FilterSpec(name, op, value));
      filters := filters + [f];
    }

    /** The scan loop of select: position the cursor, then walk it. */
    static method ScanIndex(index: seq<IndexEntry>, f: FilterSpec, prev: Option<set<nat>>) returns (r: Option<Results>)
      ensures r == ScanPass(InitCursor(index, f), Steps(index, f), prev)
    {
      var status := InitCursor(index, f);
      if status.None? {
        return None;
      }
      var res := WalkIndex(index, f, prev, status.value);
      r := Some(res);
    }

    /** The while loop of the scan: from the cursor's position, take each entry
        checkProperty accepts, move on past 0, and stop at false or at the end. */
    static method WalkIndex(index: seq<IndexEntry>, f: FilterSpec, prev: Option<set<nat>>, start: nat) returns (r: Results)
      requires start <= |index|
      ensures r == Walk(Steps(index, f), start, prev)
    {
      ghost var steps := Steps(index, f);
      var pos := start;
      var ids: set<nat> := {};
      var count := 0;
      while pos < |index|
        invariant start <= pos <= |index| && |steps| == |index|
        invariant Walk(steps, start, prev) == Results(ids + Walk(steps, pos, prev).ids, count + Walk(steps, pos, prev).count)
        decreases |index| - pos
      {
        var s := VerdictAt(index, f, pos);
        StepAt(index, f, pos);
        if s == Stop {
          WalkStopped(steps, start, pos, prev, ids, count);
          break;
        }
        var id := index[pos].id;
        WalkAdvanced(steps, start, pos, prev, ids, count);
        if s == Accept && (prev.None? || id in prev.value) {
          ids := ids + {id};
          count := count + 1;
        }
        pos := pos + 1;
      }
      r := Results(ids, count);
    }

    /** A false verdict ends the scan with what has been collected so far. */
    static lemma WalkStopped(steps: seq<Step>, start: nat, pos: nat, prev: Option<set<nat>>, ids: set<nat>, count: int)
      requires pos < |steps| && steps[pos].verdict == Stop
      requires Walk(steps, start, prev) == Results(ids + Walk(steps, pos, prev).ids, count + Walk(steps, pos, prev).count)
      ensures Walk(steps, start, prev) == Results(ids, count)
    {
      WalkStep(steps, pos, prev);
      assert ids + {} == ids;
    }

    /** A true or 0 verdict moves the scan on by one entry, collecting the id
        of an accepted entry that the previous pass (if any) also found. */
    static lemma WalkAdvanced(steps: seq<Step>, start: nat, pos: nat, prev: Option<set<nat>>, ids: set<nat>, count: int)
      requires pos < |steps| && steps[pos].verdict != Stop
      requires Walk(steps, start, prev) == Results(ids + Walk(steps, pos, prev).ids, count + Walk(steps, pos, prev).count)
      ensures var take := steps[pos].verdict == Accept && (prev.None? || steps[pos].id in prev.value);
              var ids' := if take then ids + {steps[pos].id} else ids;
              var count' := if take then count + 1 else count;
              Walk(steps, start, prev) == Results(ids' + Walk(steps, pos + 1, prev).ids, count' + Walk(steps, pos + 1, prev).count)
    {
      WalkStep(steps, pos, prev);
    }

    /** Deleting one checked id keeps the deleted set equal to the checked ids
        whose records failed. */
    static lemma RecheckStep(all: set<nat>, remaining: set<nat>, admitted: set<nat>, removed: set<nat>, id: nat, pass: bool)
      requires remaining <= all && id in remaining && removed == (all - remaining) - admitted
      requires pass <==> id in admitted
      ensures id !in removed && |removed + {id}| == |removed| + 1
      ensures (all - (remaining - {id})) - admitted == if pass then removed else removed + {id}
      ensures all - (if pass then removed else removed + {id}) == (all - removed) - (if pass then {} else {id})
    {
    }

    /** When the loop ends, what is left is what LoadPass keeps. */
    static lemma RecheckDone(res: Results, admitted: set<nat>, removed: set<nat>)
      requires removed == res.ids - admitted
      ensures LoadPass(admitted, res) == Results(res.ids - removed, res.count - |removed|)
    {
      assert res.ids - removed == res.ids * admitted;
      assert res.ids - res.ids * admitted == removed;
    }

    /** The record-check loop of select: load each remaining id and delete it
        when checkObject fails. */
    static method Recheck(primary: seq<PrimaryEntry>, f: FilterSpec, res: Results) returns (r: Results)
      ensures r == LoadPass(Admitted(primary, f), res)
    {
      AdmittedMeansCheckObject(primary, f);
      r := RecheckAgainst(primary, f, res, Admitted(primary, f));
    }

    /** The same loop, given the set of ids whose records pass. */
    static method RecheckAgainst(primary: seq<PrimaryEntry>, f: FilterSpec, res: Results, ghost admitted: set<nat>)
      returns (r: Results)
      requires forall id :: id in admitted <==> CheckObject(f, Lookup(primary, id))
      ensures r == LoadPass(admitted, res)
    {
      ghost var removed: set<nat> := {};
      var ids := res.ids;
      var count := res.count;
      var remaining := res.ids;
      while remaining != {}
        invariant remaining <= res.ids
        invariant removed == (res.ids - remaining) - admitted
        invariant ids == res.ids - removed
        invariant count == res.count - |removed|
        decreases remaining
      {
        var id :| id in remaining;
        var s := Lookup(primary, id);
        var pass := CheckObject(f, s);
        RecheckStep(res.ids, remaining, admitted, removed, id, pass);
        if !pass {
          ids := ids - {id};
          count := count - 1;
          removed := removed + {id};
        }
        remaining := remaining - {id};
      }
      RecheckDone(res, admitted, removed);
      r := Results(ids, count);
    }

    /** The comparator of the sort asks each filter for its weight, which
        fills the filter's cache; the filters come out ordered by it,
        lightest first. */
    static method RankFilters(fs: seq<Filter>, index: seq<IndexEntry>, numKeys: nat) returns (sorted: seq<Ranked>)
      requires index != [] ==> numKeys > 0
      requires forall i :: 0 <= i < |fs| ==> fs[i].CacheAgrees(index, numKeys)
      modifies fs
      ensures RankSorted(sorted) && WeightsAgree(sorted, index, numKeys)
      ensures multiset(FiltersOf(sorted)) == multiset(fs)
      ensures forall i :: 0 <= i < |fs| ==> fs[i].CacheAgrees(index, numKeys)
    {
      var ranked: seq<Ranked> := [];
      var i := 0;
      while i < |fs|
        invariant i <= |fs| && |ranked| == i
        invariant forall j :: 0 <= j < i ==> ranked[j] == Ranked(fs[j], Weight(fs[j].spec, index, numKeys))
        invariant forall j :: 0 <= j < |fs| ==> fs[j].CacheAgrees(index, numKeys)
      {
        var w := fs[i].GetWeight(index, numKeys);
        ranked := ranked + [Ranked(fs[i], w)];
        i := i + 1;
      }
      assert FiltersOf(ranked) == fs;
      sorted := SortRanked(ranked);
      SortRankedSorted(ranked);
      SortRankedMembers(ranked);
      SortRankedFilters(ranked);
      MembersKeepWeights(ranked, sorted, index, numKeys);
    }

    /** filters.sort with the weight comparator: the same filters, ordered by
        weight, each with its cache filled or still empty. */
    method SortFilters(index: seq<IndexEntry>, numKeys: nat)
      requires index != [] ==> numKeys > 0
      requires forall i :: 0 <= i < |filters| ==> filters[i].CacheAgrees(index, numKeys)
      modifies this, filters
      ensures multiset(filters) == multiset(old(filters))
      ensures SortedByWeight(Specs(filters), index, numKeys)
      ensures forall i :: 0 <= i < |filters| ==> filters[i].CacheAgrees(index, numKeys)
    {
      var sorted := RankFilters(filters, index, numKeys);
      ghost var before := filters;
      filters := FiltersOf(sorted);
      RankedFiltersAreSorted(sorted, index, numKeys);
      forall j | 0 <= j < |filters| ensures filters[j].CacheAgrees(index, numKeys) {
        assert filters[j] in multiset(before);
      }
    }

    /** The for loop of select over the ordered filters: the first always
        scans the index; each later one scans again while more than a quarter
        of the table's rows are counted, and otherwise checks the loaded
        records; a seek that finds nothing empties the results and ends it. */
    static method RunPasses(primary: seq<PrimaryEntry>, index: seq<IndexEntry>, specs: seq<FilterSpec>, numKeys: nat,
                            ghost plans: seq<Plan>)
      returns (ids: set<nat>)
      requires |plans| == |specs|
      requires forall k {:trigger specs[k]} :: 0 <= k < |specs| ==> plans[k] == PlanFor(primary, index, specs[k])
      ensures ids == Execute(plans, numKeys)
    {
      var results := Results({}, 0);
      var k := 0;
      while k < |specs|
        invariant k <= |specs|
        invariant Run(plans, numKeys, k) == Some(results)
      {
        var r := RunPassAt(primary, index, specs, numKeys, k, results, plans);
        if r.None? {
          FailedSeekEndsQuery(plans, numKeys, k + 1, |plans|);
          return {};
        }
        results := r.value;
        k := k + 1;
      }
      ids := results.ids;
      ExecuteAfterRun(plans, numKeys, results);
    }

    /** Filter `k` of that loop, taking the results of the filters before it. */
    static method RunPassAt(primary: seq<PrimaryEntry>, index: seq<IndexEntry>, specs: seq<FilterSpec>, numKeys: nat,
                            k: nat, results: Results, ghost plans: seq<Plan>)
      returns (r: Option<Results>)
      requires k < |specs| == |plans| && plans[k] == PlanFor(primary, index, specs[k])
      requires Run(plans, numKeys, k) == Some(results)
      ensures r == Run(plans, numKeys, k + 1)
    {
      r := RunPass(primary, index, specs[k], numKeys, k == 0, results, plans[k]);
      RunNext(plans, numKeys, k, results);
    }

    /** The body of that loop for one filter. */
    static method RunPass(primary: seq<PrimaryEntry>, index: seq<IndexEntry>, f: FilterSpec, numKeys: nat, first: bool,
                          results: Results, ghost plan: Plan)
      returns (r: Option<Results>)
      requires plan == PlanFor(primary, index, f)
      ensures r == Pass(plan, numKeys, first, results)
    {
      if first || 4 * results.count > numKeys {
        var prev := if first then None else Some(results.ids);
        r := ScanIndex(index, f, prev);
      } else {
        var next := Recheck(primary, f, results);
        r := Some(next);
      }
    }

    /** The final loop of select: one row per surviving id, in the given order. */
    static method Project(typeName: string, primary: seq<PrimaryEntry>, projection: Projection, ordered: seq<nat>)
      returns (rows: seq<Row>)
      ensures rows == Rows(typeName, primary, projection, ordered)
    {
      rows := [];
      var j := 0;
      while j < |ordered|
        invariant j <= |ordered| && |rows| == j
        invariant forall q :: 0 <= q < j ==> rows[q] == RowFor(typeName, primary, projection, ordered[q])
      {
        rows := rows + [RowFor(typeName, primary, projection, ordered[j])];
        j := j + 1;
      }
    }

    /** select: order the filters by weight, run the passes, and list the
        surviving ids, each once and in the model's ascending order, as ids,
        entity wrappers, or values of the requested property. */
    method Select(property: Option<string>) returns (rows: seq<Row>)
      requires table.Valid()
      requires forall i :: 0 <= i < |filters| ==> filters[i].CacheAgrees(table.index, |table.primary|)
      modifies this, filters
      ensures multiset(filters) == multiset(old(filters))
      ensures multiset(Specs(filters)) == multiset(Specs(old(filters)))
      ensures SortedByWeight(Specs(filters), table.index, |table.primary|)
      ensures forall i :: 0 <= i < |filters| ==> filters[i].CacheAgrees(table.index, |table.primary|)
      ensures rows == Rows(table.typeName, table.primary, ProjectionOf(property),
                           Ascending(Execute(PlansFor(table.primary, table.index, Specs(filters)), |table.primary|)))
    {
      var numKeys := |table.primary|;
      var index := table.index;
      ghost var before := filters;
      SortFilters(index, numKeys);
      SpecsPermutation(filters, before);
      PlansForEach(table.primary, index, Specs(filters));
      var ids := RunPasses(table.primary, index, Specs(filters), numKeys, PlansFor(table.primary, index, Specs(filters)));
      rows := Project(table.typeName, table.primary, ProjectionOf(property), Ascending(ids));
    }
  }
}
