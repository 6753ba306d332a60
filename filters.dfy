/** One query filter, as addFilter builds it: its operator, the index key it
    seeks, the verdict it gives on a decoded index key (checkProperty) or on a
    loaded record (checkObject), and its weight, the estimate the planner
    orders filters by. */
module Filters {
  import opened Wrappers
  import opened Values
  import opened IndexKeys
  import opened Cursor

  const EQUAL := 0
  const GREATER_THAN := 1
  const GREATER_THAN_OR_EQUAL := 2
  const LESS_THAN := 3
  const LESS_THAN_OR_EQUAL := 4

  datatype Operator = Equal | GreaterThan | GreaterThanOrEqual | LessThan | LessThanOrEqual {
    /** The operator's numeric constant. */
    function Code(): int {
      match this
      case Equal => EQUAL
      case GreaterThan => GREATER_THAN
      case GreaterThanOrEqual => GREATER_THAN_OR_EQUAL
      case LessThan => LESS_THAN
      case LessThanOrEqual => LESS_THAN_OR_EQUAL
    }
  }

  /** The filter's property name, operator and argument value. */
  datatype FilterSpec = FilterSpec(name: string, op: Operator, value: Value) {
    /** The argument as checkProperty compares it (getComparableValue at addFilter). */
    function Comparable(): Scalar {
      ComparableValue(value)
    }
  }

  /** checkProperty's three results: true, 0 and false. */
  datatype Verdict = Accept | Skip | Stop

  /** The relation each operator means, between a property value and the argument. */
  predicate Satisfies(op: Operator, v: Scalar, c: Scalar) {
    match op
    case Equal => LooseEquals(v, c)
    case LessThan => Less(v, c)
    case LessThanOrEqual => LessOrEqual(v, c)
    case GreaterThan => Less(c, v)
    case GreaterThanOrEqual => LessOrEqual(c, v)
  }

  /** checkProperty: false when the decoded name is another property (the scan
      has left this property's keys); otherwise the comparison, except that
      GREATER_THAN answers 0 on an equal value. */
  function CheckProperty(f: FilterSpec, p: Property): (v: Verdict)
    ensures p.name != f.name ==> v == Stop
    ensures v == Accept <==> p.name == f.name && Satisfies(f.op, p.value, f.Comparable())
    ensures v == Skip <==> p.name == f.name && f.op == GreaterThan && LooseEquals(p.value, f.Comparable())
  {
    if p.name != f.name then Stop
    else
      var v, c := p.value, f.Comparable();
      EqualIsNotGreater(v, c);
      match f.op
      case Equal => if LooseEquals(v, c) then Accept else Stop
      case LessThan => if Less(v, c) then Accept else Stop
      case LessThanOrEqual => if LessOrEqual(v, c) then Accept else Stop
      case GreaterThan =>
        if LooseEquals(v, c) then Skip
        else if Less(c, v) then Accept
        else Stop
      case GreaterThanOrEqual => if LessOrEqual(c, v) then Accept else Stop
  }

  /** No value is both equal to and greater than the argument. */
  lemma EqualIsNotGreater(v: Scalar, c: Scalar)
    ensures LooseEquals(v, c) ==> !Less(c, v)
  {
    if v.S? {
      StrLessIrreflexive(v.s);
    }
  }

  /** checkObject: a missing record fails; otherwise the wrapper's property,
      made comparable, goes through checkProperty, and only `true` passes
      (the caller negates the result, so 0 fails like false). The record
      comes from table.retrieve, so the property is read through the entity
      wrapper. */
  predicate CheckObject(f: FilterSpec, s: Option<Record>) {
    s.Some? && CheckProperty(f, Property(f.name, ComparableValue(WrapperGet(s.value, f.name)))) == Accept
  }

  /** A loaded record passes exactly when its property, as the wrapper hands
      it back, satisfies the operator: a stored date is compared by its
      milliseconds and a stored key by its $ref. */
  lemma CheckObjectMeansSatisfies(f: FilterSpec, s: Option<Record>)
    ensures CheckObject(f, s) <==> s.Some? && Satisfies(f.op, ComparableValue(WrapperGet(s.value, f.name)), f.Comparable())
    ensures s.Some? && Get(s.value, f.name).StoredDate? ==>
              (CheckObject(f, s) <==> Satisfies(f.op, N(Get(s.value, f.name).timestamp), f.Comparable()))
    ensures s.Some? && Get(s.value, f.name).Key? ==>
              (CheckObject(f, s) <==> Satisfies(f.op, S(Get(s.value, f.name).ref), f.Comparable()))
  {
  }

  /** Read through the wrapper, a stored date passes a Date filter by its
      milliseconds, and a stored key passes an entity filter by its $ref. */
  lemma StoredDateAndKeyCompare(name: string, t: int, ref: string)
    ensures CheckObject(FilterSpec(name, GreaterThan, JsDate(t - 1000)), Some(map[name := StoredDate(t)]))
    ensures !CheckObject(FilterSpec(name, GreaterThan, JsDate(t)), Some(map[name := StoredDate(t)]))
    ensures CheckObject(FilterSpec(name, Equal, Entity(ref)), Some(map[name := Key(ref)]))
  {
  }

  /** GREATER_THAN on a value equal to the argument: the index walk neither takes
      the entry nor stops (0), while the loaded-record check drops the record. */
  lemma GreaterThanOnEqualValue(name: string, arg: Value, rec: Record)
    requires LooseEquals(ComparableValue(WrapperGet(rec, name)), ComparableValue(arg))
    ensures CheckProperty(FilterSpec(name, GreaterThan, arg), Property(name, ComparableValue(WrapperGet(rec, name)))) == Skip
    ensures !CheckObject(FilterSpec(name, GreaterThan, arg), Some(rec))
  {
  }

  /** initIndexKey: the key for the argument, without its value exactly for the
      operators from LESS_THAN on (LESS_THAN and LESS_THAN_OR_EQUAL), whose scan
      starts at the first key of the argument's kind. */
  function InitIndexKey(f: FilterSpec): (k: IndexKey)
    ensures f.op == LessThan || f.op == LessThanOrEqual ==> k == PropertyToIndexKey(f.name, f.value, true)
    ensures !(f.op == LessThan || f.op == LessThanOrEqual) ==> k == PropertyToIndexKey(f.name, f.value, false)
  {
    PropertyToIndexKey(f.name, f.value, f.op.Code() >= LESS_THAN)
  }

  /** initCursor: an exact seek (getSearchKey) for EQUAL, a range seek
      (getSearchKeyRange) for every other operator. */
  function InitCursor(index: seq<IndexEntry>, f: FilterSpec): Option<nat> {
    if f.op.Code() == EQUAL then SearchKey(index, InitIndexKey(f))
    else SearchKeyRange(index, InitIndexKey(f))
  }

  /** Where initCursor leaves the cursor: for EQUAL, on the first entry whose
      key is exactly the argument's key, and nowhere when there is none; for
      any other operator, on the first entry whose key is not below the seek
      key, and nowhere when every key is below it. */
  lemma InitCursorLands(index: seq<IndexEntry>, f: FilterSpec)
    ensures f.op == Equal && InitCursor(index, f).Some? ==>
              var p := InitCursor(index, f).value;
              p < |index| && index[p].key == InitIndexKey(f) && forall q :: 0 <= q < p ==> index[q].key != InitIndexKey(f)
    ensures f.op == Equal && InitCursor(index, f).None? ==> forall q :: 0 <= q < |index| ==> index[q].key != InitIndexKey(f)
    ensures f.op != Equal && InitCursor(index, f).Some? ==>
              var p := InitCursor(index, f).value;
              p < |index| && KeyLe(InitIndexKey(f), index[p].key)
              && forall q :: 0 <= q < p ==> !KeyLe(InitIndexKey(f), index[q].key)
    ensures f.op != Equal && InitCursor(index, f).None? ==> forall q :: 0 <= q < |index| ==> !KeyLe(InitIndexKey(f), index[q].key)
  {
  }

  /** Math.round((dup / numKeys - 0.5) * 10) in exact arithmetic: the integer
      nearest to 10 * dup / numKeys - 5, halves rounded up. A key that is present
      weighs from -5 (rare) to 5 (on every row). */
  function EqualWeight(dup: nat, numKeys: nat): (w: int)
    requires 0 < dup && 0 < numKeys
    ensures -5 <= w
    ensures dup <= numKeys ==> w <= 5
  {
    var w := (20 * dup - 9 * numKeys) / (2 * numKeys);
    WeightBounds(dup, numKeys, w);
    w
  }

  /** From the rounding: 2n(w + 1) > 20 dup - 9n > -10n gives w >= -5, and
      for dup <= n, 2nw <= 20 dup - 9n <= 11n gives w <= 5. */
  lemma WeightBounds(dup: nat, n: nat, w: int)
    requires 0 < dup && 0 < n && w == (20 * dup - 9 * n) / (2 * n)
    ensures -5 <= w && (dup <= n ==> w <= 5)
  {
    RoundingBounds(20 * dup - 9 * n, 2 * n, w);
    MulCancel(2 * n, w + 1, -5);
    if dup <= n {
      MulCancel(2 * n, 6, w);
    }
  }

  /** Multiplying by a positive number keeps a strict order, and only it. */
  lemma MulCancel(b: int, x: int, y: int)
    requires b > 0
    ensures b * x > b * y <==> x > y
  {
    assert b * x - b * y == b * (x - y);
  }

  /** The weight is the rounding of 10 * dup / numKeys - 5: it is the largest
      integer w with w <= 10 * dup / numKeys - 4.5. */
  lemma EqualWeightIsRounded(dup: nat, numKeys: nat)
    requires 0 < dup && 0 < numKeys
    ensures 2 * numKeys * EqualWeight(dup, numKeys) <= 20 * dup - 9 * numKeys
    ensures 20 * dup - 9 * numKeys < 2 * numKeys * (EqualWeight(dup, numKeys) + 1)
  {
    RoundingBounds(20 * dup - 9 * numKeys, 2 * numKeys, EqualWeight(dup, numKeys));
  }

  lemma RoundingBounds(a: int, b: int, q: int)
    requires b > 0 && q == a / b
    ensures b * q <= a < b * (q + 1)
  {
  }

  /** getWeight: 0 for every operator but EQUAL; for EQUAL, -5 when the exact
      key is absent from the index, and otherwise the rounded share of the table
      that carries the key. */
  function Weight(f: FilterSpec, index: seq<IndexEntry>, numKeys: nat): (w: int)
    requires index != [] ==> numKeys > 0
    ensures w >= -5
    ensures f.op != Equal ==> w == 0
    ensures f.op == Equal && SearchKey(index, InitIndexKey(f)).None? ==> w == -5
  {
    if f.op.Code() != EQUAL then 0
    else match SearchKey(index, InitIndexKey(f))
      case None => -5
      case Some(_) => EqualWeight(DupCount(index, InitIndexKey(f)), numKeys)
  }

  /** getWeight as evidently intended: an absent EQUAL key weighs -6, below
      every key that is present (those weigh -5 at least), so that it always
      sorts first. */
  function WeightCorrected(f: FilterSpec, index: seq<IndexEntry>, numKeys: nat): (w: int)
    requires index != [] ==> numKeys > 0
    ensures w == -6 <==> f.op == Equal && SearchKey(index, InitIndexKey(f)).None?
    ensures w != -6 ==> w == Weight(f, index, numKeys)
  {
    if f.op.Code() == EQUAL && SearchKey(index, InitIndexKey(f)).None? then -6
    else Weight(f, index, numKeys)
  }

  /** A filter object: its definition never changes; `weight` is the cache
      getWeight fills in (NaN until then). */
  class Filter {
    const spec: FilterSpec
    var weight: Option<int>

    constructor (spec: FilterSpec)
      ensures this.spec == spec && weight == None
    {
      this.spec := spec;
      weight := None;
    }

    /** The cache holds nothing, or the weight computed on this index. */
    predicate CacheAgrees(index: seq<IndexEntry>, numKeys: nat)
      requires index != [] ==> numKeys > 0
      reads this
    {
      weight.None? || weight == Some(Weight(spec, index, numKeys))
    }

    /** getWeight: a weight once computed for a present EQUAL key is cached in
        `weight` and returned from then on; the -5 of an absent key is not. */
    method GetWeight(index: seq<IndexEntry>, numKeys: nat) returns (w: int)
      requires index != [] ==> numKeys > 0
      modifies this
      ensures spec.op != Equal ==> w == 0 && weight == old(weight)
      ensures spec.op == Equal && old(weight).Some? ==> w == old(weight).value && weight == old(weight)
      ensures spec.op == Equal && old(weight).None? ==> w == Weight(spec, index, numKeys)
      ensures spec.op == Equal && old(weight).None? ==>
                weight == if SearchKey(index, InitIndexKey(spec)).None? then None else Some(w)
      ensures old(CacheAgrees(index, numKeys)) ==> CacheAgrees(index, numKeys) && w == Weight(spec, index, numKeys)
    {
      if spec.op.Code() != EQUAL {
        return 0;
      }
      if weight.None? {
        var key := InitIndexKey(spec);
        var found := SearchKey(index, key);
        if found.None? {
          return -5;
        }
        var count := DupCount(index, key);
        weight := Some(EqualWeight(count, numKeys));
      }
      w := weight.value;
    }
  }
}
