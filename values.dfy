/** Property values as the store sees them, the scalars they are compared as,
    and JavaScript's comparison operators restricted to one kind of value. */
module Values {

  /** A JavaScript property value. Numbers are modelled as integers. */
  datatype Value =
    | Undefined
    | Null
    | Str(s: string)
    | Num(n: int)
    | Bool(b: bool)
    | JsDate(millis: int)         // a JavaScript Date or a java.util.Date
    | StoredDate(timestamp: int)  // the store's serialised date, an object with $timestamp
    | Key(ref: string)            // the store's key object, whose $ref is "type:id"
    | Entity(ref: string)         // a Storable wrapper, whose _key.$ref is ref
    | Arr(items: seq<Value>)
    | Obj                         // any other object

  /** A stored record: property name to value (the JSON payload of one row). */
  type Record = map<string, Value>

  /** `obj[name]`: a missing property reads as undefined. */
  function Get(r: Record, name: string): (v: Value)
    ensures name !in r ==> v == Undefined
    ensures name in r ==> v == r[name]
  {
    if name in r then r[name] else Undefined
  }

  /** `s[name]` on the entity wrapper (a Storable) over a record: a stored
      date is handed back as a Date, and a stored key as the wrapper of the
      entity it names; every other property as it is stored. */
  function WrapperGet(r: Record, name: string): (v: Value)
    ensures Get(r, name).StoredDate? ==> v == JsDate(Get(r, name).timestamp)
    ensures Get(r, name).Key? ==> v == Entity(Get(r, name).ref)
    ensures !Get(r, name).StoredDate? && !Get(r, name).Key? ==> v == Get(r, name)
  {
    match Get(r, name)
    case StoredDate(t) => JsDate(t)
    case Key(ref) => Entity(ref)
    case other => other
  }

  /** `typeof value === 'object'` (null included, as in JavaScript). */
  predicate IsObject(v: Value) {
    v.Null? || v.JsDate? || v.StoredDate? || v.Key? || v.Entity? || v.Arr? || v.Obj?
  }

  /** The storeutils helpers, as far as this model needs them. */
  predicate IsKey(v: Value) { v.Key? }
  predicate IsStorableDate(v: Value) { v.StoredDate? }
  predicate IsStorable(v: Value) { v.Entity? }

  /** The longest string that is put into the index. */
  const MaxIndexedStringLength := 200

  /** isIndexableProperty: strings of at most 200 characters; among objects only
      null, arrays, keys and stored dates; every value that is not an object. */
  function IsIndexableProperty(v: Value): (b: bool)
    ensures b <==> !(v.Str? && |v.s| > MaxIndexedStringLength) && !v.Obj? && !v.JsDate? && !v.Entity?
  {
    if v.Str? then
      |v.s| <= MaxIndexedStringLength
    else if IsObject(v) then
      v.Null? || v.Arr? || IsKey(v) || IsStorableDate(v)
    else
      true
  }

  /** A scalar a filter compares: what getComparableValue returns, and what
      indexKeyToProperty decodes. Objects it leaves alone are `Opaque`. */
  datatype Scalar = Undef | NullS | S(s: string) | N(n: int) | B(b: bool) | Opaque

  /** getComparableValue: a Storable becomes its key's $ref string, a Date its
      epoch milliseconds; everything else is passed through. */
  function ComparableValue(v: Value): (c: Scalar)
    ensures c.Opaque? <==> v.StoredDate? || v.Key? || v.Arr? || v.Obj?
    ensures c.S? <==> v.Str? || v.Entity?
    ensures c.N? <==> v.Num? || v.JsDate?
    ensures c.Undef? <==> v.Undefined?
    ensures c.NullS? <==> v.Null?
    ensures c.B? <==> v.Bool?
    ensures v.Entity? ==> c.s == v.ref
    ensures v.Str? ==> c.s == v.s
    ensures v.JsDate? ==> c.n == v.millis
    ensures v.Num? ==> c.n == v.n
    ensures v.Bool? ==> c.b == v.b
  {
    if IsStorable(v) then S(v.ref)
    else if v.JsDate? then N(v.millis)
    else match v
      case Undefined => Undef
      case Null => NullS
      case Str(s) => S(s)
      case Num(n) => N(n)
      case Bool(b) => B(b)
      case _ => Opaque
  }

  /** JavaScript's string order on code units, modelled on characters:
      a proper prefix comes first, otherwise the first differing character decides. */
  predicate StrLess(a: string, b: string)
    decreases |a|
  {
    if |b| == 0 then false
    else if |a| == 0 then true
    else if a[0] != b[0] then a[0] < b[0]
    else StrLess(a[1..], b[1..])
  }

  lemma {:induction false} StrLessIrreflexive(a: string)
    ensures !StrLess(a, a)
    decreases |a|
  {
    if |a| > 0 {
      StrLessIrreflexive(a[1..]);
    }
  }

  lemma {:induction false} StrLessTransitive(a: string, b: string, c: string)
    requires StrLess(a, b) && StrLess(b, c)
    ensures StrLess(a, c)
    decreases |a|
  {
    if |a| > 0 && a[0] == b[0] && b[0] == c[0] {
      StrLessTransitive(a[1..], b[1..], c[1..]);
    }
  }

  lemma {:induction false} StrLessTotal(a: string, b: string)
    requires a != b
    ensures StrLess(a, b) || StrLess(b, a)
    decreases |a|
  {
    if |a| > 0 && |b| > 0 && a[0] == b[0] {
      assert a == [a[0]] + a[1..] && b == [b[0]] + b[1..];
      StrLessTotal(a[1..], b[1..]);
    }
  }

  lemma {:induction false} StrLessAsymmetric(a: string, b: string)
    requires StrLess(a, b)
    ensures !StrLess(b, a)
    decreases |a|
  {
    if |a| > 0 && a[0] == b[0] {
      StrLessAsymmetric(a[1..], b[1..]);
    }
  }

  /** JavaScript `a == b` between scalars of one kind; null and undefined are
      loosely equal to each other. Comparisons across kinds are false here. */
  predicate LooseEquals(a: Scalar, b: Scalar) {
    match (a, b)
    case (Undef, Undef) => true
    case (Undef, NullS) => true
    case (NullS, Undef) => true
    case (NullS, NullS) => true
    case (S(x), S(y)) => x == y
    case (N(x), N(y)) => x == y
    case (B(x), B(y)) => x == y
    case _ => false
  }

  /** JavaScript `a < b` between two strings, two numbers or two booleans. */
  predicate Less(a: Scalar, b: Scalar) {
    match (a, b)
    case (S(x), S(y)) => StrLess(x, y)
    case (N(x), N(y)) => x < y
    case (B(x), B(y)) => !x && y
    case _ => false
  }

  /** JavaScript `a <= b` between two strings, two numbers or two booleans, and
      `null <= null`, which holds (both sides convert to 0; undefined converts to
      NaN, so `undefined <= undefined` and `undefined <= null` do not). */
  predicate LessOrEqual(a: Scalar, b: Scalar) {
    match (a, b)
    case (NullS, NullS) => true
    case (S(x), S(y)) => x == y || StrLess(x, y)
    case (N(x), N(y)) => x <= y
    case (B(x), B(y)) => x ==> y
    case _ => false
  }

  /** Same kind of scalar, so that the comparisons above are defined. */
  predicate SameKind(a: Scalar, b: Scalar) {
    (a.S? && b.S?) || (a.N? && b.N?) || (a.B? && b.B?)
  }

  /** Within one kind the comparisons form a total order: `<=` is `<` or `==`,
      and exactly one of `a < b`, `a == b`, `b < a` holds. */
  lemma {:induction false} ComparisonTrichotomy(a: Scalar, b: Scalar)
    requires SameKind(a, b)
    ensures LessOrEqual(a, b) <==> Less(a, b) || LooseEquals(a, b)
    ensures Less(a, b) || LooseEquals(a, b) || Less(b, a)
    ensures !(Less(a, b) && Less(b, a))
    ensures !(Less(a, b) && LooseEquals(a, b))
  {
    match (a, b)
    case (S(x), S(y)) =>
      if x != y {
        StrLessTotal(x, y);
      } else {
        StrLessIrreflexive(x);
      }
      if StrLess(x, y) {
        StrLessAsymmetric(x, y);
      }
    case (N(x), N(y)) =>
    case (B(x), B(y)) =>
  }

  /** Within one kind, `<=` is transitive, and `<=` followed by `<` is `<`. */
  lemma LessOrEqualTransitive(a: Scalar, b: Scalar, c: Scalar)
    requires SameKind(a, b) && SameKind(b, c)
    requires LessOrEqual(a, b) && LessOrEqual(b, c)
    ensures LessOrEqual(a, c)
  {
    if a.S? && a.s != b.s && b.s != c.s {
      StrLessTransitive(a.s, b.s, c.s);
    }
  }

  lemma LessOrEqualThenLess(a: Scalar, b: Scalar, c: Scalar)
    requires SameKind(a, b) && SameKind(b, c)
    requires LessOrEqual(a, b) && Less(b, c)
    ensures Less(a, c)
  {
    if a.S? && a.s != b.s {
      StrLessTransitive(a.s, b.s, c.s);
    }
  }
}
