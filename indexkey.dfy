/** The index-key codec: propertyToIndexKey writes a tuple of
    (property name, one-byte type tag, value) and indexKeyToProperty reads it back.
    A key is modelled as the sequence of tuple fields (tokens) it is written as;
    the B-tree orders keys field by field, and a key that is a proper prefix of
    another sorts first, as the tuple format's byte order does. */
module IndexKeys {
  import opened Wrappers
  import opened Values

  const TYPE_NULL := 0
  const TYPE_STRING := 1
  const TYPE_NUMBER := 2
  const TYPE_BOOLEAN := 3
  const TYPE_DATE := 4
  const TYPE_REFERENCE := 5

  /** One field of a tuple: writeString, writeByte, writeSortedDouble,
      writeBoolean, writeLong. */
  datatype Token =
    | TString(s: string)
    | TByte(b: int)
    | TSortedDouble(d: int)
    | TBoolean(z: bool)
    | TLong(l: int)

  type IndexKey = seq<Token>

  /** What indexKeyToProperty returns: the property name and the decoded value. */
  datatype Property = Property(name: string, value: Scalar)

  /** propertyToIndexKey: the name, then the tag of the value's kind, then the
      value itself unless omitValue is set. Values of no recognised kind get
      TYPE_NULL and no payload. */
  function PropertyToIndexKey(name: string, value: Value, omitValue: bool): (k: IndexKey)
    ensures 2 <= |k| <= 3 && k[0] == TString(name)
    ensures k[1].TByte? && TYPE_NULL <= k[1].b <= TYPE_REFERENCE
    ensures |k| == 3 <==> !omitValue && k[1].b != TYPE_NULL
  {
    var head := [TString(name)];
    if value.Str? then
      head + [TByte(TYPE_STRING)] + (if omitValue then [] else [TString(value.s)])
    else if value.Num? then
      head + [TByte(TYPE_NUMBER)] + (if omitValue then [] else [TSortedDouble(value.n)])
    else if value.Bool? then
      head + [TByte(TYPE_BOOLEAN)] + (if omitValue then [] else [TBoolean(value.b)])
    else if IsStorableDate(value) then
      head + [TByte(TYPE_DATE)] + (if omitValue then [] else [TLong(value.timestamp)])
    else if value.JsDate? then
      head + [TByte(TYPE_DATE)] + (if omitValue then [] else [TLong(value.millis)])
    else if IsKey(value) then
      head + [TByte(TYPE_REFERENCE)] + (if omitValue then [] else [TString(value.ref)])
    else
      head + [TByte(TYPE_NULL)]
  }

  /** The tag propertyToIndexKey writes for a value. */
  function TagOf(value: Value): int {
    PropertyToIndexKey("", value, true)[1].b
  }

  /** indexKeyToProperty: read the name and the tag, then a value of the tag's
      kind. TYPE_NULL and unrecognised tags give undefined. `None` is a tuple too
      short or of the wrong shape, on which the tuple reader throws. */
  function IndexKeyToProperty(k: IndexKey): (r: Option<Property>)
    ensures r.Some? ==> |k| >= 2 && k[0] == TString(r.value.name) && k[1].TByte?
    ensures r.Some? && !(TYPE_STRING <= k[1].b <= TYPE_REFERENCE) ==> r.value.value == Undef
    ensures |k| >= 2 && k[0].TString? && k[1].TByte? && !(TYPE_STRING <= k[1].b <= TYPE_REFERENCE) ==> r.Some?
  {
    if |k| < 2 || !k[0].TString? || !k[1].TByte? then None
    else
      var name, tag := k[0].s, k[1].b;
      if tag == TYPE_STRING || tag == TYPE_REFERENCE then
        if |k| >= 3 && k[2].TString? then Some(Property(name, S(k[2].s))) else None
      else if tag == TYPE_NUMBER then
        if |k| >= 3 && k[2].TSortedDouble? then Some(Property(name, N(k[2].d))) else None
      else if tag == TYPE_BOOLEAN then
        if |k| >= 3 && k[2].TBoolean? then Some(Property(name, B(k[2].z))) else None
      else if tag == TYPE_DATE then
        if |k| >= 3 && k[2].TLong? then Some(Property(name, N(k[2].l))) else None
      else
        Some(Property(name, Undef))
  }

  /** The scalar a full key of `value` decodes to. */
  function IndexedScalar(value: Value): Scalar {
    match value
    case Str(s) => S(s)
    case Num(n) => N(n)
    case Bool(b) => B(b)
    case StoredDate(t) => N(t)
    case JsDate(m) => N(m)
    case Key(r) => S(r)
    case _ => Undef
  }

  /** Decoding the key written for (name, value) gives the name back, and the
      value: strings, numbers and booleans as they are, dates as epoch
      milliseconds, references as their $ref string, anything else undefined. */
  lemma RoundTrip(name: string, value: Value)
    ensures IndexKeyToProperty(PropertyToIndexKey(name, value, false)) == Some(Property(name, IndexedScalar(value)))
    ensures value.Str? ==> IndexedScalar(value) == S(value.s)
    ensures value.Num? ==> IndexedScalar(value) == N(value.n)
    ensures value.Bool? ==> IndexedScalar(value) == B(value.b)
    ensures value.JsDate? ==> IndexedScalar(value) == N(value.millis)
    ensures value.StoredDate? ==> IndexedScalar(value) == N(value.timestamp)
    ensures value.Key? ==> IndexedScalar(value) == S(value.ref)
    ensures TagOf(value) == TYPE_NULL <==> IndexedScalar(value) == Undef
  {
  }

  /** A value of no recognised kind (undefined, null, an array, a plain object,
      a stored entity) is written as the name and TYPE_NULL alone, with or
      without omitValue, and reads back as undefined. */
  lemma UnknownKindIsNull(name: string, value: Value, omitValue: bool)
    requires !(value.Str? || value.Num? || value.Bool? || value.StoredDate? || value.JsDate? || value.Key?)
    ensures PropertyToIndexKey(name, value, omitValue) == [TString(name), TByte(TYPE_NULL)]
    ensures IndexKeyToProperty(PropertyToIndexKey(name, value, omitValue)) == Some(Property(name, Undef))
  {
  }

  /** Values that compare through the index exactly as through the loaded
      record: the decoded key and getComparableValue agree on them. */
  predicate SelfComparable(value: Value) {
    value.Undefined? || value.Null? || value.Str? || value.Num? || value.Bool? || value.JsDate?
  }

  lemma IndexAgreesWithComparable(value: Value)
    requires SelfComparable(value)
    ensures LooseEquals(IndexedScalar(value), ComparableValue(value))
    ensures value.Undefined? || value.Null? || IndexedScalar(value) == ComparableValue(value)
  {
  }

  /** The record check reads every stored property that the index keys with
      a value as the index decodes that value: a stored date by its
      milliseconds, a stored key by its $ref, strings, numbers and booleans
      as they are. */
  lemma WrapperReadsAsIndexed(rec: Record, name: string)
    requires TagOf(Get(rec, name)) != TYPE_NULL
    ensures ComparableValue(WrapperGet(rec, name)) == IndexedScalar(Get(rec, name))
  {
  }

  // ---------------------------------------------------------------------
  // Key order

  function Rank(t: Token): nat {
    match t
    case TString(_) => 0
    case TByte(_) => 1
    case TSortedDouble(_) => 2
    case TBoolean(_) => 3
    case TLong(_) => 4
  }

  /** Order of two fields at the same position. Fields of one kind compare by
      value (writeSortedDouble and writeLong preserve numeric order); fields of
      different kinds never meet at one position in keys of one name and tag,
      and are ordered by kind. */
  predicate TokenLess(x: Token, y: Token) {
    if Rank(x) != Rank(y) then Rank(x) < Rank(y)
    else match (x, y)
      case (TString(a), TString(b)) => StrLess(a, b)
      case (TByte(a), TByte(b)) => a < b
      case (TSortedDouble(a), TSortedDouble(b)) => a < b
      case (TBoolean(a), TBoolean(b)) => !a && b
      case (TLong(a), TLong(b)) => a < b
      case _ => false
  }

  lemma TokenLessIrreflexive(x: Token)
    ensures !TokenLess(x, x)
  {
    if x.TString? {
      StrLessIrreflexive(x.s);
    }
  }

  lemma TokenLessTransitive(x: Token, y: Token, z: Token)
    requires TokenLess(x, y) && TokenLess(y, z)
    ensures TokenLess(x, z)
  {
    if x.TString? && y.TString? && z.TString? {
      StrLessTransitive(x.s, y.s, z.s);
    }
  }

  lemma TokenLessTotal(x: Token, y: Token)
    requires x != y
    ensures TokenLess(x, y) || TokenLess(y, x)
  {
    if x.TString? && y.TString? {
      StrLessTotal(x.s, y.s);
    }
  }

  lemma TokenLessAsymmetric(x: Token, y: Token)
    requires TokenLess(x, y)
    ensures !TokenLess(y, x)
  {
    if x.TString? && y.TString? {
      StrLessAsymmetric(x.s, y.s);
    }
  }

  /** The B-tree's key order: field by field, a proper prefix first. */
  predicate KeyLess(a: IndexKey, b: IndexKey)
    decreases |a|
  {
    if |b| == 0 then false
    else if |a| == 0 then true
    else if a[0] != b[0] then TokenLess(a[0], b[0])
    else KeyLess(a[1..], b[1..])
  }

  predicate KeyLe(a: IndexKey, b: IndexKey) {
    a == b || KeyLess(a, b)
  }

  lemma {:induction false} KeyLessIrreflexive(a: IndexKey)
    ensures !KeyLess(a, a)
    decreases |a|
  {
    if |a| > 0 {
      KeyLessIrreflexive(a[1..]);
    }
  }

  lemma {:induction false} KeyLessTransitive(a: IndexKey, b: IndexKey, c: IndexKey)
    requires KeyLess(a, b) && KeyLess(b, c)
    ensures KeyLess(a, c)
    decreases |a|
  {
    if |a| > 0 {
      if a[0] == b[0] && b[0] == c[0] {
        KeyLessTransitive(a[1..], b[1..], c[1..]);
      } else if a[0] != b[0] && b[0] != c[0] {
        TokenLessTransitive(a[0], b[0], c[0]);
        if a[0] == c[0] {
          TokenLessAsymmetric(a[0], b[0]);
        }
      }
    }
  }

  lemma {:induction false} KeyLessTotal(a: IndexKey, b: IndexKey)
    requires a != b
    ensures KeyLess(a, b) || KeyLess(b, a)
    decreases |a|
  {
    if |a| > 0 && |b| > 0 {
      if a[0] == b[0] {
        assert a == [a[0]] + a[1..] && b == [b[0]] + b[1..];
        KeyLessTotal(a[1..], b[1..]);
      } else {
        TokenLessTotal(a[0], b[0]);
      }
    }
  }

  lemma {:induction false} KeyLessAsymmetric(a: IndexKey, b: IndexKey)
    requires KeyLess(a, b)
    ensures !KeyLess(b, a)
    decreases |a|
  {
    if |a| > 0 {
      if a[0] == b[0] {
        KeyLessAsymmetric(a[1..], b[1..]);
      } else {
        TokenLessAsymmetric(a[0], b[0]);
      }
    }
  }

  lemma KeyLeTransitive(a: IndexKey, b: IndexKey, c: IndexKey)
    requires KeyLe(a, b) && KeyLe(b, c)
    ensures KeyLe(a, c)
  {
    if a != b && b != c {
      KeyLessTransitive(a, b, c);
    }
  }

  lemma KeyLeAntisymmetric(a: IndexKey, b: IndexKey)
    requires KeyLe(a, b) && KeyLe(b, a)
    ensures a == b
  {
    if a != b {
      KeyLessAsymmetric(a, b);
    }
  }

  lemma KeyLeTotal(a: IndexKey, b: IndexKey)
    ensures KeyLe(a, b) || KeyLe(b, a)
  {
    if a != b {
      KeyLessTotal(a, b);
    }
  }

  /** A proper prefix sorts strictly before the key it is a prefix of. */
  lemma {:induction false} PrefixIsLess(a: IndexKey, b: IndexKey)
    requires |a| < |b| && a == b[..|a|]
    ensures KeyLess(a, b)
    decreases |a|
  {
    if |a| > 0 {
      assert a[1..] == b[1..][..|a| - 1];
      PrefixIsLess(a[1..], b[1..]);
    }
  }

  /** With omitValue the key is exactly name and tag, so it is a prefix of the
      full key of every value of the same kind under the same name, and sorts
      strictly before each of them that carries a value. */
  lemma BoundKeyIsPrefix(name: string, v: Value, w: Value)
    requires TagOf(v) == TagOf(w)
    ensures PropertyToIndexKey(name, v, true) == [TString(name), TByte(TagOf(v))]
    ensures PropertyToIndexKey(name, v, true) == PropertyToIndexKey(name, w, false)[..2]
    ensures TagOf(w) != TYPE_NULL ==> KeyLess(PropertyToIndexKey(name, v, true), PropertyToIndexKey(name, w, false))
  {
    var bound, full := PropertyToIndexKey(name, v, true), PropertyToIndexKey(name, w, false);
    if TagOf(w) != TYPE_NULL {
      PrefixIsLess(bound, full);
    }
  }

  /** Keys of one name and one tag sort as their decoded values do. */
  lemma KeyOrderIsValueOrder(name: string, v: Value, w: Value)
    requires TagOf(v) == TagOf(w) != TYPE_NULL
    ensures SameKind(IndexedScalar(v), IndexedScalar(w))
    ensures KeyLess(PropertyToIndexKey(name, v, false), PropertyToIndexKey(name, w, false))
        <==> Less(IndexedScalar(v), IndexedScalar(w))
    ensures PropertyToIndexKey(name, v, false) == PropertyToIndexKey(name, w, false)
        <==> IndexedScalar(v) == IndexedScalar(w)
  {
    var kv, kw := PropertyToIndexKey(name, v, false), PropertyToIndexKey(name, w, false);
    assert kv[..2] == kw[..2];
    assert KeyLess(kv, kw) == KeyLess(kv[1..], kw[1..]);
    assert KeyLess(kv[1..], kw[1..]) == KeyLess(kv[2..], kw[2..]);
    assert KeyLess(kv[2..], kw[2..]) == (kv[2] != kw[2] && TokenLess(kv[2], kw[2])) by {
      assert kv[2..][1..] == [] && kw[2..][1..] == [];
    }
    if IndexedScalar(v).S? {
      StrLessIrreflexive(IndexedScalar(v).s);
    }
  }

  /** Keys are grouped by name first and by tag second. */
  lemma KeyOrderByNameThenTag(n1: string, v: Value, o1: bool, n2: string, w: Value, o2: bool)
    ensures StrLess(n1, n2) ==> KeyLess(PropertyToIndexKey(n1, v, o1), PropertyToIndexKey(n2, w, o2))
    ensures n1 == n2 && TagOf(v) < TagOf(w) ==> KeyLess(PropertyToIndexKey(n1, v, o1), PropertyToIndexKey(n2, w, o2))
  {
    var a, b := PropertyToIndexKey(n1, v, o1), PropertyToIndexKey(n2, w, o2);
    if StrLess(n1, n2) {
      StrLessIrreflexive(n1);
      assert a[0] != b[0];
    }
    if n1 == n2 && TagOf(v) < TagOf(w) {
      assert a[0] == b[0];
      assert KeyLess(a, b) == KeyLess(a[1..], b[1..]);
    }
  }

  /** A key at or above another is not below it. */
  lemma KeyLeNotAbove(a: IndexKey, b: IndexKey)
    requires KeyLe(a, b)
    ensures !KeyLess(b, a)
  {
    if a == b {
      KeyLessIrreflexive(a);
    } else {
      KeyLessAsymmetric(a, b);
    }
  }

  /** A key written by propertyToIndexKey that lies between the key of `a`
      (with or without its value) and the full key of `b`, two values of one
      non-null kind under `name`, belongs to the same name and kind, and its
      value lies between theirs. */
  lemma KeyBetween(name: string, a: Value, omitA: bool, prop: string, v: Value, b: Value)
    requires TagOf(a) == TagOf(b) != TYPE_NULL
    requires KeyLe(PropertyToIndexKey(name, a, omitA), PropertyToIndexKey(prop, v, false))
    requires KeyLe(PropertyToIndexKey(prop, v, false), PropertyToIndexKey(name, b, false))
    ensures prop == name && TagOf(v) == TagOf(a)
    ensures SameKind(IndexedScalar(v), IndexedScalar(b)) && SameKind(IndexedScalar(a), IndexedScalar(v))
    ensures !omitA ==> LessOrEqual(IndexedScalar(a), IndexedScalar(v))
    ensures LessOrEqual(IndexedScalar(v), IndexedScalar(b))
  {
    var ka, kv, kb := PropertyToIndexKey(name, a, omitA), PropertyToIndexKey(prop, v, false), PropertyToIndexKey(name, b, false);
    KeyLeNotAbove(ka, kv);
    KeyLeNotAbove(kv, kb);
    if prop != name {
      StrLessTotal(prop, name);
      KeyOrderByNameThenTag(prop, v, false, name, a, omitA);
      KeyOrderByNameThenTag(name, b, false, prop, v, false);
      assert false;
    }
    KeyOrderByNameThenTag(name, v, false, name, a, omitA);
    KeyOrderByNameThenTag(name, b, false, name, v, false);
    KeyOrderIsValueOrder(name, v, b);
    KeyOrderIsValueOrder(name, a, v);
    ComparisonTrichotomy(IndexedScalar(v), IndexedScalar(b));
    ComparisonTrichotomy(IndexedScalar(a), IndexedScalar(v));
  }
}
