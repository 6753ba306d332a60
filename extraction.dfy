/** Which index keys a stored record contributes: the createSecondaryKeys
    callback of the index's key creator, and isIndexableProperty. Every property
    whose value is indexable contributes the key of its value; an array
    contributes one key per element that is not itself an array (the element
    check as written, see ElementIndexableAsWritten). */
module Extraction {
  import opened Values
  import opened IndexKeys

  /** The check applied to one array element. The array loop passes the element
      in the `name` position of isIndexableProperty, so the `value` it tests is
      undefined, which every check lets through: only nested arrays are refused. */
  predicate ElementIndexableAsWritten(e: Value) {
    IsIndexableProperty(Undefined) && !e.Arr?
  }

  /** The element check evidently intended: the element itself must be indexable. */
  predicate ElementIndexable(e: Value) {
    IsIndexableProperty(e) && !e.Arr?
  }

  /** The keys one property contributes, with the element check as written. */
  function PropertyKeysAsWritten(prop: string, value: Value): set<IndexKey> {
    if !IsIndexableProperty(value) then {}
    else if value.Arr? then
      set e | e in value.items && ElementIndexableAsWritten(e) :: PropertyToIndexKey(prop, e, false)
    else
      {PropertyToIndexKey(prop, value, false)}
  }

  /** The keys one property contributes, with the element check corrected. */
  function PropertyKeys(prop: string, value: Value): set<IndexKey> {
    if !IsIndexableProperty(value) then {}
    else if value.Arr? then
      set e | e in value.items && ElementIndexable(e) :: PropertyToIndexKey(prop, e, false)
    else
      {PropertyToIndexKey(prop, value, false)}
  }

  /** All keys a record contributes, as written. */
  function SecondaryKeysAsWritten(rec: Record): set<IndexKey> {
    set prop, k | prop in rec && k in PropertyKeysAsWritten(prop, rec[prop]) :: k
  }

  /** All keys a record contributes (corrected element check). */
  function SecondaryKeys(rec: Record): set<IndexKey> {
    set prop, k | prop in rec && k in PropertyKeys(prop, rec[prop]) :: k
  }

  /** `v` is the value `x` itself, or, when `x` is an array, one of its elements. */
  predicate Carries(x: Value, v: Value) {
    x == v || (x.Arr? && v in x.items)
  }

  /** `v` is a value that the property value `x` puts into the index, with the
      element check as written: `x` itself when it is indexable and not an
      array, or any element of `x` that is not itself an array. */
  predicate IndexedAsWritten(x: Value, v: Value) {
    Carries(x, v) && !v.Arr? && (x.Arr? || IsIndexableProperty(v))
  }

  /** createSecondaryKeys: walk the record's properties, and the elements of
      array-valued ones, adding the key of every value that passes the checks
      to `results`. */
  method CreateSecondaryKeys(rec: Record) returns (results: set<IndexKey>)
    ensures results == SecondaryKeysAsWritten(rec)
  {
    results := {};
    var props := rec.Keys;
    ghost var done: set<string> := {};
    while props != {}
      invariant props + done == rec.Keys && props !! done
      invariant results == set prop, k | prop in done && k in PropertyKeysAsWritten(prop, rec[prop]) :: k
      decreases props
    {
      var prop :| prop in props;
      var value := rec[prop];
      ghost var before := results;
      if IsIndexableProperty(value) {
        if value.Arr? {
          var i := 0;
          while i < |value.items|
            invariant i <= |value.items|
            invariant results == before + set e | e in value.items[..i] && ElementIndexableAsWritten(e) :: PropertyToIndexKey(prop, e, false)
          {
            var e := value.items[i];
            // the element goes in the name position, so the value tested is undefined
            if IsIndexableProperty(Undefined) && !e.Arr? {
              results := results + {PropertyToIndexKey(prop, e, false)};
            }
            assert value.items[..i + 1] == value.items[..i] + [e];
            i := i + 1;
          }
          assert value.items[..i] == value.items;
        } else {
          results := results + {PropertyToIndexKey(prop, value, false)};
        }
      }
      assert results == before + PropertyKeysAsWritten(prop, value);
      props := props - {prop};
      done := done + {prop};
    }
  }

  /** Every key a record contributes is the key of a value one of its
      properties puts into the index: the property's own indexable, non-array
      value, or any non-array element of its array. So every key starts with the
      name of the property it came from. */
  lemma {:induction false} KeyComesFromProperty(rec: Record, k: IndexKey)
    requires k in SecondaryKeysAsWritten(rec)
    ensures exists prop, v :: prop in rec && IndexedAsWritten(rec[prop], v) && k == PropertyToIndexKey(prop, v, false)
    ensures exists prop :: prop in rec && k[0] == TString(prop)
  {
    var prop :| prop in rec && k in PropertyKeysAsWritten(prop, rec[prop]);
    var x := rec[prop];
    if x.Arr? {
      var e :| e in x.items && ElementIndexableAsWritten(e) && k == PropertyToIndexKey(prop, e, false);
      assert IndexedAsWritten(x, e);
    } else {
      assert IndexedAsWritten(x, x);
    }
  }

  /** The converse: every value a property puts into the index contributes its key. */
  lemma PropertyKeyIsContributed(rec: Record, prop: string, v: Value)
    requires prop in rec && IndexedAsWritten(rec[prop], v)
    ensures PropertyToIndexKey(prop, v, false) in SecondaryKeysAsWritten(rec)
  {
    assert PropertyToIndexKey(prop, v, false) in PropertyKeysAsWritten(prop, rec[prop]);
  }

  /** A scalar property that is indexable contributes exactly its own key; one
      that is not contributes nothing. */
  lemma ScalarPropertyKeys(rec: Record, prop: string)
    requires prop in rec && !rec[prop].Arr?
    ensures IsIndexableProperty(rec[prop]) ==> PropertyKeysAsWritten(prop, rec[prop]) == {PropertyToIndexKey(prop, rec[prop], false)}
    ensures IsIndexableProperty(rec[prop]) ==> PropertyToIndexKey(prop, rec[prop], false) in SecondaryKeysAsWritten(rec)
    ensures !IsIndexableProperty(rec[prop]) ==> PropertyKeysAsWritten(prop, rec[prop]) == {}
  {
  }

  /** An array property contributes one key per element that is not itself an
      array, whether or not that element would be indexable on its own, and no
      other key. */
  lemma ArrayPropertyKeys(rec: Record, prop: string, e: Value)
    requires prop in rec && rec[prop].Arr? && e in rec[prop].items
    ensures !e.Arr? ==> PropertyToIndexKey(prop, e, false) in SecondaryKeysAsWritten(rec)
    ensures forall k :: k in PropertyKeysAsWritten(prop, rec[prop]) ==>
              exists x :: x in rec[prop].items && !x.Arr? && k == PropertyToIndexKey(prop, x, false)
  {
    if !e.Arr? {
      assert PropertyToIndexKey(prop, e, false) in PropertyKeysAsWritten(prop, rec[prop]);
    }
  }

  /** Line 479 as written: an array element that is a plain object is indexed
      (under TYPE_NULL), and so is an element string longer than 200 characters,
      although neither value is indexable on its own. */
  lemma ElementCheckAsWrittenAdmitsUnindexable(long: string)
    requires |long| > MaxIndexedStringLength
    ensures !IsIndexableProperty(Obj) && !IsIndexableProperty(Str(long))
    ensures PropertyToIndexKey("tags", Obj, false) in SecondaryKeysAsWritten(map["tags" := Arr([Obj])])
    ensures PropertyToIndexKey("tags", Str(long), false) in SecondaryKeysAsWritten(map["tags" := Arr([Str(long)])])
    ensures SecondaryKeysAsWritten(map["tags" := Str(long)]) == {}
    ensures SecondaryKeys(map["tags" := Arr([Obj])]) == {}
    ensures SecondaryKeys(map["tags" := Arr([Str(long)])]) == {}
  {
    var r1 := map["tags" := Arr([Obj])];
    var r2 := map["tags" := Arr([Str(long)])];
    assert PropertyToIndexKey("tags", Obj, false) in PropertyKeysAsWritten("tags", r1["tags"]);
    assert PropertyToIndexKey("tags", Str(long), false) in PropertyKeysAsWritten("tags", r2["tags"]);
  }

  /** With the corrected check, array elements follow the same rule as scalar
      properties: a value is indexed whether it stands alone or in an array
      exactly when it is indexable (and not itself an array). */
  lemma ElementRuleMatchesScalarRule(prop: string, v: Value)
    requires !v.Arr?
    ensures PropertyToIndexKey(prop, v, false) in SecondaryKeys(map[prop := Arr([v])])
        <==> IsIndexableProperty(v)
    ensures PropertyToIndexKey(prop, v, false) in SecondaryKeys(map[prop := v])
        <==> IsIndexableProperty(v)
  {
    var ra, rs := map[prop := Arr([v])], map[prop := v];
    if PropertyToIndexKey(prop, v, false) in SecondaryKeys(ra) {
      assert PropertyToIndexKey(prop, v, false) in PropertyKeys(prop, ra[prop]);
    }
    if IsIndexableProperty(v) {
      assert PropertyToIndexKey(prop, v, false) in PropertyKeys(prop, ra[prop]);
      assert PropertyToIndexKey(prop, v, false) in PropertyKeys(prop, rs[prop]);
    } else {
      assert SecondaryKeys(rs) == PropertyKeys(prop, v) == {};
    }
  }
}
