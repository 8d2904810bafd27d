/**
 * Laws of the value model: how the mutators of JsonFiled compose with each
 * other and with the queries, that they keep objects sorted by key, and the
 * usage the unit tests exercise.
 */
module JsonValueLaws {
  import opened Outcomes
  import opened JsonValue

  // ---------------------------------------------------------------------------
  // push_back
  // ---------------------------------------------------------------------------

  /**
   * After push_back, operator[](size_t) finds the earlier elements where
   * they were, x at the old size, and nothing beyond; size() grew by one.
   */
  lemma PushBackThenIndex(v: Value, x: Value, j: nat)
    requires v.Null? || v.Array?
    ensures PushBack(v, x).Ok?
    ensures Size(PushBack(v, x).value) == Ok(|ElemsOrEmpty(v)| + 1)
    ensures j < |ElemsOrEmpty(v)| ==> SubscriptIndex(PushBack(v, x).value, j) == Ok(ElemsOrEmpty(v)[j])
    ensures j == |ElemsOrEmpty(v)| ==> SubscriptIndex(PushBack(v, x).value, j) == Ok(x)
    ensures j > |ElemsOrEmpty(v)| ==> SubscriptIndex(PushBack(v, x).value, j) == Err(IndexOutOfRange)
  {
    var r := PushBack(v, x).value;
    if j < |ElemsOrEmpty(v)| {
      assert r.elems[j] == r.elems[..|ElemsOrEmpty(v)|][j];
    }
  }

  /** On an array, push_back appends x after the old elements. */
  lemma PushBackOnArray(es: seq<Value>, x: Value)
    ensures PushBack(Array(es), x) == Ok(Array(es + [x]))
  {
  }

  // ---------------------------------------------------------------------------
  // operator[](string) and assignment through it
  // ---------------------------------------------------------------------------

  /** A key subscript on a key that is already there changes nothing. */
  lemma SubscriptPresentKey(v: Value, key: string)
    requires IsMember(v, key)
    ensures SubscriptKey(v, key) == Ok(v)
  {
  }

  /** Subscripting the same key twice leaves what subscripting it once leaves. */
  lemma SubscriptKeyIdempotent(v: Value, key: string)
    requires SubscriptKey(v, key).Ok?
    ensures IsMember(SubscriptKey(v, key).value, key)
    ensures SubscriptKey(SubscriptKey(v, key).value, key) == SubscriptKey(v, key)
  {
    SubscriptPresentKey(SubscriptKey(v, key).value, key);
  }

  /** Inserting under the same key twice keeps only the second value. */
  lemma {:induction false} InsertTwice(ms: seq<Member>, key: string, x: Value, y: Value)
    ensures Insert(Insert(ms, key, x), key, y) == Insert(ms, key, y)
  {
    if |ms| > 0 && ms[0].key != key && !KeyLess(key, ms[0].key) {
      InsertTwice(ms[1..], key, x, y);
      assert ([ms[0]] + Insert(ms[1..], key, x))[1..] == Insert(ms[1..], key, x);
    } else if |ms| > 0 && ms[0].key != key {
      KeyLessIrreflexive(key);
      assert ([Member(key, x)] + ms)[1..] == ms;
    } else if |ms| > 0 {
      assert ([Member(key, x)] + ms[1..])[1..] == ms[1..];
    }
  }

  /** `v[key] = x; v[key] = y` leaves what `v[key] = y` alone leaves: the last write wins. */
  lemma AssignKeyTwice(v: Value, key: string, x: Value, y: Value)
    requires AssignKey(v, key, x).Ok?
    ensures AssignKey(AssignKey(v, key, x).value, key, y) == AssignKey(v, key, y)
  {
    InsertTwice(MembersOrEmpty(v), key, x, y);
  }

  /** After `v[key] = x`, reading v[key] changes nothing and finds x. */
  lemma AssignKeyThenSubscript(v: Value, key: string, x: Value)
    requires AssignKey(v, key, x).Ok?
    ensures SubscriptKey(AssignKey(v, key, x).value, key) == AssignKey(v, key, x)
    ensures Lookup(SubscriptKey(AssignKey(v, key, x).value, key).value.members, key) == Some(x)
  {
    var w := AssignKey(v, key, x).value;
    LookupSpec(w.members, key);
    SubscriptPresentKey(w, key);
  }

  /** size() after a key subscript on a sorted object: one more exactly when the key was new. */
  lemma SizeAfterSubscriptKey(v: Value, key: string)
    requires v.Null? || (v.Object? && SortedKeys(v.members))
    ensures SubscriptKey(v, key).Ok?
    ensures Size(SubscriptKey(v, key).value) == Ok(|MembersOrEmpty(v)| + if key in Keys(MembersOrEmpty(v)) then 0 else 1)
  {
    var ms := MembersOrEmpty(v);
    LookupSpec(ms, key);
    InsertSpec(ms, key, Null);
  }

  /** size() after an assignment through a key subscript, for any receiver that accepts it. */
  lemma SizeAfterAssignKey(v: Value, key: string, x: Value)
    requires v.Null? || (v.Object? && SortedKeys(v.members))
    ensures AssignKey(v, key, x).Ok?
    ensures Size(AssignKey(v, key, x).value) == Ok(|MembersOrEmpty(v)| + if key in Keys(MembersOrEmpty(v)) then 0 else 1)
  {
    InsertSpec(MembersOrEmpty(v), key, x);
  }

  // ---------------------------------------------------------------------------
  // operator[](size_t) and assignment through it
  // ---------------------------------------------------------------------------

  /** Writing back the element an index subscript reads leaves the array as it was. */
  lemma AssignIndexSameElement(v: Value, index: nat)
    requires SubscriptIndex(v, index).Ok?
    ensures AssignIndex(v, index, SubscriptIndex(v, index).value) == Ok(v)
  {
    assert v.elems[index := v.elems[index]] == v.elems;
  }

  /** After `v[index] = x`, reading v[index] finds x and size() is unchanged. */
  lemma AssignIndexThenSubscript(v: Value, index: nat, x: Value)
    requires AssignIndex(v, index, x).Ok?
    ensures SubscriptIndex(AssignIndex(v, index, x).value, index) == Ok(x)
    ensures Size(AssignIndex(v, index, x).value) == Size(v)
  {
  }

  // ---------------------------------------------------------------------------
  // Promotion of Null happens once, to one kind
  // ---------------------------------------------------------------------------

  /** A Null promoted to an Object refuses push_back; one promoted to an Array refuses a key subscript. */
  lemma PromotionIsExclusive(key: string, x: Value)
    ensures SubscriptKey(Null, key).Ok? && SubscriptKey(Null, key).value.Object?
    ensures PushBack(SubscriptKey(Null, key).value, x) == Err(InvalidType)
    ensures PushBack(Null, x).Ok? && PushBack(Null, x).value.Array?
    ensures SubscriptKey(PushBack(Null, x).value, key) == Err(InvalidType)
    ensures SubscriptIndex(Null, 0) == Err(InvalidType)
  {
  }

  // ---------------------------------------------------------------------------
  // Sortedness of objects is an invariant of the mutators
  // ---------------------------------------------------------------------------

  /** Insert keeps every member's value well formed when the new one is. */
  lemma InsertWellFormed(ms: seq<Member>, key: string, x: Value)
    requires SortedKeys(ms) && WellFormed(x)
    requires forall i :: 0 <= i < |ms| ==> WellFormed(ms[i].val)
    ensures WellFormed(Object(Insert(ms, key, x)))
  {
    var r := Insert(ms, key, x);
    InsertSpec(ms, key, x);
    forall i | 0 <= i < |r|
      ensures WellFormed(r[i].val)
    {
      assert r[i] in r;
      if r[i] != Member(key, x) {
        var j :| 0 <= j < |ms| && ms[j] == r[i];
      }
    }
  }

  /** Every mutator turns a well-formed receiver and a well-formed argument into a well-formed value. */
  lemma MutatorsPreserveWellFormed(v: Value, key: string, index: nat, x: Value)
    requires WellFormed(v) && WellFormed(x)
    ensures SubscriptKey(v, key).Ok? ==> WellFormed(SubscriptKey(v, key).value)
    ensures AssignKey(v, key, x).Ok? ==> WellFormed(AssignKey(v, key, x).value)
    ensures AssignIndex(v, index, x).Ok? ==> WellFormed(AssignIndex(v, index, x).value)
    ensures PushBack(v, x).Ok? ==> WellFormed(PushBack(v, x).value)
  {
    if v.Null? || v.Object? {
      var ms := MembersOrEmpty(v);
      InsertWellFormed(ms, key, Null);
      InsertWellFormed(ms, key, x);
    }
    if AssignIndex(v, index, x).Ok? {
      var es := AssignIndex(v, index, x).value.elems;
      forall i | 0 <= i < |es|
        ensures WellFormed(es[i])
      {
        if i != index {
          assert es[i] == v.elems[i];
        }
      }
    }
    if PushBack(v, x).Ok? {
      var es := PushBack(v, x).value.elems;
      forall i | 0 <= i < |es|
        ensures WellFormed(es[i])
      {
        if i < |es| - 1 {
          assert es[i] == ElemsOrEmpty(v)[i];
        }
      }
    }
  }

  // ---------------------------------------------------------------------------
  // Usage from the unit tests
  // ---------------------------------------------------------------------------

  /**
   * `newObject["array"].push_back("yoyo")` on a fresh value: the key
   * subscript promotes it to an Object with a Null slot, push_back promotes
   * the slot to an Array holding "yoyo", and the object has size 1.
   */
  lemma AddArrayToFreshObject()
    ensures var v1 := SubscriptKey(Null, "array");
            v1.Ok? && Lookup(v1.value.members, "array") == Some(Null) &&
            var slot := PushBack(Null, String("yoyo"));
            slot == Ok(Array([String("yoyo")])) &&
            var v2 := AssignKey(v1.value, "array", slot.value);
            v2 == Ok(Object([Member("array", Array([String("yoyo")]))])) &&
            Size(v2.value) == Ok(1)
  {
    var m := [Member("array", Null)];
    assert Insert([], "array", Null) == m;
    assert SubscriptKey(Null, "array") == Ok(Object(m));
    assert Lookup(m, "array") == Some(Null);
    var arr := Array([String("yoyo")]);
    assert PushBack(Null, String("yoyo")) == Ok(Array([] + [String("yoyo")]));
    assert Insert(m, "array", arr) == [Member("array", arr)] + m[1..];
    assert [Member("array", arr)] + m[1..] == [Member("array", arr)];
    assert AssignKey(Object(m), "array", arr) == Ok(Object([Member("array", arr)]));
  }

  /**
   * `newObject["name"] = "John Doe"; newObject["age"] = 30;
   * newObject["isMarried"] = false` on a fresh value gives an object of
   * size 3 whose members are in key order.
   */
  lemma BuildEmployee()
    ensures var v1 := AssignKey(Null, "name", String("John Doe"));
            v1.Ok? &&
            var v2 := AssignKey(v1.value, "age", Int(30));
            v2.Ok? &&
            var v3 := AssignKey(v2.value, "isMarried", Bool(false));
            v3.Ok? && Size(v3.value) == Ok(3) &&
            v3.value.members == [Member("age", Int(30)), Member("isMarried", Bool(false)), Member("name", String("John Doe"))]
  {
    var v1 := AssignKey(Null, "name", String("John Doe")).value;
    assert v1.members == [Member("name", String("John Doe"))];
    assert KeyLess("age", "name");
    var v2 := AssignKey(v1, "age", Int(30)).value;
    assert v2.members == [Member("age", Int(30)), Member("name", String("John Doe"))];
    assert KeyLess("isMarried", "name") && KeyLess("age", "isMarried");
    var m0 := v2.members[0];
    assert Insert(v2.members, "isMarried", Bool(false)) == [m0] + Insert(v2.members[1..], "isMarried", Bool(false));
    assert v2.members[1..] == [Member("name", String("John Doe"))];
  }

  /**
   * The comparisons of the operator test: a String compared with a string
   * literal is false (the literal's type is none operator== knows), so the
   * test holds through the std::string conversion; an int and a bool
   * compare by payload.
   */
  lemma CompareWithLiterals()
    ensures !Equals(String("New York"), POther) && AsString(String("New York")) == Ok("New York")
    ensures Equals(String("New York"), PString("New York"))
    ensures Equals(Int(1), PInt(1)) && !Equals(Int(1), PBool(true))
    ensures Equals(Bool(true), PBool(true)) && NotEquals(Bool(true), PInt(1))
  {
  }
}
