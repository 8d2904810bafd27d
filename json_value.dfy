/**
 * The value model of the parser (class JsonFiled): a tagged union over
 * null / int32 / bool / double / string / array / object, its strict
 * read-only queries, and the three mutators that can promote a Null value
 * in place (key subscript, index subscript, push_back).
 *
 * The constructor of `Value` is the tag (`_jType`) and its fields are the
 * payload (`_jValue`), so the two can never disagree.  An Object payload is
 * a list of members kept strictly sorted by key, which is the enumeration
 * order of the `std::map` the GCC build uses.
 */
module JsonValue {
  import opened Outcomes

  /** json_int: a 32-bit signed integer. */
  type Int32 = n: int | -0x8000_0000 <= n < 0x8000_0000

  datatype Value =
    | Null
    | Int(n: Int32)
    | Bool(b: bool)
      /** The payload of a double is kept as the decimal text it was read from. */
    | Double(lexeme: string)
    | String(str: string)
    | Array(elems: seq<Value>)
    | Object(members: seq<Member>)

  /** One key/value pair of an object. */
  datatype Member = Member(key: string, val: Value)

  /** JSONTYPE, the tag reported by getType(). */
  datatype JsonType =
    | JsonArray | JsonNull | JsonNumber | JsonDouble | JsonString | JsonBoolean | JsonObject

  /** The errors a query or a mutator of the value model raises. */
  datatype AccessError =
      /** a typed access, subscript or append against a mismatched tag */
    | InvalidType
      /** an index subscript at or past the end of an array */
    | IndexOutOfRange

  // ---------------------------------------------------------------------------
  // Tags and typed access
  // ---------------------------------------------------------------------------

  /** getType(): the tag of a value. */
  function TypeOf(v: Value): JsonType
  {
    match v
    case Null => JsonNull
    case Int(_) => JsonNumber
    case Bool(_) => JsonBoolean
    case Double(_) => JsonDouble
    case String(_) => JsonString
    case Array(_) => JsonArray
    case Object(_) => JsonObject
  }

  predicate IsNull(v: Value) { TypeOf(v) == JsonNull }
  predicate IsInt(v: Value) { TypeOf(v) == JsonNumber }
  predicate IsBool(v: Value) { TypeOf(v) == JsonBoolean }
  predicate IsDouble(v: Value) { TypeOf(v) == JsonDouble }
  predicate IsString(v: Value) { TypeOf(v) == JsonString }
  predicate IsArray(v: Value) { TypeOf(v) == JsonArray }
  predicate IsObject(v: Value) { TypeOf(v) == JsonObject }

  /** The tag reported by getType() always names the payload that is held. */
  lemma TagMatchesPayload(v: Value)
    ensures IsNull(v) <==> v.Null?
    ensures IsInt(v) <==> v.Int?
    ensures IsBool(v) <==> v.Bool?
    ensures IsDouble(v) <==> v.Double?
    ensures IsString(v) <==> v.String?
    ensures IsArray(v) <==> v.Array?
    ensures IsObject(v) <==> v.Object?
  {
  }

  /** get<json_null>(). */
  function AsNull(v: Value): (r: Result<(), AccessError>)
    ensures r.Ok? <==> v == Null
    ensures r.Err? ==> r.error == InvalidType
  {
    if IsNull(v) then Ok(()) else Err(InvalidType)
  }

  /** get<json_int>(), asInt() and operator int(): the payload of an Int, no coercion. */
  function AsInt(v: Value): (r: Result<Int32, AccessError>)
    ensures r.Ok? <==> v.Int?
    ensures r.Ok? ==> v == Int(r.value)
    ensures r.Err? ==> r.error == InvalidType
  {
    if IsInt(v) then Ok(v.n) else Err(InvalidType)
  }

  /** get<json_bool>(), asBool() and operator bool(). */
  function AsBool(v: Value): (r: Result<bool, AccessError>)
    ensures r.Ok? <==> v.Bool?
    ensures r.Ok? ==> v == Bool(r.value)
    ensures r.Err? ==> r.error == InvalidType
  {
    if IsBool(v) then Ok(v.b) else Err(InvalidType)
  }

  /** get<json_double>(), asDouble() and operator double(): an Int is not widened. */
  function AsDouble(v: Value): (r: Result<string, AccessError>)
    ensures r.Ok? <==> v.Double?
    ensures r.Ok? ==> v == Double(r.value)
    ensures r.Err? ==> r.error == InvalidType
  {
    if IsDouble(v) then Ok(v.lexeme) else Err(InvalidType)
  }

  /** get<json_string>(), asString() and operator std::string(). */
  function AsString(v: Value): (r: Result<string, AccessError>)
    ensures r.Ok? <==> v.String?
    ensures r.Ok? ==> v == String(r.value)
    ensures r.Err? ==> r.error == InvalidType
  {
    if IsString(v) then Ok(v.str) else Err(InvalidType)
  }

  /** get<json_array>(), asArray() and operator json_array(). */
  function AsArray(v: Value): (r: Result<seq<Value>, AccessError>)
    ensures r.Ok? <==> v.Array?
    ensures r.Ok? ==> v == Array(r.value)
    ensures r.Err? ==> r.error == InvalidType
  {
    if IsArray(v) then Ok(v.elems) else Err(InvalidType)
  }

  /** get<json_object>(), asObject() and operator json_object(). */
  function AsObject(v: Value): (r: Result<seq<Member>, AccessError>)
    ensures r.Ok? <==> v.Object?
    ensures r.Ok? ==> v == Object(r.value)
    ensures r.Err? ==> r.error == InvalidType
  {
    if IsObject(v) then Ok(v.members) else Err(InvalidType)
  }

  // ---------------------------------------------------------------------------
  // Equality against primitives
  // ---------------------------------------------------------------------------

  /**
   * The right-hand side of operator==, by the type T it is instantiated
   * with: std::string or const char*, int, double, bool, or any other type.
   * A string literal is a `const char[N]`, which the template does not
   * decay to const char*, so it is POther.
   */
  datatype Primitive = PString(s: string) | PInt(i: Int32) | PDouble(d: string) | PBool(b: bool) | POther

  /** The value the matching JsonFiled constructor builds from a primitive; none for another type. */
  function FromPrimitive(p: Primitive): Option<Value>
  {
    match p
    case PString(s) => Some(String(s))
    case PInt(i) => Some(Int(i))
    case PDouble(d) => Some(Double(d))
    case PBool(b) => Some(Bool(b))
    case POther => None
  }

  /**
   * operator==(T): the tag must be the primitive's kind and the payloads
   * equal; any other argument type compares false.  Never an error.
   */
  function Equals(v: Value, p: Primitive): (r: bool)
    ensures r <==> FromPrimitive(p) == Some(v)
    ensures p.POther? ==> !r
  {
    match p
    case PString(s) => IsString(v) && v.str == s
    case PInt(i) => IsInt(v) && v.n == i
    case PDouble(d) => IsDouble(v) && v.lexeme == d
    case PBool(b) => IsBool(v) && v.b == b
    case POther => false
  }

  /** operator!=(T): the strict negation of operator==, so true for any other argument type. */
  function NotEquals(v: Value, p: Primitive): (r: bool)
    ensures r <==> FromPrimitive(p) != Some(v)
    ensures p.POther? ==> r
  {
    !Equals(v, p)
  }

  // ---------------------------------------------------------------------------
  // Object members: a strictly key-sorted association list
  // ---------------------------------------------------------------------------

  /** std::less<std::string>: lexicographic order of the key bytes. */
  predicate KeyLess(a: string, b: string)
  {
    if |a| == 0 then |b| > 0
    else |b| > 0 && (a[0] < b[0] || (a[0] == b[0] && KeyLess(a[1..], b[1..])))
  }

  lemma {:induction false} KeyLessIrreflexive(a: string)
    ensures !KeyLess(a, a)
  {
    if |a| > 0 {
      KeyLessIrreflexive(a[1..]);
    }
  }

  lemma {:induction false} KeyLessTransitive(a: string, b: string, c: string)
    requires KeyLess(a, b) && KeyLess(b, c)
    ensures KeyLess(a, c)
  {
    if |a| > 0 && a[0] == b[0] && b[0] == c[0] {
      KeyLessTransitive(a[1..], b[1..], c[1..]);
    }
  }

  lemma {:induction false} KeyLessTotal(a: string, b: string)
    ensures a == b || KeyLess(a, b) || KeyLess(b, a)
  {
    if |a| > 0 && |b| > 0 && a[0] == b[0] {
      KeyLessTotal(a[1..], b[1..]);
      if a[1..] == b[1..] {
        assert a == [a[0]] + a[1..] && b == [b[0]] + b[1..];
      }
    }
  }

  /** Keys strictly increase along the list, so each key occurs once. */
  ghost predicate SortedKeys(ms: seq<Member>)
  {
    forall i, j :: 0 <= i < j < |ms| ==> KeyLess(ms[i].key, ms[j].key)
  }

  /** The set of keys of an object. */
  function Keys(ms: seq<Member>): (ks: set<string>)
  {
    if |ms| == 0 then {} else {ms[0].key} + Keys(ms[1..])
  }

  /** A key is in Keys exactly when some member carries it. */
  lemma {:induction false} KeysMembers(ms: seq<Member>, k: string)
    ensures k in Keys(ms) <==> exists i :: 0 <= i < |ms| && ms[i].key == k
  {
    if |ms| > 0 {
      KeysMembers(ms[1..], k);
      if k in Keys(ms[1..]) {
        var i :| 0 <= i < |ms[1..]| && ms[1..][i].key == k;
        assert ms[i + 1].key == k;
      }
      if exists i :: 0 <= i < |ms| && ms[i].key == k {
        var i :| 0 <= i < |ms| && ms[i].key == k;
        if i > 0 {
          assert ms[1..][i - 1].key == k;
        }
      }
    }
  }

  /** find(key) on the object, yielding the mapped value. */
  function Lookup(ms: seq<Member>, key: string): Option<Value>
  {
    if |ms| == 0 then None
    else if ms[0].key == key then Some(ms[0].val)
    else Lookup(ms[1..], key)
  }

  /** find(key) succeeds exactly for the keys present, and yields a member's value. */
  lemma {:induction false} LookupSpec(ms: seq<Member>, key: string)
    ensures Lookup(ms, key).Some? <==> key in Keys(ms)
    ensures Lookup(ms, key).Some? ==> Member(key, Lookup(ms, key).value) in ms
  {
    if |ms| > 0 && ms[0].key != key {
      LookupSpec(ms[1..], key);
    }
  }

  /** In a sorted list every member is the one Lookup finds for its key. */
  lemma {:induction false} LookupSorted(ms: seq<Member>, i: nat)
    requires SortedKeys(ms) && i < |ms|
    ensures Lookup(ms, ms[i].key) == Some(ms[i].val)
  {
    if i > 0 {
      KeyLessIrreflexive(ms[0].key);
      assert KeyLess(ms[0].key, ms[i].key);
      LookupSorted(ms[1..], i - 1);
    }
  }

  /** The map assignment `m[key] = v`: replaces the member for key, or inserts it in key order. */
  function Insert(ms: seq<Member>, key: string, v: Value): seq<Member>
  {
    if |ms| == 0 then [Member(key, v)]
    else if ms[0].key == key then [Member(key, v)] + ms[1..]
    else if KeyLess(key, ms[0].key) then [Member(key, v)] + ms
    else [ms[0]] + Insert(ms[1..], key, v)
  }

  /**
   * After `m[key] = v` the key maps to v, every other key maps to what it
   * did, no other member appears, key order is kept, and the size grows by
   * one exactly when the key was new.
   */
  lemma InsertSpec(ms: seq<Member>, key: string, v: Value)
    ensures Keys(Insert(ms, key, v)) == Keys(ms) + {key}
    ensures Lookup(Insert(ms, key, v), key) == Some(v)
    ensures forall k :: k != key ==> Lookup(Insert(ms, key, v), k) == Lookup(ms, k)
    ensures forall m :: m in Insert(ms, key, v) ==> m in ms || m == Member(key, v)
    ensures SortedKeys(ms) ==> SortedKeys(Insert(ms, key, v))
    ensures SortedKeys(ms) && key in Keys(ms) ==> |Insert(ms, key, v)| == |ms|
    ensures key !in Keys(ms) ==> |Insert(ms, key, v)| == |ms| + 1
  {
    InsertKeys(ms, key, v);
    InsertLookup(ms, key, v);
    InsertShape(ms, key, v);
  }

  /** The keys after Insert, and the size that follows from them. */
  lemma {:induction false} InsertKeys(ms: seq<Member>, key: string, v: Value)
    ensures Keys(Insert(ms, key, v)) == Keys(ms) + {key}
    ensures SortedKeys(ms) && key in Keys(ms) ==> |Insert(ms, key, v)| == |ms|
    ensures key !in Keys(ms) ==> |Insert(ms, key, v)| == |ms| + 1
  {
    var r := Insert(ms, key, v);
    if |ms| == 0 {
      assert r[1..] == [];
    } else if ms[0].key == key {
      KeysCons(ms[0], ms[1..]);
      KeysCons(Member(key, v), ms[1..]);
      assert [ms[0]] + ms[1..] == ms;
      assert r[1..] == ms[1..];
    } else if KeyLess(key, ms[0].key) {
      KeysCons(Member(key, v), ms);
      BelowHeadIsAbsent(ms, key);
      assert r[1..] == ms;
    } else {
      var rest := Insert(ms[1..], key, v);
      InsertKeys(ms[1..], key, v);
      KeysCons(ms[0], ms[1..]);
      KeysCons(ms[0], rest);
      assert [ms[0]] + ms[1..] == ms;
      assert r[1..] == rest;
      if SortedKeys(ms) {
        SortedTail(ms);
      }
    }
  }

  /** The lookups after Insert: key finds v, every other key what it found before. */
  lemma {:induction false} InsertLookup(ms: seq<Member>, key: string, v: Value)
    ensures Lookup(Insert(ms, key, v), key) == Some(v)
    ensures forall k :: k != key ==> Lookup(Insert(ms, key, v), k) == Lookup(ms, k)
  {
    var r := Insert(ms, key, v);
    if |ms| == 0 {
      assert r[1..] == [];
    } else if ms[0].key == key {
      assert r[1..] == ms[1..];
    } else if KeyLess(key, ms[0].key) {
      assert r[1..] == ms;
    } else {
      InsertLookup(ms[1..], key, v);
      assert r[1..] == Insert(ms[1..], key, v);
    }
  }

  /** The members after Insert come from ms or are the new one, in key order. */
  lemma {:induction false} InsertShape(ms: seq<Member>, key: string, v: Value)
    ensures forall m :: m in Insert(ms, key, v) ==> m in ms || m == Member(key, v)
    ensures SortedKeys(ms) ==> SortedKeys(Insert(ms, key, v))
  {
    var r := Insert(ms, key, v);
    if |ms| == 0 {
    } else if ms[0].key == key {
      assert r[1..] == ms[1..];
      if SortedKeys(ms) {
        assert SortedKeys(r) by {
          forall i, j | 0 <= i < j < |r| ensures KeyLess(r[i].key, r[j].key) {
            assert r[i].key == ms[i].key && r[j].key == ms[j].key;
          }
        }
      }
    } else if KeyLess(key, ms[0].key) {
      InsertFrontSorted(ms, key, v);
    } else {
      var rest := Insert(ms[1..], key, v);
      InsertShape(ms[1..], key, v);
      assert r == [ms[0]] + rest;
      if SortedKeys(ms) {
        SortedTail(ms);
      }
      InsertSortedStep(ms, key, v, rest);
    }
  }

  lemma SortedTail(ms: seq<Member>)
    requires |ms| > 0 && SortedKeys(ms)
    ensures SortedKeys(ms[1..])
  {
    forall i, j | 0 <= i < j < |ms| - 1 ensures KeyLess(ms[1..][i].key, ms[1..][j].key) {
      assert ms[1..][i] == ms[i + 1] && ms[1..][j] == ms[j + 1];
    }
  }

  lemma KeysCons(m: Member, ms: seq<Member>)
    ensures Keys([m] + ms) == {m.key} + Keys(ms)
  {
    assert ([m] + ms)[1..] == ms;
  }

  /** In a sorted list, a key below the head's key is not present. */
  lemma BelowHeadIsAbsent(ms: seq<Member>, key: string)
    requires |ms| > 0 && KeyLess(key, ms[0].key)
    ensures SortedKeys(ms) ==> key !in Keys(ms)
  {
    if SortedKeys(ms) && key in Keys(ms) {
      KeysMembers(ms, key);
      var i :| 0 <= i < |ms| && ms[i].key == key;
      KeyLessIrreflexive(key);
      if i > 0 {
        KeyLessTransitive(key, ms[0].key, ms[i].key);
      }
    }
  }

  /** The step of Insert's sortedness proof where the key goes before the head. */
  lemma InsertFrontSorted(ms: seq<Member>, key: string, v: Value)
    requires |ms| > 0 && KeyLess(key, ms[0].key)
    ensures SortedKeys(ms) ==> SortedKeys([Member(key, v)] + ms)
  {
    if SortedKeys(ms) {
      var r := [Member(key, v)] + ms;
      forall i, j | 0 <= i < j < |r| ensures KeyLess(r[i].key, r[j].key) {
        if i == 0 && j > 1 {
          KeyLessTransitive(key, ms[0].key, ms[j - 1].key);
        }
      }
    }
  }

  /** The step of Insert's sortedness proof where the key goes after the head. */
  lemma InsertSortedStep(ms: seq<Member>, key: string, v: Value, rest: seq<Member>)
    requires |ms| > 0 && ms[0].key != key && !KeyLess(key, ms[0].key)
    requires forall m :: m in rest ==> m in ms[1..] || m == Member(key, v)
    requires SortedKeys(ms) ==> SortedKeys(rest)
    ensures SortedKeys(ms) ==> SortedKeys([ms[0]] + rest)
  {
    if SortedKeys(ms) {
      KeyLessTotal(key, ms[0].key);
      var r := [ms[0]] + rest;
      forall i, j | 0 <= i < j < |r| ensures KeyLess(r[i].key, r[j].key) {
        if i == 0 {
          assert r[j] in rest;
        }
      }
    }
  }

  /** A value whose objects, at every level, keep their members sorted by key. */
  ghost predicate WellFormed(v: Value)
  {
    match v
    case Array(es) => forall i :: 0 <= i < |es| ==> WellFormed(es[i])
    case Object(ms) => SortedKeys(ms) && forall i :: 0 <= i < |ms| ==> WellFormed(ms[i].val)
    case _ => true
  }

  // ---------------------------------------------------------------------------
  // Size, emptiness, membership
  // ---------------------------------------------------------------------------

  /** size(): the element or key count of an Array or Object; any other tag is an error. */
  function Size(v: Value): (r: Result<nat, AccessError>)
    ensures r.Ok? <==> v.Array? || v.Object?
    ensures v.Array? ==> r == Ok(|v.elems|)
    ensures v.Object? ==> r == Ok(|v.members|)
    ensures r.Err? ==> r.error == InvalidType
  {
    if !IsArray(v) && !IsObject(v) then Err(InvalidType)
    else if IsObject(v) then Ok(|v.members|)
    else Ok(|v.elems|)
  }

  /** isEmpty(): true only for an empty Array or Object; false, not an error, for other tags. */
  function IsEmpty(v: Value): (r: bool)
    ensures r <==> v == Array([]) || v == Object([])
  {
    if IsObject(v) then |v.members| == 0
    else if IsArray(v) then |v.elems| == 0
    else false
  }

  /** isMember(key): true iff the value is an Object that has the key; never an error. */
  function IsMember(v: Value, key: string): (r: bool)
    ensures r <==> v.Object? && key in Keys(v.members)
  {
    if !IsObject(v) then false
    else
      LookupSpec(v.members, key);
      Lookup(v.members, key).Some?
  }

  /** isEmpty() agrees with size() wherever size() is defined, and is false elsewhere. */
  lemma IsEmptyAgreesWithSize(v: Value)
    ensures Size(v).Ok? ==> (IsEmpty(v) <==> Size(v).value == 0)
    ensures Size(v).Err? ==> !IsEmpty(v)
  {
  }

  /** The key count of a sorted object is the number of its distinct keys. */
  lemma {:induction false} SizeCountsKeys(ms: seq<Member>)
    requires SortedKeys(ms)
    ensures |Keys(ms)| == |ms|
  {
    if |ms| > 0 {
      SizeCountsKeys(ms[1..]);
      assert Keys(ms) == {ms[0].key} + Keys(ms[1..]);
      if ms[0].key in Keys(ms[1..]) {
        KeysMembers(ms[1..], ms[0].key);
        var i :| 0 <= i < |ms[1..]| && ms[1..][i].key == ms[0].key;
        assert KeyLess(ms[0].key, ms[i + 1].key);
        KeyLessIrreflexive(ms[0].key);
      }
    }
  }

  // ---------------------------------------------------------------------------
  // Mutators, as functions from the old receiver to the new one
  // ---------------------------------------------------------------------------

  /** The members of an object, where a Null receiver counts as an empty one. */
  function MembersOrEmpty(v: Value): seq<Member>
    requires v.Null? || v.Object?
  {
    if v.Null? then [] else v.members
  }

  /** The elements of an array, where a Null receiver counts as an empty one. */
  function ElemsOrEmpty(v: Value): seq<Value>
    requires v.Null? || v.Array?
  {
    if v.Null? then [] else v.elems
  }

  /**
   * operator[](const std::string&): a Null receiver first becomes an empty
   * Object; an absent key then gets a Null slot.  The result is the new
   * receiver; the slot is `Lookup(r.value.members, key)`.
   */
  function SubscriptKey(v: Value, key: string): (r: Result<Value, AccessError>)
    ensures r.Ok? <==> v.Null? || v.Object?
    ensures r.Err? ==> r.error == InvalidType
    ensures r.Ok? ==> r.value.Object? && key in Keys(r.value.members)
    ensures r.Ok? && key in Keys(MembersOrEmpty(v)) ==> r.value == Object(MembersOrEmpty(v))
    ensures r.Ok? && key !in Keys(MembersOrEmpty(v)) ==> Lookup(r.value.members, key) == Some(Null)
    ensures r.Ok? ==> forall k :: k != key ==> Lookup(r.value.members, k) == Lookup(MembersOrEmpty(v), k)
  {
    var promoted := if IsNull(v) then Object([]) else v;
    if !IsObject(promoted) then Err(InvalidType)
    else
      LookupSpec(promoted.members, key);
      InsertSpec(promoted.members, key, Null);
      if Lookup(promoted.members, key).Some? then Ok(promoted)
      else Ok(Object(Insert(promoted.members, key, Null)))
  }

  /** `v[key] = x`: key subscript followed by assignment through the returned slot. */
  function AssignKey(v: Value, key: string, x: Value): (r: Result<Value, AccessError>)
    ensures r.Ok? <==> v.Null? || v.Object?
    ensures r.Err? ==> r.error == InvalidType
    ensures r.Ok? ==> r.value.Object? && Lookup(r.value.members, key) == Some(x)
    ensures r.Ok? ==> Keys(r.value.members) == Keys(MembersOrEmpty(v)) + {key}
    ensures r.Ok? ==> forall k :: k != key ==> Lookup(r.value.members, k) == Lookup(MembersOrEmpty(v), k)
  {
    var promoted := if IsNull(v) then Object([]) else v;
    if !IsObject(promoted) then Err(InvalidType)
    else
      InsertSpec(promoted.members, key, x);
      Ok(Object(Insert(promoted.members, key, x)))
  }

  /** operator[](size_t): no promotion; an Array and an index below its size are required. */
  function SubscriptIndex(v: Value, index: nat): (r: Result<Value, AccessError>)
    ensures r.Ok? <==> v.Array? && index < |v.elems|
    ensures r.Ok? ==> r.value == v.elems[index]
    ensures !v.Array? ==> r == Err(InvalidType)
    ensures v.Array? && index >= |v.elems| ==> r == Err(IndexOutOfRange)
  {
    if !IsArray(v) then Err(InvalidType)
    else if index >= |v.elems| then Err(IndexOutOfRange)
    else Ok(v.elems[index])
  }

  /** `v[index] = x`: index subscript followed by assignment through the returned slot. */
  function AssignIndex(v: Value, index: nat, x: Value): (r: Result<Value, AccessError>)
    ensures r.Ok? <==> v.Array? && index < |v.elems|
    ensures !v.Array? ==> r == Err(InvalidType)
    ensures v.Array? && index >= |v.elems| ==> r == Err(IndexOutOfRange)
    ensures r.Ok? ==> r.value.Array? && |r.value.elems| == |v.elems| && r.value.elems[index] == x
    ensures r.Ok? ==> forall j :: 0 <= j < |v.elems| && j != index ==> r.value.elems[j] == v.elems[j]
  {
    if !IsArray(v) then Err(InvalidType)
    else if index >= |v.elems| then Err(IndexOutOfRange)
    else Ok(Array(v.elems[index := x]))
  }

  /** push_back(x): a Null receiver first becomes an empty Array; x is appended at the end. */
  function PushBack(v: Value, x: Value): (r: Result<Value, AccessError>)
    ensures r.Ok? <==> v.Null? || v.Array?
    ensures r.Err? ==> r.error == InvalidType
    ensures r.Ok? ==> r.value.Array? && |r.value.elems| == |ElemsOrEmpty(v)| + 1
    ensures r.Ok? ==> r.value.elems[..|ElemsOrEmpty(v)|] == ElemsOrEmpty(v)
    ensures r.Ok? ==> r.value.elems[|ElemsOrEmpty(v)|] == x
  {
    var promoted := if IsNull(v) then Array([]) else v;
    if !IsArray(promoted) then Err(InvalidType)
    else Ok(Array(promoted.elems + [x]))
  }
}
