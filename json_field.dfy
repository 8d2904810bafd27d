/**
 * JsonFiled as an object whose value its mutators change in place:
 * operator[](string), operator[](size_t) and push_back.  Each method is
 * proved to leave the value that the matching function of JsonValue
 * computes; JsonValueLaws relates those functions to the queries.
 */
module JsonFields {
  import opened Outcomes
  import opened JsonValue

  class JsonField {
    /** _jType and _jValue together: the constructor of `value` is the tag. */
    var value: Value

    /** Every constructor of JsonFiled: the tag and payload of v. */
    constructor (v: Value)
      ensures value == v
    {
      value := v;
    }

    /**
     * operator[](const std::string&).  The result stands for the returned
     * reference: the content of the slot for key right after the call.
     */
    method Subscript(key: string) returns (r: Result<Value, AccessError>)
      modifies this
      ensures match SubscriptKey(old(value), key)
        case Ok(nv) => value == nv && r.Ok? && Lookup(nv.members, key) == Some(r.value)
        case Err(e) => value == old(value) && r == Err(e)
    {
      if IsNull(value) {
        value := Object([]);
      }
      if !IsObject(value) {
        return Err(InvalidType);
      }
      var slot := Lookup(value.members, key);
      if slot.None? {
        InsertSpec(value.members, key, Null);
        value := Object(Insert(value.members, key, Null));
        return Ok(Null);
      }
      return Ok(slot.value);
    }

    /** `field[key] = x`: the key subscript, then assignment through the returned reference. */
    method SetKey(key: string, x: Value) returns (r: Result<(), AccessError>)
      modifies this
      ensures match AssignKey(old(value), key, x)
        case Ok(nv) => value == nv && r.Ok?
        case Err(e) => value == old(value) && r == Err(e)
    {
      if IsNull(value) {
        value := Object([]);
      }
      if !IsObject(value) {
        return Err(InvalidType);
      }
      value := Object(Insert(value.members, key, x));
      return Ok(());
    }

    /** operator[](size_t), read through the returned reference; nothing changes. */
    method Index(index: nat) returns (r: Result<Value, AccessError>)
      ensures r == SubscriptIndex(value, index)
    {
      if !IsArray(value) {
        return Err(InvalidType);
      }
      if index >= |value.elems| {
        return Err(IndexOutOfRange);
      }
      return Ok(value.elems[index]);
    }

    /** `field[index] = x`: the index subscript, then assignment through the returned reference. */
    method SetIndex(index: nat, x: Value) returns (r: Result<(), AccessError>)
      modifies this
      ensures match AssignIndex(old(value), index, x)
        case Ok(nv) => value == nv && r.Ok?
        case Err(e) => value == old(value) && r == Err(e)
    {
      if !IsArray(value) {
        return Err(InvalidType);
      }
      if index >= |value.elems| {
        return Err(IndexOutOfRange);
      }
      value := Array(value.elems[index := x]);
      return Ok(());
    }

    /** push_back(obj). */
    method PushBack(x: Value) returns (r: Result<(), AccessError>)
      modifies this
      ensures match JsonValue.PushBack(old(value), x)
        case Ok(nv) => value == nv && r.Ok?
        case Err(e) => value == old(value) && r == Err(e)
    {
      if IsNull(value) {
        value := Array([]);
      }
      if !IsArray(value) {
        return Err(InvalidType);
      }
      value := Array(value.elems + [x]);
      return Ok(());
    }
  }
}
