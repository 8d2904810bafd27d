/**
 * The refusal rules of parser(), parseArray() and parseObject(), at any
 * position of any text and at any depth: a byte no value starts with, an
 * empty array with whitespace inside, a trailing comma, a missing
 * delimiter, a key that is not a string, a missing ':' and a repeated key.
 */
module JsonRefusals {
  import opened Outcomes
  import opened JsonChars
  import opened JsonValue
  import opened JsonGrammar

  /** The bytes the switch of parser() accepts as the start of a value. */
  predicate StartsValue(c: char)
  {
    c == 'n' || c == 't' || c == 'f' || c == '-' || IsDigit(c) || c == '"' || c == '[' || c == '{'
  }

  /**
   * parser(d) within the depth limit, on a next byte that starts no value
   * (such as ']', '}', ',' or ':'), fails with the invalid-character error
   * at its own depth.
   */
  lemma NoValueStartsHere(t: string, i: nat, d: nat)
    requires i <= |t| && d <= MaxDepth
    requires NextToken(t, i).Ok? && !StartsValue(t[NextToken(t, i).value])
    ensures ParseValue(t, i, d) == Err(InvalidCharacter(d))
  {
    var j := NextToken(t, i).value;
    assert ParseValue(t, i, d) == Dispatch(t, j, d);
  }

  /** A next byte that starts a value is never refused as an invalid character at depth d. */
  lemma ValueStartsHere(t: string, j: nat, d: nat)
    requires j < |t| && StartsValue(t[j])
    ensures Dispatch(t, j, d) != Err(InvalidCharacter(d))
  {
    var c := t[j];
    if c == '[' {
      ArrayErrorsAreDeeper(t, j, d + 1);
    } else if c == '{' {
      assert Dispatch(t, j, d) == ParseObject(t, j, d + 1);
      ObjectErrorsAreDeeper(t, j, d + 1);
    } else {
      ScalarErrorsCarryNoDepth(t, j, d);
    }
  }

  /** The errors of parseNumber() carry no depth. */
  lemma NumberErrorsCarryNoDepth(t: string, j: nat)
    requires j < |t|
    ensures ParseNumber(t, j).Err? ==> ErrorDepth(ParseNumber(t, j).error).None?
  {
  }

  /** The errors of the string loop carry no depth. */
  lemma {:induction false} StringErrorsCarryNoDepth(t: string, i: nat, acc: string)
    requires i <= |t|
    ensures StringBody(t, i, acc).Err? ==> ErrorDepth(StringBody(t, i, acc).error).None?
    decreases |t| - i
  {
    if i < |t| && t[i] != '"' {
      if t[i] == '\\' {
        if i + 1 < |t| && Unescape(t[i + 1]).Some? {
          StringErrorsCarryNoDepth(t, i + 2, acc + [Unescape(t[i + 1]).value]);
        }
      } else {
        StringErrorsCarryNoDepth(t, i + 1, acc + [t[i]]);
      }
    }
  }

  /** On a byte that starts a scalar, the switch of parser() fails only with errors that carry no depth. */
  lemma ScalarErrorsCarryNoDepth(t: string, j: nat, d: nat)
    requires j < |t| && t[j] != '[' && t[j] != '{' && StartsValue(t[j])
    ensures Dispatch(t, j, d).Err? ==> ErrorDepth(Dispatch(t, j, d).error).None?
  {
    var c := t[j];
    if c == '-' || IsDigit(c) {
      assert Dispatch(t, j, d) == ParseNumber(t, j);
      NumberErrorsCarryNoDepth(t, j);
    } else if c == '"' {
      assert Dispatch(t, j, d) == StringBody(t, j + 1, "");
      StringErrorsCarryNoDepth(t, j + 1, "");
    }
  }

  /** The depth an error carries, if it carries one. */
  function ErrorDepth(e: ParseError): Option<nat>
  {
    match e
    case MaxDepthExceeded(n) => Some(n)
    case InvalidCharacter(n) => Some(n)
    case ArrayUnexpectedEnd(n) => Some(n)
    case ArrayDelimiterExpected(n) => Some(n)
    case ObjectUnexpectedEnd(n) => Some(n)
    case ColonExpected(n) => Some(n)
    case DuplicateKey(n) => Some(n)
    case ObjectDelimiterExpected(n) => Some(n)
    case _ => None
  }

  /** r failed with an error that carries a depth, the depth is at least d. */
  predicate DeepErr<T>(r: Result<T, ParseError>, d: nat)
  {
    r.Err? && ErrorDepth(r.error).Some? ==> ErrorDepth(r.error).value >= d
  }

  /** Every error parser(d) raises that carries a depth carries d or more. */
  lemma {:induction false} ValueErrorsAreDeeper(t: string, i: nat, d: nat)
    requires i <= |t|
    ensures DeepErr(ParseValue(t, i, d), d)
    decreases |t| - i, 2
  {
    if d <= MaxDepth && NextToken(t, i).Ok? {
      var j := NextToken(t, i).value;
      DispatchErrorsAreDeeper(t, j, d);
    }
  }

  lemma {:induction false} DispatchErrorsAreDeeper(t: string, j: nat, d: nat)
    requires j < |t|
    ensures DeepErr(Dispatch(t, j, d), d)
    decreases |t| - j, 1
  {
    if t[j] == '[' {
      ArrayErrorsAreDeeper(t, j, d + 1);
    } else if t[j] == '{' {
      assert Dispatch(t, j, d) == ParseObject(t, j, d + 1);
      ObjectErrorsAreDeeper(t, j, d + 1);
    } else if StartsValue(t[j]) {
      ScalarErrorsCarryNoDepth(t, j, d);
    }
  }

  /** Every error parseArray(d) raises that carries a depth carries d or more. */
  lemma {:induction false} ArrayErrorsAreDeeper(t: string, i: nat, d: nat)
    requires i < |t|
    ensures DeepErr(ParseArray(t, i, d), d)
    decreases |t| - i, 0
  {
    if i + 1 < |t| && t[i + 1] != ']' {
      ItemsErrorsAreDeeper(t, i + 1, d, []);
    }
  }

  lemma {:induction false} ItemsErrorsAreDeeper(t: string, k: nat, d: nat, acc: seq<Value>)
    requires k <= |t|
    ensures DeepErr(ArrayItems(t, k, d, acc), d)
    decreases |t| - k, 4
  {
    if k < |t| {
      ValueErrorsAreDeeper(t, k, d + 1);
      var elem := ParseValue(t, k, d + 1);
      if elem.Ok? && NextToken(t, elem.value.next).Ok? {
        var j := NextToken(t, elem.value.next).value;
        if t[j] == ',' {
          ItemsErrorsAreDeeper(t, j + 1, d, acc + [elem.value.value]);
        }
      }
    }
  }

  /** Every error parseObject(d) raises that carries a depth carries d or more. */
  lemma {:induction false} ObjectErrorsAreDeeper(t: string, i: nat, d: nat)
    requires i < |t|
    ensures DeepErr(ParseObject(t, i, d), d)
    decreases |t| - i, 0
  {
    if i + 1 < |t| && NextToken(t, i + 1).Ok? {
      var j := NextToken(t, i + 1).value;
      if t[j] != '}' {
        MembersErrorsAreDeeper(t, j, d, []);
      }
    }
  }

  lemma {:induction false} MembersErrorsAreDeeper(t: string, k: nat, d: nat, acc: seq<Member>)
    requires k <= |t|
    ensures DeepErr(ObjectMembers(t, k, d, acc), d)
    decreases |t| - k, 4
  {
    if k < |t| {
      MemberErrorsAreDeeper(t, k, d, acc);
      var step := ObjectMember(t, k, d, acc);
      if step.Ok? && NextToken(t, step.value.next).Ok? {
        var j := NextToken(t, step.value.next).value;
        if t[j] == ',' {
          MembersErrorsAreDeeper(t, j + 1, d, step.value.members);
        }
      }
    }
  }

  lemma {:induction false} MemberErrorsAreDeeper(t: string, k: nat, d: nat, acc: seq<Member>)
    requires k <= |t|
    ensures DeepErr(ObjectMember(t, k, d, acc), d)
    decreases |t| - k, 3
  {
    ValueErrorsAreDeeper(t, k, d + 1);
    var key := ParseValue(t, k, d + 1);
    if key.Ok? && key.value.value.String? && NextToken(t, key.value.next).Ok? {
      var c := NextToken(t, key.value.next).value;
      if t[c] == ':' && Lookup(acc, key.value.value.str).None? {
        ValueErrorsAreDeeper(t, c + 1, d + 1);
      }
    }
  }

  /**
   * parser(d) within the depth limit fails with the invalid-character error
   * at depth d exactly when the next byte starts no value.
   */
  lemma InvalidCharacterExactly(t: string, i: nat, d: nat)
    requires i <= |t| && d <= MaxDepth && NextToken(t, i).Ok?
    ensures ParseValue(t, i, d) == Err(InvalidCharacter(d)) <==> !StartsValue(t[NextToken(t, i).value])
  {
    var j := NextToken(t, i).value;
    if StartsValue(t[j]) {
      ValueStartsHere(t, j, d);
      assert ParseValue(t, i, d) == Dispatch(t, j, d);
    } else {
      NoValueStartsHere(t, i, d);
    }
  }

  /**
   * parseArray(d) on '[' followed by whitespace and then ']' does not read
   * the empty array: the element loop calls parser(d + 1) on the ']'.
   */
  lemma SpacedEmptyArray(t: string, i: nat, d: nat, j: nat)
    requires i + 1 < |t| && t[i] == '[' && IsSpace(t[i + 1])
    requires NextToken(t, i + 1) == Ok(j) && t[j] == ']'
    ensures ParseArray(t, i, d) == if d + 1 <= MaxDepth then Err(InvalidCharacter(d + 1)) else Err(MaxDepthExceeded(d + 1))
  {
    assert ParseArray(t, i, d) == ArrayItems(t, i + 1, d, []);
    if d + 1 <= MaxDepth {
      NoValueStartsHere(t, i + 1, d + 1);
    } else {
      assert ParseValue(t, i + 1, d + 1) == Err(MaxDepthExceeded(d + 1));
    }
    ItemsOfFailedElement(t, i + 1, d, []);
  }

  /** An element followed by ',' and then ']' is refused: the loop reads another element on the ']'. */
  lemma {:induction false} TrailingCommaInArray(t: string, k: nat, d: nat, acc: seq<Value>, v: Value, n: nat, j: nat, m: nat)
    requires k < |t| && ParseValue(t, k, d + 1) == Ok(Parsed(v, n))
    requires NextToken(t, n) == Ok(j) && t[j] == ','
    requires NextToken(t, j + 1) == Ok(m) && t[m] == ']'
    ensures ArrayItems(t, k, d, acc) == Err(InvalidCharacter(d + 1))
  {
    ArrayItemsNext(t, k, d, acc, v, n, j);
    ValueNeedsDepth(t, k, d + 1);
    ElementExpectedAt(t, j + 1, d, acc + [v]);
  }

  /** The element loop, within the depth limit, on a byte that starts no value, fails at the element's depth. */
  lemma ElementExpectedAt(t: string, p: nat, d: nat, acc: seq<Value>)
    requires p <= |t| && d + 1 <= MaxDepth
    requires NextToken(t, p).Ok? && !StartsValue(t[NextToken(t, p).value])
    ensures ArrayItems(t, p, d, acc) == Err(InvalidCharacter(d + 1))
  {
    assert p <= NextToken(t, p).value < |t|;
    NoValueStartsHere(t, p, d + 1);
    ItemsOfFailedElement(t, p, d, acc);
  }

  /** The element loop fails with the error of an element that fails. */
  lemma ItemsOfFailedElement(t: string, k: nat, d: nat, acc: seq<Value>)
    requires k < |t| && ParseValue(t, k, d + 1).Err?
    ensures ArrayItems(t, k, d, acc) == Err(ParseValue(t, k, d + 1).error)
  {
  }

  /** A member fails with the error of a key that fails. */
  lemma MemberOfFailedKey(t: string, k: nat, d: nat, acc: seq<Member>)
    requires k <= |t| && ParseValue(t, k, d + 1).Err?
    ensures ObjectMember(t, k, d, acc) == Err(ParseValue(t, k, d + 1).error)
  {
  }

  /** parser(d) succeeds only within the depth limit. */
  lemma ValueNeedsDepth(t: string, i: nat, d: nat)
    requires i <= |t| && ParseValue(t, i, d).Ok?
    ensures d <= MaxDepth
  {
  }

  /** A member read without error had its key read at depth d + 1, within the limit. */
  lemma MemberNeedsDepth(t: string, k: nat, d: nat, acc: seq<Member>)
    requires k <= |t| && ObjectMember(t, k, d, acc).Ok?
    ensures d + 1 <= MaxDepth
  {
    ValueNeedsDepth(t, k, d + 1);
  }

  /** The member loop fails with the error of a member that fails. */
  lemma MembersOfFailedMember(t: string, k: nat, d: nat, acc: seq<Member>)
    requires k < |t| && ObjectMember(t, k, d, acc).Err?
    ensures ObjectMembers(t, k, d, acc) == Err(ObjectMember(t, k, d, acc).error)
  {
  }

  /** After an element, a byte other than ',' and ']' is the array-delimiter error; the end of the text is the unexpected end. */
  lemma ArrayDelimiter(t: string, k: nat, d: nat, acc: seq<Value>, v: Value, n: nat)
    requires k < |t| && ParseValue(t, k, d + 1) == Ok(Parsed(v, n))
    ensures NextToken(t, n).Err? ==> ArrayItems(t, k, d, acc) == Err(UnexpectedEnd)
    ensures NextToken(t, n).Ok? && t[NextToken(t, n).value] != ',' && t[NextToken(t, n).value] != ']' ==>
      ArrayItems(t, k, d, acc) == Err(ArrayDelimiterExpected(d))
  {
  }

  /** A member followed by ',' and then '}' is refused: the loop reads another key on the '}'. */
  lemma {:induction false} TrailingCommaInObject(t: string, k: nat, d: nat, acc: seq<Member>, ms: seq<Member>, n: nat, j: nat, m: nat)
    requires k < |t| && ObjectMember(t, k, d, acc) == Ok(Step(ms, n))
    requires NextToken(t, n) == Ok(j) && t[j] == ','
    requires NextToken(t, j + 1) == Ok(m) && t[m] == '}'
    ensures ObjectMembers(t, k, d, acc) == Err(InvalidCharacter(d + 1))
  {
    ObjectMembersNext(t, k, d, acc, ms, n, j);
    MemberNeedsDepth(t, k, d, acc);
    KeyExpectedAt(t, j + 1, d, ms);
  }

  /** The member loop, within the depth limit, on a byte that starts no value, fails at the key's depth. */
  lemma KeyExpectedAt(t: string, p: nat, d: nat, acc: seq<Member>)
    requires p <= |t| && d + 1 <= MaxDepth
    requires NextToken(t, p).Ok? && !StartsValue(t[NextToken(t, p).value])
    ensures ObjectMembers(t, p, d, acc) == Err(InvalidCharacter(d + 1))
  {
    assert p <= NextToken(t, p).value < |t|;
    NoValueStartsHere(t, p, d + 1);
    MemberOfFailedKey(t, p, d, acc);
    MembersOfFailedMember(t, p, d, acc);
  }

  /** After a member, a byte other than ',' and '}' is the object-delimiter error; the end of the text is the unexpected end. */
  lemma ObjectDelimiter(t: string, k: nat, d: nat, acc: seq<Member>, ms: seq<Member>, n: nat)
    requires k < |t| && ObjectMember(t, k, d, acc) == Ok(Step(ms, n))
    ensures NextToken(t, n).Err? ==> ObjectMembers(t, k, d, acc) == Err(UnexpectedEnd)
    ensures NextToken(t, n).Ok? && t[NextToken(t, n).value] != ',' && t[NextToken(t, n).value] != '}' ==>
      ObjectMembers(t, k, d, acc) == Err(ObjectDelimiterExpected(d))
  {
  }

  /** A key read by parser(d + 1) as anything but a string is refused, whatever follows it. */
  lemma KeyNotAString(t: string, k: nat, d: nat, acc: seq<Member>, v: Value, n: nat)
    requires k <= |t| && ParseValue(t, k, d + 1) == Ok(Parsed(v, n)) && !v.String?
    ensures ObjectMember(t, k, d, acc) == Err(KeyNotString)
  {
  }

  /** After a string key, a byte other than ':' is the colon error. */
  lemma ColonAfterKey(t: string, k: nat, d: nat, acc: seq<Member>, key: string, n: nat, c: nat)
    requires k <= |t| && ParseValue(t, k, d + 1) == Ok(Parsed(String(key), n))
    requires NextToken(t, n) == Ok(c) && t[c] != ':'
    ensures ObjectMember(t, k, d, acc) == Err(ColonExpected(d))
  {
  }

  /**
   * After a string key and its ':', the member fails with the duplicate-key
   * error exactly when the key was read before; the value is never read
   * for a repeated key.
   */
  lemma RepeatedKey(t: string, k: nat, d: nat, acc: seq<Member>, key: string, n: nat, c: nat)
    requires k <= |t| && ParseValue(t, k, d + 1) == Ok(Parsed(String(key), n))
    requires NextToken(t, n) == Ok(c) && t[c] == ':'
    ensures ObjectMember(t, k, d, acc) == Err(DuplicateKey(d)) <==> Lookup(acc, key).Some?
  {
    if Lookup(acc, key).None? {
      ValueErrorsAreDeeper(t, c + 1, d + 1);
    }
  }
}
