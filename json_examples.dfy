/**
 * What parserJson and writeToString do with particular texts and values:
 * the edge cases the source's branches decide.
 */
module JsonExamples {
  import opened Outcomes
  import opened JsonChars
  import opened JsonValue
  import opened JsonGrammar
  import opened JsonWriter

  // ---------------------------------------------------------------------------
  // Small readings the examples are made of
  // ---------------------------------------------------------------------------

  /** A single digit followed by a byte that ends a number is read as that digit's integer. */
  lemma DigitAt(t: string, i: nat, d: nat)
    requires i < |t| && IsDigit(t[i]) && d <= MaxDepth
    requires i + 1 == |t| || (!IsDigit(t[i + 1]) && t[i + 1] != '.' && t[i + 1] != 'e' && t[i + 1] != 'E')
    ensures ParseValue(t, i, d) == Ok(Parsed(Int(DigitValue(t[i])), i + 1))
  {
    assert NextToken(t, i) == Ok(i);
    assert DigitsEnd(t, i + 1) == i + 1;
    assert DigitsEnd(t, i) == i + 1;
    assert FractionEnd(t, i + 1) == Ok(i + 1);
    assert ExponentEnd(t, i + 1) == Ok(i + 1);
    assert NumberEnd(t, i) == Ok(i + 1);
    var w := t[i..i + 1];
    assert w == [t[i]] && w[..0] == [] && w[0] != '-';
    assert IsIntegerLexeme(w);
    assert DigitsValue(w) == DigitsValue(w[..0]) * 10 + DigitValue(t[i]);
    assert ParseNumber(t, i) == Ok(Parsed(Int(DigitValue(t[i])), i + 1));
  }

  /** A quoted string of one plain byte. */
  lemma OneByteString(t: string, i: nat, d: nat)
    requires i + 2 < |t| && t[i] == '"' && t[i + 1] != '"' && t[i + 1] != '\\' && t[i + 2] == '"'
    requires d <= MaxDepth
    ensures ParseValue(t, i, d) == Ok(Parsed(String([t[i + 1]]), i + 3))
  {
    assert NextToken(t, i) == Ok(i);
    assert "" + [t[i + 1]] == [t[i + 1]];
    assert StringBody(t, i + 2, [t[i + 1]]) == Ok(Parsed(String([t[i + 1]]), i + 3));
    assert StringBody(t, i + 1, "") == Ok(Parsed(String([t[i + 1]]), i + 3));
  }

  /** The first member "a":1 of an object, read up to the byte after the 1. */
  lemma MemberAOne(t: string, k: nat, d: nat)
    requires k + 5 < |t| && t[k..k + 5] == "\"a\":1" && d + 1 <= MaxDepth
    requires !IsDigit(t[k + 5]) && t[k + 5] != '.' && t[k + 5] != 'e' && t[k + 5] != 'E'
    ensures ObjectMember(t, k, d, []) == Ok(Step([Member("a", Int(1))], k + 5))
  {
    assert t[k] == t[k..k + 5][0] && t[k + 1] == t[k..k + 5][1] && t[k + 2] == t[k..k + 5][2];
    assert t[k + 3] == t[k..k + 5][3] && t[k + 4] == t[k..k + 5][4];
    OneByteString(t, k, d + 1);
    assert NextToken(t, k + 3) == Ok(k + 3);
    DigitAt(t, k + 4, d + 1);
    assert Insert([], "a", Int(1)) == [Member("a", Int(1))];
  }

  /** A member with key "a" after one with the same key fails at its ':'. */
  lemma KeyARepeated(t: string, k: nat, d: nat, acc: seq<Member>)
    requires k + 4 <= |t| && t[k..k + 4] == "\"a\":" && d + 1 <= MaxDepth
    requires Lookup(acc, "a").Some?
    ensures ObjectMember(t, k, d, acc) == Err(DuplicateKey(d))
  {
    assert t[k] == t[k..k + 4][0] && t[k + 1] == t[k..k + 4][1] && t[k + 2] == t[k..k + 4][2];
    assert t[k + 3] == t[k..k + 4][3];
    OneByteString(t, k, d + 1);
    assert NextToken(t, k + 3) == Ok(k + 3);
  }

  /** Appending a digit multiplies the value by ten and adds the digit. */
  lemma DigitsSnoc(t: string, c: char)
    requires AllDigits(t) && IsDigit(c)
    ensures AllDigits(t + [c]) && DigitsValue(t + [c]) == DigitsValue(t) * 10 + DigitValue(c)
  {
    assert (t + [c])[..|t|] == t;
  }

  // ---------------------------------------------------------------------------
  // The whole text
  // ---------------------------------------------------------------------------

  /** The constructor of JsonParser refuses an empty text; a text of only whitespace runs out in getNextToken(). */
  lemma EmptyTexts()
    ensures ParseJson("") == Err(EmptyInput)
    ensures ParseJson("  ") == Err(UnexpectedEnd)
  {
    var t := "  ";
    assert SkipSpace(t, 2) == 2;
    assert SkipSpace(t, 0) == 2;
    assert NextToken(t, 0) == Err(UnexpectedEnd);
  }

  /** Only the first value is read; what follows it is never looked at. */
  lemma TrailingTextIgnored()
    ensures ParseJson("1 x") == Ok(Int(1))
  {
    DigitAt("1 x", 0, 0);
  }

  // ---------------------------------------------------------------------------
  // Arrays
  // ---------------------------------------------------------------------------

  /**
   * parseArray tests for ']' before skipping whitespace, so "[ ]" reads an
   * element at the ']' and fails in parser() at depth 2; parseObject skips
   * whitespace first, so "{ }" is the empty object.
   */
  lemma EmptyContainersWithSpace()
    ensures ParseJson("[]") == Ok(Array([]))
    ensures ParseJson("[ ]") == Err(InvalidCharacter(2))
    ensures ParseJson("{ }") == Ok(Object([]))
  {
    var a := "[]";
    assert NextToken(a, 0) == Ok(0);
    assert ParseArray(a, 0, 1) == Ok(Parsed(Array([]), 2));
    var b := "[ ]";
    assert NextToken(b, 0) == Ok(0) && NextToken(b, 1) == Ok(2);
    assert ParseValue(b, 1, 2) == Err(InvalidCharacter(2));
    assert ParseArray(b, 0, 1) == Err(InvalidCharacter(2));
    var c := "{ }";
    assert NextToken(c, 0) == Ok(0) && NextToken(c, 1) == Ok(2);
    assert ParseObject(c, 0, 1) == Ok(Parsed(Object([]), 3));
  }

  /** A trailing comma makes the loop read one more element, which starts with ']'. */
  lemma TrailingComma()
    ensures ParseJson("[1,]") == Err(InvalidCharacter(2))
  {
    var t := "[1,]";
    assert NextToken(t, 0) == Ok(0);
    DigitAt(t, 1, 2);
    assert NextToken(t, 2) == Ok(2) && NextToken(t, 3) == Ok(3);
    assert ParseValue(t, 3, 2) == Err(InvalidCharacter(2));
    assert ArrayItems(t, 1, 1, []) == ArrayItems(t, 3, 1, [Int(1)]);
    assert ParseArray(t, 0, 1) == Err(InvalidCharacter(2));
  }

  /** After an element only ',' or ']' may follow, and the text may not end there. */
  lemma ArrayDelimiters()
    ensures ParseJson("[1 2]") == Err(ArrayDelimiterExpected(1))
    ensures ParseJson("[1") == Err(UnexpectedEnd)
  {
    var a := "[1 2]";
    assert NextToken(a, 0) == Ok(0);
    DigitAt(a, 1, 2);
    assert NextToken(a, 2) == Ok(3);
    assert ParseArray(a, 0, 1) == Err(ArrayDelimiterExpected(1));
    var b := "[1";
    assert NextToken(b, 0) == Ok(0);
    DigitAt(b, 1, 2);
    assert NextToken(b, 2) == Err(UnexpectedEnd);
    assert ParseArray(b, 0, 1) == Err(UnexpectedEnd);
  }

  // ---------------------------------------------------------------------------
  // Objects
  // ---------------------------------------------------------------------------

  /** A key is read as any value and must turn out to be a string followed by ':'. */
  lemma KeyErrors()
    ensures ParseJson("{1:2}") == Err(KeyNotString)
    ensures ParseJson("{\"a\" 1}") == Err(ColonExpected(1))
  {
    var a := "{1:2}";
    assert NextToken(a, 0) == Ok(0) && NextToken(a, 1) == Ok(1);
    DigitAt(a, 1, 2);
    assert ObjectMember(a, 1, 1, []) == Err(KeyNotString);
    assert ParseObject(a, 0, 1) == Err(KeyNotString);
    var b := "{\"a\" 1}";
    assert NextToken(b, 0) == Ok(0) && NextToken(b, 1) == Ok(1);
    OneByteString(b, 1, 2);
    assert NextToken(b, 4) == Ok(5);
    assert ObjectMember(b, 1, 1, []) == Err(ColonExpected(1));
    assert ParseObject(b, 0, 1) == Err(ColonExpected(1));
  }

  /** The second "a" is refused once its ':' has been read. */
  lemma DuplicateKeyRefused()
    ensures ParseJson("{\"a\":1,\"a\":2}") == Err(DuplicateKey(1))
  {
    DuplicateKeyIn("{\"a\":1,\"a\":2}");
  }

  lemma DuplicateKeyIn(t: string)
    requires t == "{\"a\":1,\"a\":2}"
    ensures ParseJson(t) == Err(DuplicateKey(1))
  {
    var m1 := [Member("a", Int(1))];
    assert NextToken(t, 0) == Ok(0) && NextToken(t, 1) == Ok(1);
    assert t[1..6] == "\"a\":1";
    MemberAOne(t, 1, 1);
    assert NextToken(t, 6) == Ok(6);
    ObjectMembersNext(t, 1, 1, [], m1, 6, 6);
    assert t[7..11] == "\"a\":";
    assert Lookup(m1, "a") == Some(Int(1));
    KeyARepeated(t, 7, 1, m1);
    assert ObjectMembers(t, 7, 1, m1) == Err(DuplicateKey(1));
    assert ParseObject(t, 0, 1) == Err(DuplicateKey(1));
    assert ParseValue(t, 0, 0) == ParseObject(t, 0, 1);
  }

  /** After a member's value only ',' or '}' may follow. */
  lemma MissingMemberDelimiter()
    ensures ParseJson("{\"a\":1 \"b\":2}") == Err(ObjectDelimiterExpected(1))
  {
    MissingMemberDelimiterIn("{\"a\":1 \"b\":2}");
  }

  lemma MissingMemberDelimiterIn(t: string)
    requires t == "{\"a\":1 \"b\":2}"
    ensures ParseJson(t) == Err(ObjectDelimiterExpected(1))
  {
    assert NextToken(t, 0) == Ok(0) && NextToken(t, 1) == Ok(1);
    assert t[1..6] == "\"a\":1";
    MemberAOne(t, 1, 1);
    assert t[6] == ' ' && t[7] == '"';
    assert SkipSpace(t, 7) == 7 && SkipSpace(t, 6) == 7;
    assert NextToken(t, 6) == Ok(7);
    assert ObjectMembers(t, 1, 1, []) == Err(ObjectDelimiterExpected(1));
    assert ParseObject(t, 0, 1) == Err(ObjectDelimiterExpected(1));
    assert ParseValue(t, 0, 0) == ParseObject(t, 0, 1);
  }

  // ---------------------------------------------------------------------------
  // Literals and numbers
  // ---------------------------------------------------------------------------

  /** Literals are compared byte for byte, after leading whitespace. */
  lemma Literals()
    ensures ParseJson("nul") == Err(InvalidNull)
    ensures ParseJson("fals") == Err(InvalidBool)
    ensures ParseJson(" true") == Ok(Bool(true))
  {
    assert NextToken("nul", 0) == Ok(0);
    assert !StartsWith("nul", 0, "null");
    assert NextToken("fals", 0) == Ok(0);
    assert !StartsWith("fals", 0, "true") && !StartsWith("fals", 0, "false");
    var t := " true";
    assert SkipSpace(t, 1) == 1 && NextToken(t, 0) == Ok(1);
    assert t[1..5] == "true";
    assert ParseBoolean(t, 1) == Ok(Parsed(Bool(true), 5));
  }

  /** The scanning loops of parseNumber demand a digit after '-', after '.' and after the exponent's sign. */
  lemma NumberScanErrors()
    ensures ParseJson("-") == Err(InvalidNumber)
    ensures ParseJson("1.") == Err(MissingFractionDigits)
    ensures ParseJson("1e+") == Err(MissingExponentDigits)
  {
    assert NextToken("-", 0) == Ok(0);
    assert NumberEnd("-", 0) == Err(InvalidNumber);
    var a := "1.";
    assert NextToken(a, 0) == Ok(0);
    assert DigitsEnd(a, 1) == 1 && DigitsEnd(a, 0) == 1;
    assert NumberEnd(a, 0) == Err(MissingFractionDigits);
    var b := "1e+";
    assert NextToken(b, 0) == Ok(0);
    assert DigitsEnd(b, 1) == 1 && DigitsEnd(b, 0) == 1;
    assert FractionEnd(b, 1) == Ok(1);
    assert NumberEnd(b, 0) == Err(MissingExponentDigits);
  }

  /** A number holding '.', 'e' or 'E' is a double, kept here as its text. */
  lemma DoubleLexeme()
    ensures ParseJson("1.5e3") == Ok(Double("1.5e3"))
  {
    var t := "1.5e3";
    assert NextToken(t, 0) == Ok(0);
    assert DigitsEnd(t, 5) == 5 && DigitsEnd(t, 4) == 5;
    assert DigitsEnd(t, 3) == 3 && DigitsEnd(t, 2) == 3;
    assert DigitsEnd(t, 1) == 1 && DigitsEnd(t, 0) == 1;
    assert FractionEnd(t, 1) == Ok(3);
    assert ExponentEnd(t, 3) == Ok(5);
    assert NumberEnd(t, 0) == Ok(5);
    assert t[0..5] == t && '.' in t;
    assert ParseNumber(t, 0) == Ok(Parsed(Double(t), 5));
  }

  /** std::stoi reads leading zeros as part of the number. */
  lemma LeadingZeros()
    ensures ParseJson("007") == Ok(Int(7))
  {
    var t := "007";
    DigitsSnoc("", '0');
    assert "" + ['0'] == "0";
    DigitsSnoc("0", '0');
    assert "0" + ['0'] == "00";
    DigitsSnoc("00", '7');
    assert "00" + ['7'] == t;
    assert NextToken(t, 0) == Ok(0);
    DigitsToEnd(t, 0);
    assert NumberEnd(t, 0) == Ok(3);
    assert t[0..3] == t && '.' !in t && 'e' !in t && 'E' !in t;
    assert ParseNumber(t, 0) == Ok(Parsed(Int(7), 3));
  }

  /** The digits of 2^31 denote 2^31. */
  lemma DigitsOfMinInt()
    ensures AllDigits("2147483648") && DigitsValue("2147483648") == 0x8000_0000
  {
    DigitsSnoc("", '2');
    assert "" + ['2'] == "2";
    DigitsSnoc("2", '1');
    assert "2" + ['1'] == "21";
    DigitsSnoc("21", '4');
    assert "21" + ['4'] == "214";
    DigitsSnoc("214", '7');
    assert "214" + ['7'] == "2147";
    DigitsSnoc("2147", '4');
    assert "2147" + ['4'] == "21474";
    DigitsSnoc("21474", '8');
    assert "21474" + ['8'] == "214748";
    DigitsSnoc("214748", '3');
    assert "214748" + ['3'] == "2147483";
    DigitsSnoc("2147483", '6');
    assert "2147483" + ['6'] == "21474836";
    DigitsSnoc("21474836", '4');
    assert "21474836" + ['4'] == "214748364";
    DigitsSnoc("214748364", '8');
    assert "214748364" + ['8'] == "2147483648";
  }

  /** The scan of a run of digits from index a stops at the end of the text. */
  lemma DigitsToEnd(t: string, a: nat)
    requires a <= |t| && forall k :: a <= k < |t| ==> IsDigit(t[k])
    ensures DigitsEnd(t, a) == |t|
    decreases |t| - a
  {
    if a < |t| {
      DigitsToEnd(t, a + 1);
    }
  }

  /** std::stoi accepts -2^31 and refuses 2^31. */
  lemma IntRange()
    ensures ParseJson("2147483648") == Err(IntOutOfRange)
    ensures ParseJson("-2147483648") == Ok(Int(-2147483648))
  {
    DigitsOfMinInt();
    SignedDigitsRead("2147483648", 0);
    SignedDigitsRead("-2147483648", 1);
  }

  /** A text of digits, after a '-' when a == 1, is scanned whole and handed to std::stoi whole. */
  lemma SignedDigitsRead(t: string, a: nat)
    requires a <= 1 && a < |t| && (a == 1 <==> t[0] == '-') && AllDigits(t[a..])
    ensures ParseJson(t) == match Stoi(t) { case Ok(n) => Ok(Int(n)) case Err(e) => Err(e) }
  {
    assert !IsSpace(t[0]) && NextToken(t, 0) == Ok(0);
    forall k | a <= k < |t|
      ensures IsDigit(t[k])
    {
      assert t[k] == t[a..][k - a];
    }
    DigitsToEnd(t, a);
    assert FractionEnd(t, |t|) == Ok(|t|) && ExponentEnd(t, |t|) == Ok(|t|);
    assert NumberEnd(t, 0) == Ok(|t|);
    assert t[0..|t|] == t;
    assert '.' !in t && 'e' !in t && 'E' !in t by {
      forall k | 0 <= k < |t|
        ensures t[k] != '.' && t[k] != 'e' && t[k] != 'E'
      {
        if k >= a {
          assert IsDigit(t[k]);
        }
      }
    }
    assert ParseValue(t, 0, 0) == ParseNumber(t, 0);
  }

  // ---------------------------------------------------------------------------
  // Strings
  // ---------------------------------------------------------------------------

  /** parseString unescapes the two bytes \ t into a tab. */
  lemma TabEscape()
    ensures ParseJson("\"a\\tb\"") == Ok(String("a\tb"))
  {
    var t := "\"a\\tb\"";
    assert NextToken(t, 0) == Ok(0);
    assert "" + ['a'] == "a" && "a" + ['\t'] == "a\t" && "a\t" + ['b'] == "a\tb";
    assert StringBody(t, 5, "a\tb") == Ok(Parsed(String("a\tb"), 6));
    assert StringBody(t, 4, "a\t") == Ok(Parsed(String("a\tb"), 6));
    assert StringBody(t, 2, "a") == Ok(Parsed(String("a\tb"), 6));
    assert StringBody(t, 1, "") == Ok(Parsed(String("a\tb"), 6));
  }

  /** parseString knows five escapes, and \u is not one of them; a string needs its closing quote. */
  lemma StringErrors()
    ensures ParseJson("\"\\u0041\"") == Err(InvalidEscape)
    ensures ParseJson("\"ab") == Err(UnterminatedString)
  {
    var a := "\"\\u0041\"";
    assert NextToken(a, 0) == Ok(0);
    assert Unescape('u') == None;
    assert StringBody(a, 1, "") == Err(InvalidEscape);
    var b := "\"ab";
    assert NextToken(b, 0) == Ok(0);
    assert StringBody(b, 3, "ab") == Err(UnterminatedString);
    assert StringBody(b, 2, "a") == Err(UnterminatedString);
    assert StringBody(b, 1, "") == Err(UnterminatedString);
  }

  // ---------------------------------------------------------------------------
  // The serializer
  // ---------------------------------------------------------------------------

  /** writeToString escapes quotes and the short-form control bytes with a backslash. */
  lemma WriteShortEscapes()
    ensures Write(String("a\"b\n")) == "\"a\\\"b\\n\""
  {
    var s := "a\"b\n";
    assert s[1..] == "\"b\n" && s[1..][1..] == "b\n" && s[1..][1..][1..] == "\n" && s[1..][1..][1..][1..] == "";
    assert Escape("\n") == "\\n";
    assert Escape("b\n") == "b\\n";
    assert Escape("\"b\n") == "\\\"b\\n";
    assert Escape(s) == "a\\\"b\\n";
  }

  /** A control byte without a short form is written as \u and four hexadecimal digits. */
  lemma WriteHexEscape()
    ensures Write(String([1 as char])) == "\"\\u0001\""
  {
    var c := 1 as char;
    assert HexPad(0, 1) == "0";
    assert HexPad(0, 2) == "00";
    assert HexPad(0, 3) == "000";
    assert Hex4(1) == "0001";
    assert IsControl(c) && !HasShortEscape(c);
    assert EscapeChar(c) == "\\u0001";
    assert [c][1..] == "";
    assert Escape([c]) == "\\u0001";
  }

  /** Containers are written compactly: no whitespace, ',' between elements, ':' after keys. */
  lemma WriteCompact()
    ensures Write(Object([Member("k", Array([Int(-5), Null]))])) == "{\"k\":[-5,null]}"
  {
    WriteObjectOfArray("k", Int(-5), Null);
  }

  lemma WriteObjectOfArray(key: string, x: Value, y: Value)
    requires key == "k" && x == Int(-5) && y == Null
    ensures Write(Object([Member(key, Array([x, y]))])) == "{\"k\":[-5,null]}"
  {
    WritePair(x, y);
    assert Escape(key) == "k" by {
      assert key[1..] == "";
    }
    var m := Member(key, Array([x, y]));
    assert WriteMember(m) == "\"" + "k" + "\":" + "[-5,null]";
    assert WriteMembers([m]) == WriteMember(m);
  }

  lemma WritePair(x: Value, y: Value)
    requires x == Int(-5) && y == Null
    ensures Write(Array([x, y])) == "[-5,null]"
  {
    var es := [x, y];
    assert Write(x) == "-5" by {
      assert NatToDigits(5) == "5";
    }
    assert es[1..] == [y];
    assert WriteElems([y]) == "null";
    assert WriteElems(es) == Write(x) + "," + WriteElems([y]);
  }
}
