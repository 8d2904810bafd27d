/**
 * Properties of the parser functions: every value they build keeps its
 * objects sorted by key, the number scanner accepts exactly the lexemes of
 * the number grammar it implements and picks Int or Double by the lexeme,
 * and parseString reads back what escapeString writes for exactly the
 * strings whose control bytes are \n, \t and \r.
 */
module JsonGrammarLaws {
  import opened Outcomes
  import opened JsonChars
  import opened JsonValue
  import opened JsonGrammar
  import opened JsonWriter
  import JsonValueLaws

  // ---------------------------------------------------------------------------
  // Parsed values are well formed
  // ---------------------------------------------------------------------------

  lemma {:induction false} ParseValueWellFormed(s: string, i: nat, d: nat)
    requires i <= |s|
    ensures ParseValue(s, i, d).Ok? ==> WellFormed(ParseValue(s, i, d).value.value)
    decreases |s| - i, 2
  {
    if d <= MaxDepth && NextToken(s, i).Ok? {
      DispatchWellFormed(s, NextToken(s, i).value, d);
    }
  }

  lemma {:induction false} DispatchWellFormed(s: string, j: nat, d: nat)
    requires j < |s|
    ensures Dispatch(s, j, d).Ok? ==> WellFormed(Dispatch(s, j, d).value.value)
    decreases |s| - j, 1
  {
    var c := s[j];
    if c == '[' {
      ParseArrayWellFormed(s, j, d + 1);
    } else if c == '{' {
      ParseObjectWellFormed(s, j, d + 1);
    }
  }

  lemma {:induction false} ParseArrayWellFormed(s: string, i: nat, d: nat)
    requires i < |s|
    ensures ParseArray(s, i, d).Ok? ==> WellFormed(ParseArray(s, i, d).value.value)
    decreases |s| - i, 0
  {
    if i + 1 < |s| && s[i + 1] != ']' {
      ArrayItemsWellFormed(s, i + 1, d, []);
    }
  }

  lemma {:induction false} ArrayItemsWellFormed(s: string, k: nat, d: nat, acc: seq<Value>)
    requires k <= |s| && WellFormed(Array(acc))
    ensures ArrayItems(s, k, d, acc).Ok? ==> WellFormed(ArrayItems(s, k, d, acc).value.value)
    decreases |s| - k, 4
  {
    if k < |s| && ParseValue(s, k, d + 1).Ok? {
      var elem := ParseValue(s, k, d + 1).value;
      ParseValueWellFormed(s, k, d + 1);
      var next := acc + [elem.value];
      assert WellFormed(Array(next)) by {
        forall m | 0 <= m < |next| ensures WellFormed(next[m]) {
          if m < |acc| {
            assert next[m] == acc[m];
          }
        }
      }
      if NextToken(s, elem.next).Ok? {
        var j := NextToken(s, elem.next).value;
        if s[j] == ',' {
          ArrayItemsWellFormed(s, j + 1, d, next);
        }
      }
    }
  }

  lemma {:induction false} ParseObjectWellFormed(s: string, i: nat, d: nat)
    requires i < |s|
    ensures ParseObject(s, i, d).Ok? ==> WellFormed(ParseObject(s, i, d).value.value)
    decreases |s| - i, 0
  {
    if i + 1 < |s| && NextToken(s, i + 1).Ok? {
      var j := NextToken(s, i + 1).value;
      if s[j] != '}' {
        ObjectMembersWellFormed(s, j, d, []);
      }
    }
  }

  lemma {:induction false} ObjectMembersWellFormed(s: string, k: nat, d: nat, acc: seq<Member>)
    requires k <= |s| && WellFormed(Object(acc))
    ensures ObjectMembers(s, k, d, acc).Ok? ==> WellFormed(ObjectMembers(s, k, d, acc).value.value)
    decreases |s| - k, 4
  {
    if k < |s| && ObjectMember(s, k, d, acc).Ok? {
      var step := ObjectMember(s, k, d, acc).value;
      ObjectMemberWellFormed(s, k, d, acc);
      if NextToken(s, step.next).Ok? {
        var j := NextToken(s, step.next).value;
        if s[j] == ',' {
          ObjectMembersWellFormed(s, j + 1, d, step.members);
        }
      }
    }
  }

  lemma {:induction false} ObjectMemberWellFormed(s: string, k: nat, d: nat, acc: seq<Member>)
    requires k <= |s| && WellFormed(Object(acc))
    ensures ObjectMember(s, k, d, acc).Ok? ==> WellFormed(Object(ObjectMember(s, k, d, acc).value.members))
    decreases |s| - k, 3
  {
    var r := ObjectMember(s, k, d, acc);
    if r.Ok? {
      var key := ParseValue(s, k, d + 1).value;
      var c := NextToken(s, key.next).value;
      var val := ParseValue(s, c + 1, d + 1).value;
      ParseValueWellFormed(s, c + 1, d + 1);
      JsonValueLaws.InsertWellFormed(acc, key.value.str, val.value);
    }
  }

  /** What parserJson returns has its objects sorted by key at every level. */
  lemma ParseJsonWellFormed(text: string)
    ensures ParseJson(text).Ok? ==> WellFormed(ParseJson(text).value)
  {
    if |text| > 0 {
      ParseValueWellFormed(text, 0, 0);
    }
  }

  // ---------------------------------------------------------------------------
  // Numbers
  // ---------------------------------------------------------------------------

  /** One or more decimal digits. */
  predicate IsDigits(t: string)
  {
    |t| > 0 && AllDigits(t)
  }

  /** Nothing, or '.' and one or more digits. */
  predicate IsFractionPart(t: string)
  {
    |t| == 0 || (t[0] == '.' && IsDigits(t[1..]))
  }

  /** Nothing, or 'e'/'E', an optional sign and one or more digits. */
  predicate IsExponentPart(t: string)
  {
    |t| == 0 ||
    ((t[0] == 'e' || t[0] == 'E') &&
     (IsDigits(t[1..]) || (|t| > 1 && (t[1] == '+' || t[1] == '-') && IsDigits(t[2..]))))
  }

  /**
   * The number grammar of parseNumber: an optional '-', one or more digits,
   * an optional fraction and an optional exponent, split at a, b and c.
   */
  predicate IsNumberSplit(t: string, a: nat, b: nat, c: nat)
  {
    a <= b <= c <= |t| &&
    (a == 0 || (a == 1 && t[0] == '-')) &&
    IsDigits(t[a..b]) && IsFractionPart(t[b..c]) && IsExponentPart(t[c..])
  }

  ghost predicate IsNumberLexeme(t: string)
  {
    exists a: nat, b: nat, c: nat :: IsNumberSplit(t, a, b, c)
  }

  /** DigitsEnd passes over digits only, and at least one when it starts on one. */
  lemma DigitsRun(s: string, i: nat)
    requires i < |s| && IsDigit(s[i])
    ensures IsDigits(s[i..DigitsEnd(s, i)])
  {
    DigitsEndSkipsDigits(s, i);
  }

  lemma FractionSound(s: string, b: nat)
    requires b <= |s| && FractionEnd(s, b).Ok?
    ensures IsFractionPart(s[b..FractionEnd(s, b).value])
  {
    var c := FractionEnd(s, b).value;
    if c > b {
      DigitsRun(s, b + 1);
      assert s[b..c][1..] == s[b + 1..c];
    }
  }

  lemma ExponentSound(s: string, c: nat)
    requires c <= |s| && ExponentEnd(s, c).Ok?
    ensures IsExponentPart(s[c..ExponentEnd(s, c).value])
  {
    var e := ExponentEnd(s, c).value;
    if e > c {
      var t := s[c..e];
      if s[c + 1] == '+' || s[c + 1] == '-' {
        DigitsRun(s, c + 2);
        assert t[2..] == s[c + 2..e];
      } else {
        DigitsRun(s, c + 1);
        assert t[1..] == s[c + 1..e];
      }
    }
  }

  lemma SliceOfSlice(s: string, i: nat, e: nat, x: nat, y: nat)
    requires i <= x <= y <= e <= |s|
    ensures s[i..e][x - i..y - i] == s[x..y]
  {
    forall k | 0 <= k < y - x
      ensures s[i..e][x - i..y - i][k] == s[x..y][k]
    {
      assert s[i..e][x - i..y - i][k] == s[i..e][x - i + k];
    }
  }

  /** Whatever the scanner of parseNumber accepts is a lexeme of the number grammar. */
  lemma NumberEndSound(s: string, i: nat)
    requires i < |s| && NumberEnd(s, i).Ok?
    ensures IsNumberLexeme(s[i..NumberEnd(s, i).value])
  {
    var e := NumberEnd(s, i).value;
    var a := SignEnd(s, i);
    var b := DigitsEnd(s, a);
    var c := FractionEnd(s, b).value;
    assert e == ExponentEnd(s, c).value;
    var t := s[i..e];
    DigitsRun(s, a);
    FractionSound(s, b);
    ExponentSound(s, c);
    SliceOfSlice(s, i, e, a, b);
    SliceOfSlice(s, i, e, b, c);
    SliceOfSlice(s, i, e, c, e);
    assert t[c - i..] == t[c - i..e - i];
    if a > i {
      assert t[0] == s[i];
    }
    assert IsNumberSplit(t, a - i, b - i, c - i);
  }

  /**
   * The scanner takes the longest run it can: it never stops in front of a
   * digit, in front of a '.' while the lexeme has neither a fraction nor an
   * exponent, or in front of an 'e' or 'E' while it has no exponent.
   */
  lemma NumberEndMaximal(s: string, i: nat)
    requires i < |s| && NumberEnd(s, i).Ok?
    ensures var e := NumberEnd(s, i).value;
            var t := s[i..e];
            e < |s| ==>
              !IsDigit(s[e]) &&
              (s[e] == '.' ==> '.' in t || 'e' in t || 'E' in t) &&
              (s[e] == 'e' || s[e] == 'E' ==> 'e' in t || 'E' in t)
  {
    var a := SignEnd(s, i);
    var b := DigitsEnd(s, a);
    var c := FractionEnd(s, b).value;
    var e := NumberEnd(s, i).value;
    assert NumberEnd(s, i) == ExponentEnd(s, c);
    var t := s[i..e];
    if c > b {
      assert t[b - i] == s[b] == '.';
    }
    if e > c {
      assert t[c - i] == s[c];
    }
  }

  /** At b: a '.' with no digit after it. */
  predicate BareDot(s: string, b: nat)
    requires b <= |s|
  {
    b < |s| && s[b] == '.' && (b + 1 == |s| || !IsDigit(s[b + 1]))
  }

  /** At c: an 'e' or 'E' and an optional sign, with no digit after them. */
  predicate BareExponent(s: string, c: nat)
    requires c <= |s|
  {
    c < |s| && (s[c] == 'e' || s[c] == 'E') &&
    var k := if c + 1 < |s| && (s[c + 1] == '+' || s[c + 1] == '-') then c + 2 else c + 1;
    k == |s| || !IsDigit(s[k])
  }

  /**
   * The three errors of the scanner, each from the bytes: no digit after the
   * optional '-'; a '.' right after the digits with no digit after it; an
   * 'e' or 'E' (and an optional sign) right after the digits and any
   * fraction, with no digit after it.  No other error is possible.
   */
  lemma NumberEndRejects(s: string, i: nat)
    requires i < |s|
    ensures NumberEnd(s, i).Err? ==>
      NumberEnd(s, i).error in {InvalidNumber, MissingFractionDigits, MissingExponentDigits}
    ensures NumberEnd(s, i) == Err(InvalidNumber) <==> SignEnd(s, i) == |s| || !IsDigit(s[SignEnd(s, i)])
    ensures NumberEnd(s, i) == Err(MissingFractionDigits) <==>
      var a := SignEnd(s, i);
      a < |s| && IsDigit(s[a]) && BareDot(s, DigitsEnd(s, a))
    ensures NumberEnd(s, i) == Err(MissingExponentDigits) <==>
      var a := SignEnd(s, i);
      a < |s| && IsDigit(s[a]) &&
      var b := DigitsEnd(s, a);
      var fraction := b < |s| && s[b] == '.';
      !BareDot(s, b) && BareExponent(s, if fraction then DigitsEnd(s, b + 1) else b)
  {
  }

  /**
   * parseNumber reads a Double exactly when the lexeme holds '.', 'e' or
   * 'E', keeps its text, and otherwise reads an Int with the lexeme's value;
   * the cursor ends just past the lexeme.
   */
  lemma ParseNumberKind(s: string, i: nat)
    requires i < |s| && ParseNumber(s, i).Ok?
    ensures NumberEnd(s, i) == Ok(ParseNumber(s, i).value.next)
    ensures var t := s[i..ParseNumber(s, i).value.next];
            var v := ParseNumber(s, i).value.value;
            (v.Double? <==> '.' in t || 'e' in t || 'E' in t) &&
            (v.Double? ==> v.lexeme == t) &&
            (!v.Double? ==> IsIntegerLexeme(t) && v == Int(IntegerValue(t)))
  {
    var e := NumberEnd(s, i).value;
    var t := s[i..e];
    if !('.' in t || 'e' in t || 'E' in t) {
      NumberEndIntegral(s, i, e);
    }
  }

  /** An integer lexeme is rejected exactly when its value does not fit in 32 bits. */
  lemma ParseNumberRange(s: string, i: nat)
    requires i < |s| && NumberEnd(s, i).Ok?
    requires var t := s[i..NumberEnd(s, i).value]; '.' !in t && 'e' !in t && 'E' !in t
    ensures IsIntegerLexeme(s[i..NumberEnd(s, i).value])
    ensures ParseNumber(s, i).Err? <==> !InInt32(IntegerValue(s[i..NumberEnd(s, i).value]))
    ensures ParseNumber(s, i).Err? ==> ParseNumber(s, i).error == IntOutOfRange
  {
    NumberEndIntegral(s, i, NumberEnd(s, i).value);
  }

  // ---------------------------------------------------------------------------
  // Strings: parseString reads back escapeString
  // ---------------------------------------------------------------------------

  /**
   * A text with no '"' from i on never closes the string: the loop runs
   * out, or stops at an escape it cannot read, before it reaches the end.
   */
  lemma {:induction false} StringBodyNeedsQuote(s: string, i: nat, acc: string)
    requires i <= |s|
    requires forall k :: i <= k < |s| ==> s[k] != '"'
    ensures StringBody(s, i, acc) == Err(UnterminatedString) || StringBody(s, i, acc) == Err(InvalidEscape)
    decreases |s| - i
  {
    if i < |s| {
      if s[i] != '\\' {
        StringBodyNeedsQuote(s, i + 1, acc + [s[i]]);
      } else if i + 1 < |s| && Unescape(s[i + 1]).Some? {
        StringBodyNeedsQuote(s, i + 2, acc + [Unescape(s[i + 1]).value]);
      }
    }
  }

  /** parseString on a text with no closing '"' after the opening one fails. */
  lemma ParseStringNeedsQuote(s: string, i: nat)
    requires i < |s|
    requires forall k :: i < k < |s| ==> s[k] != '"'
    ensures ParseString(s, i) == Err(UnterminatedString) || ParseString(s, i) == Err(InvalidEscape)
  {
    StringBodyNeedsQuote(s, i + 1, "");
  }

  /** A byte that parseString reads back from its escape: not a control byte, or \n, \t, \r. */
  predicate SafeChar(c: char)
  {
    !IsControl(c) || c == '\n' || c == '\t' || c == '\r'
  }

  predicate ParseSafe(s: string)
  {
    forall k :: 0 <= k < |s| ==> SafeChar(s[k])
  }

  /** The text position i holds the string w. */
  predicate Holds(t: string, i: nat, w: string)
  {
    i + |w| <= |t| && forall k :: 0 <= k < |w| ==> t[i + k] == w[k]
  }

  lemma HoldsSplit(t: string, i: nat, a: string, b: string)
    requires Holds(t, i, a + b)
    ensures Holds(t, i, a) && Holds(t, i + |a|, b)
  {
    forall k | 0 <= k < |a| ensures t[i + k] == a[k] {
      assert (a + b)[k] == a[k];
    }
    forall k | 0 <= k < |b| ensures t[i + |a| + k] == b[k] {
      assert (a + b)[|a| + k] == b[k];
    }
  }

  lemma HoldsAt(t: string, i: nat, w: string, k: nat)
    requires Holds(t, i, w) && k < |w|
    ensures t[i + k] == w[k]
  {
  }

  /** The escape of one safe byte is read back as that byte, and the cursor moves past it. */
  lemma StringBodyStep(t: string, i: nat, c: char, acc: string)
    requires Holds(t, i, EscapeChar(c)) && i + |EscapeChar(c)| <= |t|
    ensures SafeChar(c) ==> StringBody(t, i, acc) == StringBody(t, i + |EscapeChar(c)|, acc + [c])
    ensures !SafeChar(c) ==> StringBody(t, i, acc) == Err(InvalidEscape)
  {
    var w := EscapeChar(c);
    HoldsAt(t, i, w, 0);
    if w != [c] {
      HoldsAt(t, i, w, 1);
    }
  }

  /**
   * From a position holding escapeString(s) and then '"', parseString's loop
   * reads s and stops past the quote, unless s holds a control byte other
   * than \n, \t, \r, whose escape it refuses.
   */
  lemma StringBodyOfEscape(t: string, i: nat, s: string, acc: string)
    requires Holds(t, i, Escape(s)) && i + |Escape(s)| < |t| && t[i + |Escape(s)|] == '"'
    ensures StringBody(t, i, acc) ==
      if ParseSafe(s) then Ok(Parsed(String(acc + s), i + |Escape(s)| + 1)) else Err(InvalidEscape)
  {
    if ParseSafe(s) {
      SafeStringBody(t, i, s, acc, i + |Escape(s)|);
    } else {
      UnsafeStringBody(t, i, s, acc);
    }
  }

  /** The loop reads a safe s, whose escape stands at i and ends at the '"' at e. */
  lemma {:induction false} SafeStringBody(t: string, i: nat, s: string, acc: string, e: nat)
    requires Holds(t, i, Escape(s)) && e == i + |Escape(s)| && e < |t| && t[e] == '"'
    requires ParseSafe(s)
    ensures StringBody(t, i, acc) == Ok(Parsed(String(acc + s), e + 1))
    decreases |s|
  {
    if |s| == 0 {
      assert acc + s == acc;
    } else {
      var c := s[0];
      EscapeStep(t, i, s);
      ParseSafeCons(s);
      StringBodyStep(t, i, c, acc);
      SafeStringBody(t, i + |EscapeChar(c)|, s[1..], acc + [c], e);
      assert acc + [c] + s[1..] == acc + s;
    }
  }

  lemma {:induction false} UnsafeStringBody(t: string, i: nat, s: string, acc: string)
    requires Holds(t, i, Escape(s)) && i + |Escape(s)| < |t|
    requires !ParseSafe(s)
    ensures StringBody(t, i, acc) == Err(InvalidEscape)
    decreases |s|
  {
    var c := s[0];
    EscapeStep(t, i, s);
    ParseSafeCons(s);
    StringBodyStep(t, i, c, acc);
    if SafeChar(c) {
      var j := i + |EscapeChar(c)|;
      assert !ParseSafe(s[1..]) && j + |Escape(s[1..])| < |t|;
      UnsafeStringBody(t, j, s[1..], acc + [c]);
    }
  }

  /** The escape of s at i: the escape of its first byte, then the escape of the rest. */
  lemma EscapeStep(t: string, i: nat, s: string)
    requires |s| > 0 && Holds(t, i, Escape(s))
    ensures |Escape(s)| == |EscapeChar(s[0])| + |Escape(s[1..])|
    ensures Holds(t, i, EscapeChar(s[0])) && i + |EscapeChar(s[0])| <= |t|
    ensures Holds(t, i + |EscapeChar(s[0])|, Escape(s[1..]))
  {
    EscapeCons(s);
    HoldsSplit(t, i, EscapeChar(s[0]), Escape(s[1..]));
  }

  lemma EscapeCons(s: string)
    requires |s| > 0
    ensures Escape(s) == EscapeChar(s[0]) + Escape(s[1..])
  {
  }

  lemma ParseSafeCons(s: string)
    requires |s| > 0
    ensures ParseSafe(s) <==> SafeChar(s[0]) && ParseSafe(s[1..])
  {
    if SafeChar(s[0]) && ParseSafe(s[1..]) {
      forall k | 0 <= k < |s| ensures SafeChar(s[k]) {
        if k > 0 {
          assert s[k] == s[1..][k - 1];
        }
      }
    }
  }

  /**
   * parseString on the quoted escape of s (Quote is what writeToString emits
   * for a string) returns s with the cursor just past the closing quote,
   * and fails with InvalidEscape exactly when s is not safe.
   */
  lemma ParseStringOfQuote(t: string, i: nat, s: string)
    requires Holds(t, i, Quote(s))
    ensures ParseString(t, i) ==
      if ParseSafe(s) then Ok(Parsed(String(s), i + |Quote(s)|)) else Err(InvalidEscape)
  {
    QuoteHolds(t, i, s);
    if ParseSafe(s) {
      SafeStringBody(t, i + 1, s, "", i + 1 + |Escape(s)|);
      assert "" + s == s;
    } else {
      UnsafeStringBody(t, i + 1, s, "");
    }
  }

  /** A position holding a quoted string holds '"', the escaped bytes, and '"'. */
  lemma QuoteHolds(t: string, i: nat, s: string)
    requires Holds(t, i, Quote(s))
    ensures |Quote(s)| == |Escape(s)| + 2
    ensures i < |t| && t[i] == '"'
    ensures Holds(t, i + 1, Escape(s))
    ensures i + 1 + |Escape(s)| < |t| && t[i + 1 + |Escape(s)|] == '"'
  {
    assert Quote(s) == "\"" + (Escape(s) + "\"");
    HoldsSplit(t, i, "\"", Escape(s) + "\"");
    HoldsSplit(t, i + 1, Escape(s), "\"");
    HoldsAt(t, i, "\"", 0);
    HoldsAt(t, i + 1 + |Escape(s)|, "\"", 0);
  }

  /** The round trip on a text that is exactly the quoted string. */
  lemma StringRoundTrip(s: string)
    ensures ParseString(Quote(s), 0) == if ParseSafe(s) then Ok(Parsed(String(s), |Quote(s)|)) else Err(InvalidEscape)
  {
    assert Quote(s)[0..0 + |Quote(s)|] == Quote(s);
    ParseStringOfQuote(Quote(s), 0, s);
  }
}
