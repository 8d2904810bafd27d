/**
 * The recursive-descent parser (class JsonParser) as functions of the text
 * and a cursor.  Each function takes the cursor where the source's member
 * function starts and returns the value read with the cursor just past it,
 * or the error the source throws.  These functions specify the imperative
 * parser in json_parser.dfy.
 */
module JsonGrammar {
  import opened Outcomes
  import opened JsonChars
  import opened JsonValue

  /** _iMaxDepth: the deepest `CurrentDepth` parser() accepts. */
  const MaxDepth: nat := 64

  /**
   * What the parser throws.  Errors the source raises as JsonParseError carry
   * that error's "index", which the source fills with the current depth;
   * the others are std::logic_error or std::bad_variant_access and carry nothing.
   */
  datatype ParseError =
    | EmptyInput                          // the constructor, on an empty text
    | MaxDepthExceeded(depth: nat)        // parser(), CurrentDepth > 64
    | InvalidCharacter(depth: nat)        // parser(), no value starts with the next byte
    | UnexpectedEnd                       // getNextToken(), only whitespace is left
    | InvalidNull                         // parseNull()
    | InvalidBool                         // parseBoolean()
    | InvalidNumber                       // parseNumber(), no digit after the optional '-'
    | MissingFractionDigits               // parseNumber(), no digit after '.'
    | MissingExponentDigits               // parseNumber(), no digit after 'e'/'E' and its sign
    | IntOutOfRange                       // std::stoi, the integer does not fit in 32 bits
    | UnterminatedString                  // parseString(), the text ends before the closing '"'
    | InvalidEscape                       // parseString(), '\' followed by a byte outside n t r " \
    | ArrayUnexpectedEnd(depth: nat)      // parseArray(), the text ends after '[' or ','
    | ArrayDelimiterExpected(depth: nat)  // parseArray(), neither ',' nor ']' after an element
    | ObjectUnexpectedEnd(depth: nat)     // parseObject(), the text ends after '{' or ','
    | KeyNotString                        // parseObject(), get<json_string>() on a non-string key
    | ColonExpected(depth: nat)           // parseObject(), no ':' after a key
    | DuplicateKey(depth: nat)            // parseObject(), the key is already in the object
    | ObjectDelimiterExpected(depth: nat) // parseObject(), neither ',' nor '}' after a value

  /** A value that was read, and the cursor just past it. */
  datatype Parsed = Parsed(value: Value, next: nat)

  // ---------------------------------------------------------------------------
  // Whitespace and the next token
  // ---------------------------------------------------------------------------

  /** The loop of getNextToken(): the first index at or after i that does not hold whitespace. */
  function SkipSpace(s: string, i: nat): (j: nat)
    requires i <= |s|
    ensures i <= j <= |s|
    ensures !IsSpace(At(s, j))
    decreases |s| - i
  {
    if IsSpace(At(s, i)) then SkipSpace(s, i + 1) else i
  }

  /** Everything SkipSpace passes over is whitespace. */
  lemma {:induction false} SkipSpaceSkipsSpaces(s: string, i: nat, k: nat)
    requires i <= |s| && i <= k < SkipSpace(s, i)
    ensures IsSpace(s[k])
    decreases |s| - i
  {
    if k > i {
      SkipSpaceSkipsSpaces(s, i + 1, k);
    }
  }

  /** getNextToken(): the index of the next non-whitespace byte, or UnexpectedEnd. */
  function NextToken(s: string, i: nat): (r: Result<nat, ParseError>)
    requires i <= |s|
    ensures r.Ok? <==> SkipSpace(s, i) < |s|
    ensures r.Ok? ==> r.value == SkipSpace(s, i)
    ensures r.Err? ==> r.error == UnexpectedEnd
  {
    var j := SkipSpace(s, i);
    if j >= |s| then Err(UnexpectedEnd) else Ok(j)
  }

  // ---------------------------------------------------------------------------
  // Literals
  // ---------------------------------------------------------------------------

  /** The text from i on begins with the literal w (std::string::compare(i, |w|, w) == 0). */
  predicate StartsWith(s: string, i: nat, w: string)
  {
    i + |w| <= |s| && s[i..i + |w|] == w
  }

  /** parseNull(). */
  function ParseNull(s: string, i: nat): (r: Result<Parsed, ParseError>)
    ensures r.Ok? <==> StartsWith(s, i, "null")
    ensures r.Ok? ==> r.value == Parsed(Null, i + 4)
    ensures r.Err? ==> r.error == InvalidNull
  {
    if StartsWith(s, i, "null") then Ok(Parsed(Null, i + 4)) else Err(InvalidNull)
  }

  /** parseBoolean(): "true" is tried first, then "false". */
  function ParseBoolean(s: string, i: nat): (r: Result<Parsed, ParseError>)
    ensures r.Ok? <==> StartsWith(s, i, "true") || StartsWith(s, i, "false")
    ensures StartsWith(s, i, "true") ==> r == Ok(Parsed(Bool(true), i + 4))
    ensures !StartsWith(s, i, "true") && StartsWith(s, i, "false") ==> r == Ok(Parsed(Bool(false), i + 5))
    ensures r.Err? ==> r.error == InvalidBool
  {
    if StartsWith(s, i, "true") then Ok(Parsed(Bool(true), i + 4))
    else if StartsWith(s, i, "false") then Ok(Parsed(Bool(false), i + 5))
    else Err(InvalidBool)
  }

  // ---------------------------------------------------------------------------
  // Numbers
  // ---------------------------------------------------------------------------

  /** A digit loop of parseNumber(): the first index at or after i that does not hold a digit. */
  function DigitsEnd(s: string, i: nat): (j: nat)
    requires i <= |s|
    ensures i <= j <= |s|
    ensures j < |s| ==> !IsDigit(s[j])
    decreases |s| - i
  {
    if i < |s| && IsDigit(s[i]) then DigitsEnd(s, i + 1) else i
  }

  /** Everything DigitsEnd passes over is a digit. */
  lemma {:induction false} DigitsEndSkipsDigits(s: string, i: nat)
    requires i <= |s|
    ensures AllDigits(s[i..DigitsEnd(s, i)])
    decreases |s| - i
  {
    if i < |s| && IsDigit(s[i]) {
      DigitsEndSkipsDigits(s, i + 1);
      assert s[i..DigitsEnd(s, i)] == [s[i]] + s[i + 1..DigitsEnd(s, i + 1)];
    }
  }

  /** The fraction part: nothing, or '.' and at least one digit. */
  function FractionEnd(s: string, i: nat): (r: Result<nat, ParseError>)
    requires i <= |s|
    ensures r.Ok? ==> i <= r.value <= |s|
    ensures r.Err? ==> r.error == MissingFractionDigits
  {
    if i < |s| && s[i] == '.' then
      if i + 1 >= |s| || !IsDigit(s[i + 1]) then Err(MissingFractionDigits)
      else Ok(DigitsEnd(s, i + 1))
    else Ok(i)
  }

  /** The exponent part: nothing, or 'e'/'E', an optional sign and at least one digit. */
  function ExponentEnd(s: string, i: nat): (r: Result<nat, ParseError>)
    requires i <= |s|
    ensures r.Ok? ==> i <= r.value <= |s|
    ensures r.Err? ==> r.error == MissingExponentDigits
  {
    if i < |s| && (s[i] == 'e' || s[i] == 'E') then
      var k := if i + 1 < |s| && (s[i + 1] == '+' || s[i + 1] == '-') then i + 2 else i + 1;
      if k >= |s| || !IsDigit(s[k]) then Err(MissingExponentDigits)
      else Ok(DigitsEnd(s, k))
    else Ok(i)
  }

  /** The index after the optional '-' of a number. */
  function SignEnd(s: string, i: nat): nat
    requires i < |s|
  {
    if s[i] == '-' then i + 1 else i
  }

  /** The scanning loops of parseNumber(): where the number that starts at i ends. */
  function NumberEnd(s: string, i: nat): (r: Result<nat, ParseError>)
    requires i < |s|
    ensures r.Ok? ==> i < r.value <= |s|
  {
    var a := SignEnd(s, i);
    if a >= |s| || !IsDigit(s[a]) then Err(InvalidNumber)
    else
      var c :- FractionEnd(s, DigitsEnd(s, a));
      ExponentEnd(s, c)
  }

  /** An optional '-' followed by one or more digits. */
  predicate IsIntegerLexeme(t: string)
  {
    if |t| > 0 && t[0] == '-' then |t| > 1 && AllDigits(t[1..]) else |t| > 0 && AllDigits(t)
  }

  /** The integer an integer lexeme denotes, before any range check. */
  function IntegerValue(t: string): int
    requires IsIntegerLexeme(t)
  {
    if t[0] == '-' then -(DigitsValue(t[1..]) as int) else DigitsValue(t)
  }

  predicate InInt32(n: int)
  {
    -0x8000_0000 <= n < 0x8000_0000
  }

  /** std::stoi on an integer lexeme: its value, or out_of_range when it does not fit in an int. */
  function Stoi(t: string): (r: Result<Int32, ParseError>)
    requires IsIntegerLexeme(t)
    ensures r.Ok? <==> InInt32(IntegerValue(t))
    ensures r.Ok? ==> r.value == IntegerValue(t)
    ensures r.Err? ==> r.error == IntOutOfRange
  {
    var n := IntegerValue(t);
    if -0x8000_0000 <= n < 0x8000_0000 then Ok(n) else Err(IntOutOfRange)
  }

  /** A scanned number with no '.', 'e' or 'E' is an integer lexeme. */
  lemma NumberEndIntegral(s: string, i: nat, e: nat)
    requires i < |s| && NumberEnd(s, i) == Ok(e)
    requires '.' !in s[i..e] && 'e' !in s[i..e] && 'E' !in s[i..e]
    ensures e == DigitsEnd(s, SignEnd(s, i))
    ensures IsIntegerLexeme(s[i..e])
  {
    var a := SignEnd(s, i);
    var b := DigitsEnd(s, a);
    assert e == b by {
      NoFractionNoExponent(s, i, a, b, e);
    }
    var t := s[i..e];
    DigitsEndSkipsDigits(s, a);
    if a == i + 1 {
      assert t[1..] == s[a..b];
    } else {
      assert t == s[a..b];
    }
  }

  /** The scan stops right after the integer digits when no '.', 'e' or 'E' was taken. */
  lemma NoFractionNoExponent(s: string, i: nat, a: nat, b: nat, e: nat)
    requires i < |s| && a == SignEnd(s, i) && a < |s| && IsDigit(s[a]) && b == DigitsEnd(s, a)
    requires FractionEnd(s, b).Ok? && ExponentEnd(s, FractionEnd(s, b).value) == Ok(e) && e <= |s|
    requires '.' !in s[i..e] && 'e' !in s[i..e] && 'E' !in s[i..e]
    ensures e == b
  {
  }

  /**
   * parseNumber(): scan the number, then read it as a double when its text
   * holds '.', 'e' or 'E', and with std::stoi otherwise.  A double is kept
   * as its text.
   */
  function ParseNumber(s: string, i: nat): (r: Result<Parsed, ParseError>)
    requires i < |s|
    ensures r.Ok? ==> i < r.value.next <= |s|
  {
    var e :- NumberEnd(s, i);
    var lexeme := s[i..e];
    if '.' in lexeme || 'e' in lexeme || 'E' in lexeme then Ok(Parsed(Double(lexeme), e))
    else
      NumberEndIntegral(s, i, e);
      var n :- Stoi(lexeme);
      Ok(Parsed(Int(n), e))
  }

  // ---------------------------------------------------------------------------
  // Strings
  // ---------------------------------------------------------------------------

  /** The byte an escape sequence '\' c stands for; only n t r " \ are escapes. */
  function Unescape(c: char): (r: Option<char>)
    ensures r.Some? <==> c in "ntr\"\\"
  {
    if c == 'n' then Some('\n')
    else if c == 't' then Some('\t')
    else if c == 'r' then Some('\r')
    else if c == '"' then Some('"')
    else if c == '\\' then Some('\\')
    else None
  }

  /** The loop of parseString() from index i, with `acc` the content unescaped so far. */
  function StringBody(s: string, i: nat, acc: string): (r: Result<Parsed, ParseError>)
    requires i <= |s|
    ensures r.Ok? ==> i < r.value.next <= |s| && r.value.value.String?
    ensures r.Ok? ==> s[r.value.next - 1] == '"'
    decreases |s| - i
  {
    if i < |s| && s[i] != '"' then
      if s[i] == '\\' then
        if i + 1 >= |s| then Err(UnterminatedString)
        else
          match Unescape(s[i + 1])
          case None => Err(InvalidEscape)
          case Some(c) => StringBody(s, i + 2, acc + [c])
      else StringBody(s, i + 1, acc + [s[i]])
    else if At(s, i) != '"' then Err(UnterminatedString)
    else Ok(Parsed(String(acc), i + 1))
  }

  /**
   * parseString(): skip the opening quote, which the switch of parser() has
   * seen at i, and read up to the closing one; the cursor ends just past it.
   */
  function ParseString(s: string, i: nat): (r: Result<Parsed, ParseError>)
    requires i < |s|
    ensures r.Ok? ==> i + 1 < r.value.next <= |s| && r.value.value.String?
    ensures r.Ok? ==> s[r.value.next - 1] == '"'
  {
    StringBody(s, i + 1, "")
  }

  // ---------------------------------------------------------------------------
  // Values, arrays and objects
  // ---------------------------------------------------------------------------

  /** parser(d): check the depth, then dispatch on the next non-whitespace byte. */
  function ParseValue(s: string, i: nat, d: nat): (r: Result<Parsed, ParseError>)
    requires i <= |s|
    ensures r.Ok? ==> i < r.value.next <= |s|
    decreases |s| - i, 2
  {
    if d > MaxDepth then Err(MaxDepthExceeded(d))
    else
      var j :- NextToken(s, i);
      Dispatch(s, j, d)
  }

  /** The switch of parser(d) on the byte at j, which is not whitespace. */
  function Dispatch(s: string, j: nat, d: nat): (r: Result<Parsed, ParseError>)
    requires j < |s|
    ensures r.Ok? ==> j < r.value.next <= |s|
    decreases |s| - j, 1
  {
    var c := s[j];
    if c == 'n' then ParseNull(s, j)
    else if c == 't' || c == 'f' then ParseBoolean(s, j)
    else if c == '-' || IsDigit(c) then ParseNumber(s, j)
    else if c == '"' then ParseString(s, j)
    else if c == '[' then ParseArray(s, j, d + 1)
    else if c == '{' then ParseObject(s, j, d + 1)
    else Err(InvalidCharacter(d))
  }

  /** parseArray(d), with the cursor on '['.  "[]" is the empty array; "[ ]" is not. */
  function ParseArray(s: string, i: nat, d: nat): (r: Result<Parsed, ParseError>)
    requires i < |s|
    ensures r.Ok? ==> i < r.value.next <= |s|
    decreases |s| - i, 0
  {
    var k := i + 1;
    if k >= |s| then Err(ArrayUnexpectedEnd(d))
    else if s[k] == ']' then Ok(Parsed(Array([]), k + 1))
    else ArrayItems(s, k, d, [])
  }

  /** The element loop of parseArray(d), at the start of an element, with `acc` read so far. */
  function ArrayItems(s: string, k: nat, d: nat, acc: seq<Value>): (r: Result<Parsed, ParseError>)
    requires k <= |s|
    ensures r.Ok? ==> k < r.value.next <= |s|
    decreases |s| - k, 4
  {
    if k >= |s| then Err(ArrayUnexpectedEnd(d))
    else
      var elem :- ParseValue(s, k, d + 1);
      var j :- NextToken(s, elem.next);
      if s[j] == ']' then Ok(Parsed(Array(acc + [elem.value]), j + 1))
      else if s[j] != ',' then Err(ArrayDelimiterExpected(d))
      else ArrayItems(s, j + 1, d, acc + [elem.value])
  }

  /** One turn of the element loop ends at a ',' and the loop goes on after it. */
  lemma ArrayItemsNext(s: string, k: nat, d: nat, acc: seq<Value>, v: Value, n: nat, j: nat)
    requires k < |s| && ParseValue(s, k, d + 1) == Ok(Parsed(v, n))
    requires NextToken(s, n) == Ok(j) && s[j] == ','
    ensures ArrayItems(s, k, d, acc) == ArrayItems(s, j + 1, d, acc + [v])
  {
  }

  /** One turn of the element loop that ends at ']' ends the loop, past the ']'. */
  lemma ArrayItemsLast(s: string, k: nat, d: nat, acc: seq<Value>, v: Value, n: nat, j: nat)
    requires k < |s| && ParseValue(s, k, d + 1) == Ok(Parsed(v, n))
    requires NextToken(s, n) == Ok(j) && s[j] == ']'
    ensures ArrayItems(s, k, d, acc) == Ok(Parsed(Array(acc + [v]), j + 1))
  {
  }

  /** parseObject(d), with the cursor on '{'.  '{', optional whitespace and '}' is the empty object. */
  function ParseObject(s: string, i: nat, d: nat): (r: Result<Parsed, ParseError>)
    requires i < |s|
    ensures r.Ok? ==> i < r.value.next <= |s|
    decreases |s| - i, 0
  {
    var k := i + 1;
    if k >= |s| then Err(ObjectUnexpectedEnd(d))
    else
      var j :- NextToken(s, k);
      if s[j] == '}' then Ok(Parsed(Object([]), j + 1))
      else ObjectMembers(s, j, d, [])
  }

  /**
   * The member loop of parseObject(d), at the start of a key, with `acc` the
   * members read so far.
   */
  function ObjectMembers(s: string, k: nat, d: nat, acc: seq<Member>): (r: Result<Parsed, ParseError>)
    requires k <= |s|
    ensures r.Ok? ==> k < r.value.next <= |s|
    decreases |s| - k, 4
  {
    if k >= |s| then Err(ObjectUnexpectedEnd(d))
    else
      var step :- ObjectMember(s, k, d, acc);
      var j :- NextToken(s, step.next);
      if s[j] == '}' then Ok(Parsed(Object(step.members), j + 1))
      else if s[j] != ',' then Err(ObjectDelimiterExpected(d))
      else ObjectMembers(s, j + 1, d, step.members)
  }

  /** The members after one turn of the member loop, and the cursor just past the value. */
  datatype Step = Step(members: seq<Member>, next: nat)

  /**
   * One member: a key, read by parser(d + 1) like any value, that must turn
   * out to be a string; ':'; a key not read before; and its value, stored
   * under the key.  A repeated key fails once its ':' is read.
   */
  function ObjectMember(s: string, k: nat, d: nat, acc: seq<Member>): (r: Result<Step, ParseError>)
    requires k <= |s|
    ensures r.Ok? ==> k < r.value.next <= |s|
    decreases |s| - k, 3
  {
    var key :- ParseValue(s, k, d + 1);
    if !key.value.String? then Err(KeyNotString)
    else
      var c :- NextToken(s, key.next);
      if s[c] != ':' then Err(ColonExpected(d))
      else if Lookup(acc, key.value.str).Some? then Err(DuplicateKey(d))
      else
        var val :- ParseValue(s, c + 1, d + 1);
        Ok(Step(Insert(acc, key.value.str, val.value), val.next))
  }

  /** One turn of the member loop ends at a ',' and the loop goes on after it. */
  lemma ObjectMembersNext(s: string, k: nat, d: nat, acc: seq<Member>, members: seq<Member>, m: nat, j: nat)
    requires k < |s| && ObjectMember(s, k, d, acc) == Ok(Step(members, m))
    requires NextToken(s, m) == Ok(j) && s[j] == ','
    ensures ObjectMembers(s, k, d, acc) == ObjectMembers(s, j + 1, d, members)
  {
  }

  /** One turn of the member loop that ends at '}' ends the loop, past the '}'. */
  lemma ObjectMembersLast(s: string, k: nat, d: nat, acc: seq<Member>, members: seq<Member>, m: nat, j: nat)
    requires k < |s| && ObjectMember(s, k, d, acc) == Ok(Step(members, m))
    requires NextToken(s, m) == Ok(j) && s[j] == '}'
    ensures ObjectMembers(s, k, d, acc) == Ok(Parsed(Object(members), j + 1))
  {
  }

  /** parserJson(text): construct the parser (which rejects an empty text) and call parser(0). */
  function ParseJson(text: string): (r: Result<Value, ParseError>)
  {
    if |text| == 0 then Err(EmptyInput)
    else
      var p :- ParseValue(text, 0, 0);
      Ok(p.value)
  }
}
