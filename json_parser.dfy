/**
 * The parser as the source writes it: an object holding the text and a
 * cursor `index` (`_iIndex`) that its member functions advance step by
 * step.  Every method is proved to compute what the matching function of
 * JsonGrammar computes, and to leave the cursor where that function says.
 */
module JsonParsing {
  import opened Outcomes
  import opened JsonChars
  import opened JsonValue
  import JsonGrammar

  type ParseError = JsonGrammar.ParseError

  /** A parse call returned the value and moved the cursor as `spec` says, or raised its error. */
  ghost predicate Agrees(r: Result<Value, ParseError>, spec: Result<JsonGrammar.Parsed, ParseError>, index: nat)
  {
    match spec
    case Ok(p) => r == Ok(p.value) && index == p.next
    case Err(e) => r == Err(e)
  }

  /** One member was read as `spec` says, leaving the cursor after its value, or its error was raised. */
  ghost predicate StepAgrees(r: Result<seq<Member>, ParseError>, spec: Result<JsonGrammar.Step, ParseError>, index: nat)
  {
    match spec
    case Ok(st) => r == Ok(st.members) && index == st.next
    case Err(e) => r == Err(e)
  }

  class JsonParser {
    /** _jsonstring */
    const text: string
    /** _iIndex: only ever moves forward */
    var index: nat

    /** The part of the constructor that runs once the text is known not to be empty. */
    constructor (jsonstr: string)
      requires |jsonstr| > 0
      ensures text == jsonstr && index == 0
    {
      text := jsonstr;
      index := 0;
    }

    /** JsonParser(jsonstr): throws on an empty text, else starts at index 0. */
    static method Open(jsonstr: string) returns (r: Result<JsonParser, ParseError>)
      ensures r.Err? <==> |jsonstr| == 0
      ensures r.Err? ==> r.error == JsonGrammar.EmptyInput
      ensures r.Ok? ==> fresh(r.value) && r.value.text == jsonstr && r.value.index == 0
    {
      if |jsonstr| == 0 {
        return Err(JsonGrammar.EmptyInput);
      }
      var p := new JsonParser(jsonstr);
      return Ok(p);
    }

    /** parser(CurrentDepth). */
    method Parser(depth: nat) returns (r: Result<Value, ParseError>)
      requires index <= |text|
      modifies this
      ensures old(index) <= index <= |text|
      ensures Agrees(r, JsonGrammar.ParseValue(text, old(index), depth), index)
      decreases |text| - index, 2
    {
      if depth > JsonGrammar.MaxDepth {
        return Err(JsonGrammar.MaxDepthExceeded(depth));
      }
      var token := GetNextToken();
      if token.Err? {
        return Err(token.error);
      }
      var c := token.value;
      if c == 'n' {
        r := ParseNull();
      } else if c == 't' || c == 'f' {
        r := ParseBoolean();
      } else if c == '-' || IsDigit(c) {
        r := ParseNumber();
      } else if c == '"' {
        r := ParseString();
      } else if c == '[' {
        r := ParseArray(depth + 1);
      } else if c == '{' {
        r := ParseObject(depth + 1);
      } else {
        r := Err(JsonGrammar.InvalidCharacter(depth));
      }
    }

    /** getNextToken(): skip whitespace, then return the byte under the cursor. */
    method GetNextToken() returns (r: Result<char, ParseError>)
      requires index <= |text|
      modifies this
      ensures index == JsonGrammar.SkipSpace(text, old(index))
      ensures r == if index < |text| then Ok(text[index]) else Err(JsonGrammar.UnexpectedEnd)
    {
      while IsSpace(At(text, index))
        invariant old(index) <= index <= |text|
        invariant JsonGrammar.SkipSpace(text, index) == JsonGrammar.SkipSpace(text, old(index))
        decreases |text| - index
      {
        index := index + 1;
      }
      if index >= |text| {
        return Err(JsonGrammar.UnexpectedEnd);
      }
      return Ok(text[index]);
    }

    /** parseNull(). */
    method ParseNull() returns (r: Result<Value, ParseError>)
      requires index < |text|
      modifies this
      ensures old(index) <= index <= |text|
      ensures Agrees(r, JsonGrammar.ParseNull(text, old(index)), index)
    {
      if JsonGrammar.StartsWith(text, index, "null") {
        index := index + 4;
        return Ok(Null);
      }
      return Err(JsonGrammar.InvalidNull);
    }

    /** parseBoolean(). */
    method ParseBoolean() returns (r: Result<Value, ParseError>)
      requires index < |text|
      modifies this
      ensures old(index) <= index <= |text|
      ensures Agrees(r, JsonGrammar.ParseBoolean(text, old(index)), index)
    {
      if JsonGrammar.StartsWith(text, index, "true") {
        index := index + 4;
        return Ok(Bool(true));
      }
      if JsonGrammar.StartsWith(text, index, "false") {
        index := index + 5;
        return Ok(Bool(false));
      }
      return Err(JsonGrammar.InvalidBool);
    }

    /** One digit loop of parseNumber(). */
    method SkipDigits()
      requires index <= |text|
      modifies this
      ensures index == JsonGrammar.DigitsEnd(text, old(index))
    {
      while index < |text| && IsDigit(text[index])
        invariant old(index) <= index <= |text|
        invariant JsonGrammar.DigitsEnd(text, index) == JsonGrammar.DigitsEnd(text, old(index))
        decreases |text| - index
      {
        index := index + 1;
      }
    }

    /** parseNumber(): the scan, then std::stof or std::stoi on the lexeme. */
    method ParseNumber() returns (r: Result<Value, ParseError>)
      requires index < |text|
      modifies this
      ensures old(index) <= index <= |text|
      ensures Agrees(r, JsonGrammar.ParseNumber(text, old(index)), index)
    {
      var pos := index;
      var scanned := ScanNumber();
      if scanned.Err? {
        return Err(scanned.error);
      }
      var lexeme := text[pos..index];
      if '.' in lexeme || 'e' in lexeme || 'E' in lexeme {
        return Ok(Double(lexeme));
      }
      JsonGrammar.NumberEndIntegral(text, pos, index);
      var n := JsonGrammar.Stoi(lexeme);
      if n.Err? {
        return Err(n.error);
      }
      return Ok(Int(n.value));
    }

    /** The scanning part of parseNumber(): sign, digits, fraction, exponent. */
    method ScanNumber() returns (r: Result<(), ParseError>)
      requires index < |text|
      modifies this
      ensures old(index) <= index <= |text|
      ensures match JsonGrammar.NumberEnd(text, old(index))
        case Ok(e) => r.Ok? && index == e
        case Err(e) => r == Err(e)
    {
      if text[index] == '-' {
        index := index + 1;
      }
      if index >= |text| || !IsDigit(text[index]) {
        return Err(JsonGrammar.InvalidNumber);
      }
      SkipDigits();
      var fraction := ScanFraction();
      if fraction.Err? {
        return fraction;
      }
      r := ScanExponent();
    }

    /** The fraction part of parseNumber(): nothing, or '.' and its digits. */
    method ScanFraction() returns (r: Result<(), ParseError>)
      requires index <= |text|
      modifies this
      ensures old(index) <= index <= |text|
      ensures match JsonGrammar.FractionEnd(text, old(index))
        case Ok(e) => r.Ok? && index == e
        case Err(e) => r == Err(e)
    {
      if index < |text| && text[index] == '.' {
        index := index + 1;
        if index >= |text| || !IsDigit(text[index]) {
          return Err(JsonGrammar.MissingFractionDigits);
        }
        SkipDigits();
      }
      return Ok(());
    }

    /** The exponent part of parseNumber(): nothing, or 'e'/'E', an optional sign and its digits. */
    method ScanExponent() returns (r: Result<(), ParseError>)
      requires index <= |text|
      modifies this
      ensures old(index) <= index <= |text|
      ensures match JsonGrammar.ExponentEnd(text, old(index))
        case Ok(e) => r.Ok? && index == e
        case Err(e) => r == Err(e)
    {
      if index < |text| && (text[index] == 'e' || text[index] == 'E') {
        index := index + 1;
        if index < |text| && (text[index] == '+' || text[index] == '-') {
          index := index + 1;
        }
        if index >= |text| || !IsDigit(text[index]) {
          return Err(JsonGrammar.MissingExponentDigits);
        }
        SkipDigits();
      }
      return Ok(());
    }

    /** parseString(), with the cursor on the opening quote. */
    method ParseString() returns (r: Result<Value, ParseError>)
      requires index < |text|
      modifies this
      ensures old(index) <= index <= |text|
      ensures Agrees(r, JsonGrammar.ParseString(text, old(index)), index)
    {
      var str := "";
      index := index + 1;
      while index < |text| && text[index] != '"'
        invariant old(index) < index <= |text|
        invariant JsonGrammar.ParseString(text, old(index)) == JsonGrammar.StringBody(text, index, str)
        decreases |text| - index
      {
        if text[index] == '\\' {
          index := index + 1;
          if index >= |text| {
            return Err(JsonGrammar.UnterminatedString);
          }
          var c := text[index];
          if c == 'n' {
            str := str + ['\n'];
          } else if c == 't' {
            str := str + ['\t'];
          } else if c == 'r' {
            str := str + ['\r'];
          } else if c == '"' {
            str := str + ['"'];
          } else if c == '\\' {
            str := str + ['\\'];
          } else {
            return Err(JsonGrammar.InvalidEscape);
          }
        } else {
          str := str + [text[index]];
        }
        index := index + 1;
      }
      if At(text, index) != '"' {
        return Err(JsonGrammar.UnterminatedString);
      }
      index := index + 1;
      return Ok(String(str));
    }

    /** parseArray(CurrentDepth), with the cursor on '['. */
    method ParseArray(depth: nat) returns (r: Result<Value, ParseError>)
      requires index < |text|
      modifies this
      ensures old(index) <= index <= |text|
      ensures Agrees(r, JsonGrammar.ParseArray(text, old(index), depth), index)
      decreases |text| - index, 0
    {
      index := index + 1;
      if index >= |text| {
        return Err(JsonGrammar.ArrayUnexpectedEnd(depth));
      }
      if text[index] == ']' {
        index := index + 1;
        return Ok(Array([]));
      }
      r := ElementLoop(depth);
    }

    /** The while (true) loop of parseArray, entered with the cursor past '['. */
    method ElementLoop(depth: nat) returns (r: Result<Value, ParseError>)
      requires index < |text|
      modifies this
      ensures old(index) <= index <= |text|
      ensures Agrees(r, JsonGrammar.ArrayItems(text, old(index), depth, []), index)
      decreases |text| - index, 3
    {
      var elems: seq<Value> := [];
      ghost var spec := JsonGrammar.ArrayItems(text, index, depth, elems);
      while true
        invariant old(index) <= index <= |text|
        invariant spec == JsonGrammar.ArrayItems(text, index, depth, elems)
        decreases |text| - index
      {
        if index >= |text| {
          return Err(JsonGrammar.ArrayUnexpectedEnd(depth));
        }
        ghost var k, acc := index, elems;
        var elem := Parser(depth + 1);
        if elem.Err? {
          return Err(elem.error);
        }
        ghost var n := index;
        assert JsonGrammar.ParseValue(text, k, depth + 1) == Ok(JsonGrammar.Parsed(elem.value, n));
        elems := elems + [elem.value];
        var ch := GetNextToken();
        if ch.Err? {
          return Err(ch.error);
        }
        if ch.value == ']' {
          JsonGrammar.ArrayItemsLast(text, k, depth, acc, elem.value, n, index);
          index := index + 1;
          return Ok(Array(elems));
        }
        if ch.value != ',' {
          return Err(JsonGrammar.ArrayDelimiterExpected(depth));
        }
        ghost var j := index;
        JsonGrammar.ArrayItemsNext(text, k, depth, acc, elem.value, n, j);
        index := index + 1;
        assert index == j + 1;
      }
    }

    /** parseObject(currentDepth), with the cursor on '{'. */
    method ParseObject(depth: nat) returns (r: Result<Value, ParseError>)
      requires index < |text|
      modifies this
      ensures old(index) <= index <= |text|
      ensures Agrees(r, JsonGrammar.ParseObject(text, old(index), depth), index)
      decreases |text| - index, 0
    {
      index := index + 1;
      if index >= |text| {
        return Err(JsonGrammar.ObjectUnexpectedEnd(depth));
      }
      var first := GetNextToken();
      if first.Err? {
        return Err(first.error);
      }
      if first.value == '}' {
        index := index + 1;
        return Ok(Object([]));
      }
      r := MemberLoop(depth);
    }

    /** The while (true) loop of parseObject, entered with the cursor on the first key. */
    method MemberLoop(depth: nat) returns (r: Result<Value, ParseError>)
      requires index < |text|
      modifies this
      ensures old(index) <= index <= |text|
      ensures Agrees(r, JsonGrammar.ObjectMembers(text, old(index), depth, []), index)
      decreases |text| - index, 4
    {
      var members: seq<Member> := [];
      ghost var spec := JsonGrammar.ObjectMembers(text, index, depth, members);
      while true
        invariant old(index) <= index <= |text|
        invariant spec == JsonGrammar.ObjectMembers(text, index, depth, members)
        decreases |text| - index
      {
        if index >= |text| {
          return Err(JsonGrammar.ObjectUnexpectedEnd(depth));
        }
        ghost var k, acc := index, members;
        var step := ParseMember(depth, members);
        if step.Err? {
          return Err(step.error);
        }
        members := step.value;
        ghost var m := index;
        var ch := GetNextToken();
        if ch.Err? {
          return Err(ch.error);
        }
        if ch.value == '}' {
          JsonGrammar.ObjectMembersLast(text, k, depth, acc, members, m, index);
          index := index + 1;
          return Ok(Object(members));
        }
        if ch.value != ',' {
          return Err(JsonGrammar.ObjectDelimiterExpected(depth));
        }
        ghost var j := index;
        JsonGrammar.ObjectMembersNext(text, k, depth, acc, members, m, j);
        index := index + 1;
        assert index == j + 1;
      }
    }

    /**
     * One turn of parseObject's loop up to the value: the key, ':', the
     * check that the key is new, and the value, stored under the key.
     */
    method ParseMember(depth: nat, members: seq<Member>) returns (r: Result<seq<Member>, ParseError>)
      requires index < |text|
      modifies this
      ensures old(index) <= index <= |text|
      ensures StepAgrees(r, JsonGrammar.ObjectMember(text, old(index), depth, members), index)
      decreases |text| - index, 3
    {
      var key := Parser(depth + 1);
      if key.Err? {
        return Err(key.error);
      }
      if !key.value.String? {
        return Err(JsonGrammar.KeyNotString);
      }
      var ch := GetNextToken();
      if ch.Err? {
        return Err(ch.error);
      }
      if ch.value != ':' {
        return Err(JsonGrammar.ColonExpected(depth));
      }
      index := index + 1;
      if Lookup(members, key.value.str).Some? {
        return Err(JsonGrammar.DuplicateKey(depth));
      }
      var val := Parser(depth + 1);
      if val.Err? {
        return Err(val.error);
      }
      return Ok(Insert(members, key.value.str, val.value));
    }
  }

  /** parserJson(jsonstr): construct a parser on the text and call parser() at depth 0. */
  method ParserJson(jsonstr: string) returns (r: Result<Value, ParseError>)
    ensures r == JsonGrammar.ParseJson(jsonstr)
  {
    var p := JsonParser.Open(jsonstr);
    if p.Err? {
      return Err(p.error);
    }
    var parser := p.value;
    r := parser.Parser(0);
  }
}
