/**
 * The serializer (JsonFiled::writeToString and its helpers escapeString,
 * intToHex, arrayToString, objectToString): compact JSON text, with the
 * escaping of strings and keys.  The functions are the specification; the
 * methods follow the source's loops that accumulate into `result`.
 */
module JsonWriter {
  import opened JsonChars
  import opened JsonValue

  // ---------------------------------------------------------------------------
  // Hexadecimal digits (intToHex)
  // ---------------------------------------------------------------------------

  predicate IsLowerHex(c: char)
  {
    '0' <= c <= '9' || 'a' <= c <= 'f'
  }

  function HexDigitValue(c: char): (d: nat)
    requires IsLowerHex(c)
    ensures d < 16
  {
    if c <= '9' then c as int - '0' as int else c as int - 'a' as int + 10
  }

  /** The lower-case hexadecimal digit of d, as std::hex prints it. */
  function HexDigit(d: nat): (c: char)
    requires d < 16
    ensures IsLowerHex(c) && HexDigitValue(c) == d
  {
    "0123456789abcdef"[d]
  }

  /** The number a run of hexadecimal digits denotes. */
  function HexValue(t: string): nat
    requires forall k :: 0 <= k < |t| ==> IsLowerHex(t[k])
  {
    if |t| == 0 then 0 else HexValue(t[..|t| - 1]) * 16 + HexDigitValue(t[|t| - 1])
  }

  function Pow16(w: nat): (p: nat)
    ensures p > 0
  {
    if w == 0 then 1 else 16 * Pow16(w - 1)
  }

  /** The last `width` hexadecimal digits of value, most significant first. */
  function HexPad(value: nat, width: nat): (r: string)
    ensures |r| == width && forall k :: 0 <= k < |r| ==> IsLowerHex(r[k])
    ensures value < Pow16(width) ==> HexValue(r) == value
  {
    if width == 0 then ""
    else
      var r := HexPad(value / 16, width - 1) + [HexDigit(value % 16)];
      assert r[..|r| - 1] == HexPad(value / 16, width - 1);
      r
  }

  /**
   * intToHex(value, 4): value in lower-case hexadecimal, padded with '0' to
   * four digits (std::hex, std::setw(4), std::setfill('0')).
   */
  function Hex4(value: nat): (r: string)
    requires value < 0x1_0000
    ensures |r| == 4 && forall k :: 0 <= k < 4 ==> IsLowerHex(r[k])
    ensures HexValue(r) == value
  {
    assert Pow16(4) == 0x1_0000;
    HexPad(value, 4)
  }

  // ---------------------------------------------------------------------------
  // String escaping (escapeString)
  // ---------------------------------------------------------------------------

  /** A byte in 0x00..0x1F.  Bytes from 0x80 up are negative as a C++ char and fall outside too. */
  predicate IsControl(c: char)
  {
    c as int <= 0x1F
  }

  const Backspace: char := 8 as char
  const FormFeed: char := 12 as char

  /** The control bytes that have a two-character escape. */
  predicate HasShortEscape(c: char)
  {
    c == '\n' || c == '\t' || c == Backspace || c == FormFeed || c == '\r'
  }

  /** The text escapeString appends for one byte. */
  function EscapeChar(c: char): (r: string)
    ensures (c != '"' && c != '\\' && !IsControl(c)) <==> r == [c]
    ensures r != [c] ==> |r| >= 2 && r[0] == '\\'
    ensures c == '"' || c == '\\' || HasShortEscape(c) ==> |r| == 2
    ensures IsControl(c) && !HasShortEscape(c) ==> r == "\\u" + Hex4(c as int)
  {
    if c == '"' then "\\\""
    else if c == '\\' then "\\\\"
    else if c == '\n' then "\\n"
    else if c == '\t' then "\\t"
    else if c == Backspace then "\\b"
    else if c == FormFeed then "\\f"
    else if c == '\r' then "\\r"
    else if IsControl(c) then "\\u" + Hex4(c as int)
    else [c]
  }

  /** The letter after the backslash of each two-character escape. */
  lemma ShortEscapeLetters()
    ensures EscapeChar('"') == "\\\"" && EscapeChar('\\') == "\\\\"
    ensures EscapeChar('\n') == "\\n" && EscapeChar('\t') == "\\t" && EscapeChar('\r') == "\\r"
    ensures EscapeChar(Backspace) == "\\b" && EscapeChar(FormFeed) == "\\f"
  {
  }

  /** escapeString: each byte replaced by its escape, in order. */
  function Escape(s: string): string
  {
    if |s| == 0 then "" else EscapeChar(s[0]) + Escape(s[1..])
  }

  /** Escaping works byte by byte, so it distributes over concatenation. */
  lemma {:induction false} EscapeConcat(a: string, b: string)
    ensures Escape(a + b) == Escape(a) + Escape(b)
  {
    if |a| > 0 {
      assert (a + b)[1..] == a[1..] + b;
      EscapeConcat(a[1..], b);
    } else {
      assert a + b == b;
    }
  }

  lemma EscapeSnoc(s: string, c: char)
    ensures Escape(s + [c]) == Escape(s) + EscapeChar(c)
  {
    EscapeConcat(s, [c]);
    assert Escape([c]) == EscapeChar(c) + Escape([]);
  }

  /** escapeString as the source writes it: a loop that appends to `result`. */
  method EscapeString(str: string) returns (result: string)
    ensures result == Escape(str)
  {
    result := "";
    var i := 0;
    while i < |str|
      invariant 0 <= i <= |str|
      invariant result == Escape(str[..i])
    {
      var c := str[i];
      var piece: string;
      if c == '"' {
        piece := "\\\"";
      } else if c == '\\' {
        piece := "\\\\";
      } else if c == '\n' {
        piece := "\\n";
      } else if c == '\t' {
        piece := "\\t";
      } else if c == Backspace {
        piece := "\\b";
      } else if c == FormFeed {
        piece := "\\f";
      } else if c == '\r' {
        piece := "\\r";
      } else if IsControl(c) {
        piece := "\\u" + Hex4(c as int);
      } else {
        piece := [c];
      }
      assert piece == EscapeChar(c);
      result := result + piece;
      EscapeSnoc(str[..i], c);
      assert str[..i + 1] == str[..i] + [c];
      i := i + 1;
    }
    assert str[..i] == str;
  }

  // ---------------------------------------------------------------------------
  // Values (writeToString, arrayToString, objectToString)
  // ---------------------------------------------------------------------------

  /** std::to_string(int): a '-' for negatives, then the shortest decimal digits. */
  function IntToString(n: int): string
  {
    if n < 0 then "-" + NatToDigits(-n) else NatToDigits(n)
  }

  /** A string between double quotes, escaped. */
  function Quote(s: string): string
  {
    "\"" + Escape(s) + "\""
  }

  /** The compact JSON text of a value. */
  function Write(v: Value): string
  {
    match v
    case Null => "null"
    case Bool(b) => if b then "true" else "false"
    case Int(n) => IntToString(n)
    case Double(lexeme) => lexeme
    case String(s) => Quote(s)
    case Array(es) => "[" + WriteElems(es) + "]"
    case Object(ms) => "{" + WriteMembers(ms) + "}"
  }

  /** The elements of an array, joined by ',' with no trailing comma. */
  function WriteElems(es: seq<Value>): string
  {
    if |es| == 0 then ""
    else if |es| == 1 then Write(es[0])
    else Write(es[0]) + "," + WriteElems(es[1..])
  }

  /** One member of an object: its quoted key, ':' and its value. */
  function WriteMember(m: Member): string
  {
    "\"" + Escape(m.key) + "\":" + Write(m.val)
  }

  /** The members of an object, joined by ',' with no trailing comma. */
  function WriteMembers(ms: seq<Member>): string
  {
    if |ms| == 0 then ""
    else if |ms| == 1 then WriteMember(ms[0])
    else WriteMember(ms[0]) + "," + WriteMembers(ms[1..])
  }

  /**
   * The text of a value other than a double (whose kept lexeme is written as
   * it is) is never empty; strings, arrays and objects are enclosed by their
   * delimiters.
   */
  lemma WriteDelimited(v: Value)
    ensures !v.Double? ==> |Write(v)| > 0
    ensures v.String? ==> |Write(v)| >= 2 && Write(v)[0] == '"' && Write(v)[|Write(v)| - 1] == '"'
    ensures v.Array? ==> Write(v)[0] == '[' && Write(v)[|Write(v)| - 1] == ']'
    ensures v.Object? ==> Write(v)[0] == '{' && Write(v)[|Write(v)| - 1] == '}'
  {
  }

  /** Appending an element adds ',' and its text, except after nothing. */
  lemma {:induction false} WriteElemsSnoc(es: seq<Value>, e: Value)
    ensures WriteElems(es + [e]) == if |es| == 0 then Write(e) else WriteElems(es) + "," + Write(e)
  {
    if |es| > 1 {
      assert (es + [e])[1..] == es[1..] + [e];
      WriteElemsSnoc(es[1..], e);
    } else if |es| == 1 {
      assert (es + [e])[1..] == [e];
    }
  }

  /** Appending a member adds ',' and its text, except after nothing. */
  lemma {:induction false} WriteMembersSnoc(ms: seq<Member>, m: Member)
    ensures WriteMembers(ms + [m]) == if |ms| == 0 then WriteMember(m) else WriteMembers(ms) + "," + WriteMember(m)
  {
    if |ms| > 1 {
      assert (ms + [m])[1..] == ms[1..] + [m];
      WriteMembersSnoc(ms[1..], m);
    } else if |ms| == 1 {
      assert (ms + [m])[1..] == [m];
    }
  }

  /** The text of the first i + 1 elements, from that of the first i. */
  lemma WriteElemsPrefix(es: seq<Value>, i: nat)
    requires i < |es|
    ensures WriteElems(es[..i + 1]) == if i == 0 then Write(es[i]) else WriteElems(es[..i]) + "," + Write(es[i])
  {
    WriteElemsSnoc(es[..i], es[i]);
    assert es[..i + 1] == es[..i] + [es[i]];
  }

  /** The text of the first i + 1 members, from that of the first i. */
  lemma WriteMembersPrefix(ms: seq<Member>, i: nat)
    requires i < |ms|
    ensures WriteMembers(ms[..i + 1]) == if i == 0 then WriteMember(ms[i]) else WriteMembers(ms[..i]) + "," + WriteMember(ms[i])
  {
    WriteMembersSnoc(ms[..i], ms[i]);
    assert ms[..i + 1] == ms[..i] + [ms[i]];
  }

  /** writeToString: the switch on the tag; never fails. */
  method WriteToString(v: Value) returns (r: string)
    ensures r == Write(v)
    decreases v, 1
  {
    match v
    case Null => r := "null";
    case Bool(b) => r := if b then "true" else "false";
    case Int(n) => r := IntToString(n);
    case Double(lexeme) => r := lexeme;
    case String(s) =>
      var e := EscapeString(s);
      r := "\"" + e + "\"";
    case Array(es) => r := ArrayToString(es);
    case Object(ms) => r := ObjectToString(ms);
  }

  /** arrayToString: '[', the elements separated by ',', then ']'. */
  method ArrayToString(arr: seq<Value>) returns (result: string)
    ensures result == "[" + WriteElems(arr) + "]"
    decreases arr, 0
  {
    result := "[";
    var first := true;
    var i := 0;
    while i < |arr|
      invariant 0 <= i <= |arr|
      invariant first <==> i == 0
      invariant result == "[" + WriteElems(arr[..i])
    {
      if !first {
        result := result + ",";
      }
      var element := WriteToString(arr[i]);
      result := result + element;
      first := false;
      WriteElemsPrefix(arr, i);
      i := i + 1;
    }
    assert arr[..i] == arr;
    result := result + "]";
  }

  /** objectToString: '{', the members as "key":value separated by ',', then '}'. */
  method ObjectToString(obj: seq<Member>) returns (result: string)
    ensures result == "{" + WriteMembers(obj) + "}"
    decreases obj, 0
  {
    result := "{";
    var first := true;
    var i := 0;
    while i < |obj|
      invariant 0 <= i <= |obj|
      invariant first <==> i == 0
      invariant result == "{" + WriteMembers(obj[..i])
    {
      if !first {
        result := result + ",";
      }
      var piece := MemberToString(obj[i]);
      result := result + piece;
      first := false;
      WriteMembersPrefix(obj, i);
      i := i + 1;
    }
    assert obj[..i] == obj;
    result := result + "}";
  }

  /** The body of objectToString's loop for one member: "key":value, the key escaped. */
  method MemberToString(m: Member) returns (piece: string)
    ensures piece == WriteMember(m)
    decreases m, 2
  {
    var key := EscapeString(m.key);
    var val := WriteToString(m.val);
    piece := "\"" + key + "\":" + val;
  }
}
