# yoyo_jsonparser in Dafny

A model of the single-header JSON library `yoyo::JsonFiled` /
`yoyo::JsonParser` (`src/json_parser.hpp`) that includes proofs.

The library has three parts, and the model follows them module by module:

* **The value model** (`class JsonFiled`). A tagged union over null, int32, bool, double,
  string, array and object. It offers strict typed access (`get<T>`, `as*`, `is*`, the
  conversion operators), `size`, `isEmpty`, `isMember` and `operator==`. Three
  mutators can promote a null value in place: `operator[](string)` makes it an
  object, `push_back` makes it an array, and `operator[](size_t)` never promotes.
  `JsonValue` holds the value as a datatype and the queries and mutators as
  functions from the old value to the new one. `JsonFields.JsonField` is the
  object whose methods update its value in place. `JsonValueLaws` proves how the
  mutators and queries interact.
* **The serializer** (`writeToString`, `escapeString`, `intToHex`,
  `arrayToString`, `objectToString`). `JsonWriter` gives the text each value is
  written as as functions, and the source's loops as methods proved to build
  that text.
* **The parser** (`JsonParser`, `parserJson`). `JsonGrammar` states what every
  `parse*` member function reads from a text and cursor, and where it leaves the
  cursor, as total functions over the text. `JsonParsing.JsonParser` is the
  object with the text and the cursor `_iIndex`, whose methods advance the cursor
  step by step. Each method is proved to return what the matching `JsonGrammar`
  function returns and to leave the cursor where that function says.
  `JsonGrammarLaws` proves what the parser accepts: number lexemes, the int/double
  split and the 32-bit range, string escapes, and the sorted keys of every object
  read.

The properties that relate the parts:

* `JsonRoundTrip.WriteThenParse`: `parserJson(writeToString(v)) == v` for every
  value with no double, no string or key holding a control byte the parser has
  no escape for, and nesting within the depth limit.
* `JsonDepth.ParseNested`: the depth limit in the code's own terms.
* `JsonRefusals`: the refusal rules of `parser()`, `parseArray()` and
  `parseObject()` at any position of any text and at any depth.
* `JsonExamples`: the edge cases the source's branches decide, on particular texts.

The object payload is modelled as a list of members strictly sorted by key.
That is the enumeration order of the `std::map` that the GCC build selects
(`src/json_parser.hpp:37-43`). A double is kept as the decimal text it was read
from, because the model has no floating point.

What the code decides, proved here:

* The parser reads one value and ignores whatever follows it.
* `"[ ]"` is refused, because `parseArray` looks for `]` without skipping
  whitespace. `"{ }"` is accepted, because `parseObject` does skip it.
* A trailing comma is refused.
* Leading zeros are accepted, as `std::stoi` reads them.
* The parser refuses the escapes `\b`, `\f` and `\u`, although the serializer
  writes them for control bytes. A string holding such a byte does not survive
  a round trip (`JsonGrammarLaws.StringRoundTrip`).
* Every `JsonParseError` carries `CurrentDepth` as its "index", not a byte
  offset. The model's errors carry that depth.
* Every array or object level raises the depth by two: once when `parser()`
  calls `parseArray`/`parseObject` and once when they call `parser()` for a
  child. With the ceiling of 64, a scalar inside 32 arrays is read and one
  inside 33 is refused.
* `operator==` against a string literal is false whatever the value holds:
  the literal's type `const char[N]` is none of the types the template tests
  for, so it takes the `else` branch.

## Model

| member | source | states |
|---|---|---|
| JsonChars.At | src/json_parser.hpp:451-454 | reading the text at its length yields the terminating NUL, which is not whitespace, a digit or a quote |
| JsonChars.NatToDigits | src/json_parser.hpp:296 | the decimal text of a natural number is non-empty, all digits, and has no leading zero |
| JsonChars.DigitsValueOfNatToDigits | src/json_parser.hpp:296 | the decimal text of n denotes n |
| JsonValue.TagMatchesPayload | src/json_parser.hpp:141-149 | each `is*` query holds exactly when the value has that payload kind: the tag and the payload never disagree |
| JsonValue.AsNull | src/json_parser.hpp:119-122 | `get<json_null>` succeeds exactly on Null and otherwise raises the type error |
| JsonValue.AsInt | src/json_parser.hpp:151 | `asInt` / `operator int` succeeds exactly on an Int and returns its payload, otherwise the type error |
| JsonValue.AsBool | src/json_parser.hpp:155 | `asBool` / `operator bool` succeeds exactly on a Bool and returns its payload, otherwise the type error |
| JsonValue.AsDouble | src/json_parser.hpp:152-154 | `asDouble` / `operator double` succeeds exactly on a Double and returns its payload, otherwise the type error |
| JsonValue.AsString | src/json_parser.hpp:156-158 | `asString` / `operator std::string` succeeds exactly on a String and returns its payload, otherwise the type error |
| JsonValue.AsArray | src/json_parser.hpp:159-161 | `asArray` / `operator json_array` succeeds exactly on an Array and returns its elements, otherwise the type error |
| JsonValue.AsObject | src/json_parser.hpp:162-164 | `asObject` / `operator json_object` succeeds exactly on an Object and returns its members, otherwise the type error |
| JsonValue.Equals | src/json_parser.hpp:211-226 | `v == p` holds exactly when v is the value the primitive's constructor builds (same tag, same payload); an argument of any other type, a string literal included, compares false |
| JsonValue.NotEquals | src/json_parser.hpp:228-231 | `v != p` holds exactly when v is not that value, so always for an argument of any other type |
| JsonValue.KeyLessIrreflexive | src/json_parser.hpp:39-40 | the map's key order never puts a key before itself |
| JsonValue.KeyLessTransitive | src/json_parser.hpp:39-40 | the map's key order is transitive |
| JsonValue.KeyLessTotal | src/json_parser.hpp:39-40 | any two distinct keys are ordered one way or the other |
| JsonValue.LookupSpec | src/json_parser.hpp:633 | `find(key)` succeeds exactly when the key is among the members, and then returns a member with that key |
| JsonValue.LookupSorted | src/json_parser.hpp:633 | in a sorted object, `find` on the i-th key returns the i-th value |
| JsonValue.InsertSpec | src/json_parser.hpp:252 | `tObj[key] = v`: the keys gain key, key maps to v, every other key keeps its value, no other member appears, sortedness is kept, and the size grows by one exactly when the key is new |
| JsonValue.Size | src/json_parser.hpp:233-238 | `size()` is the element count of an Array, the member count of an Object, and the type error for any other tag |
| JsonValue.IsEmpty | src/json_parser.hpp:239-243 | `isEmpty()` holds exactly for the empty array and the empty object, and is false for every other tag |
| JsonValue.IsMember | src/json_parser.hpp:165-177 | `isMember(key)` holds exactly when the value is an Object holding that key |
| JsonValue.IsEmptyAgreesWithSize | src/json_parser.hpp:233-243 | where `size()` is defined, `isEmpty()` is `size() == 0`; elsewhere `isEmpty()` is false |
| JsonValue.SizeCountsKeys | src/json_parser.hpp:236 | in a sorted object the member count is the number of distinct keys |
| JsonValue.SubscriptKey | src/json_parser.hpp:244-253 | `operator[](key)` succeeds exactly on Null and Object. A Null becomes an Object. The key is then present: an existing slot stays as it was, an absent one gets Null, and every other key keeps its value. Any other tag gives the type error |
| JsonValue.AssignKey | src/json_parser.hpp:244-253 | `v[key] = x` succeeds exactly on Null and Object. Afterwards key maps to x, the keys are the old keys plus key, and every other key keeps its value. Any other tag gives the type error |
| JsonValue.SubscriptIndex | src/json_parser.hpp:255-262 | `operator[](i)` returns the i-th element of an Array when i is in range. A non-Array (Null included) gives the type error, and an index at or past the end gives the range error |
| JsonValue.AssignIndex | src/json_parser.hpp:255-262 | `v[i] = x` replaces the i-th element of an Array and keeps its length and every other element, with the same two errors as reading |
| JsonValue.PushBack | src/json_parser.hpp:277-286 | `push_back(x)` succeeds exactly on Null and Array. The result is the old elements (none for Null) followed by x; any other tag gives the type error |
| JsonValueLaws.PushBackThenIndex | src/json_parser.hpp:255-286 | after `push_back(x)`, the size is one more, the old indices read the old elements, the new last index reads x, and indices beyond it are out of range |
| JsonValueLaws.PushBackOnArray | src/json_parser.hpp:277-286 | `push_back` on an array appends x at the end |
| JsonValueLaws.SubscriptPresentKey | src/json_parser.hpp:244-253 | subscripting a key already present changes nothing |
| JsonValueLaws.SubscriptKeyIdempotent | src/json_parser.hpp:244-253 | after one key subscript the key is a member, and a second subscript of it changes nothing |
| JsonValueLaws.InsertTwice | src/json_parser.hpp:252 | assigning a key twice is assigning it the second value |
| JsonValueLaws.AssignKeyTwice | src/json_parser.hpp:244-253 | `v[k] = x; v[k] = y` leaves what `v[k] = y` leaves |
| JsonValueLaws.AssignKeyThenSubscript | src/json_parser.hpp:244-253 | after `v[k] = x`, subscripting k changes nothing and reads x |
| JsonValueLaws.SizeAfterSubscriptKey | src/json_parser.hpp:233-253 | subscripting a key adds one to the size exactly when the key was absent |
| JsonValueLaws.SizeAfterAssignKey | src/json_parser.hpp:233-253 | assigning a key adds one to the size exactly when the key was absent |
| JsonValueLaws.AssignIndexSameElement | src/json_parser.hpp:255-262 | writing an element's own value back at its index changes nothing |
| JsonValueLaws.AssignIndexThenSubscript | src/json_parser.hpp:255-262 | after `v[i] = x`, index i reads x and the size is unchanged |
| JsonValueLaws.PromotionIsExclusive | src/json_parser.hpp:244-286 | Null promotes to an Object by key and to an Array by `push_back`. Once promoted, the other mutator fails. An index subscript on Null fails |
| JsonValueLaws.InsertWellFormed | src/json_parser.hpp:252 | inserting a well-formed value into a sorted object whose values are well-formed gives a well-formed object |
| JsonValueLaws.MutatorsPreserveWellFormed | src/json_parser.hpp:244-286 | every mutator keeps every object at every level sorted by key |
| JsonValueLaws.AddArrayToFreshObject | tests/unit_test.cc:286-291 | `newObject["array"].push_back("yoyo")` on a fresh value gives `{"array":["yoyo"]}` of size 1 |
| JsonValueLaws.BuildEmployee | tests/unit_test.cc:268-271 | three key assignments on a fresh value give an object of size 3 with its members in key order |
| JsonValueLaws.CompareWithLiterals | tests/unit_test.cc:157-161 | a String compared with a string literal is false and its `std::string` conversion holds the text, so the test passes through its second disjunct; ints and bools compare by payload |
| JsonFields.JsonField.constructor | src/json_parser.hpp:48-91 | every typed constructor sets the tag and its payload together |
| JsonFields.JsonField.Subscript | src/json_parser.hpp:244-253 | the value becomes what `SubscriptKey` gives, and the result is the key's slot, or the value is unchanged and the error is raised |
| JsonFields.JsonField.SetKey | src/json_parser.hpp:244-253 | the value becomes what `AssignKey` gives, or is unchanged and the error is raised |
| JsonFields.JsonField.Index | src/json_parser.hpp:255-262 | reading element i returns what `SubscriptIndex` gives |
| JsonFields.JsonField.SetIndex | src/json_parser.hpp:255-262 | the value becomes what `AssignIndex` gives, or is unchanged and the error is raised |
| JsonFields.JsonField.PushBack | src/json_parser.hpp:277-286 | the value becomes what `PushBack` gives, or is unchanged and the error is raised |
| JsonWriter.HexDigit | src/json_parser.hpp:348 | a digit below 16 is written as a lower-case hex digit that denotes it |
| JsonWriter.HexPad | src/json_parser.hpp:346-350 | `intToHex(value, width)` is exactly width lower-case hex digits, zero-padded, and denotes value whenever value fits in width digits |
| JsonWriter.Hex4 | src/json_parser.hpp:338 | the four-digit form used for `\u` escapes denotes the byte |
| JsonWriter.EscapeChar | src/json_parser.hpp:314-342 | a byte is copied exactly when it is not `"`, `\` or a control byte. `"`, `\` and the short-form controls become two bytes starting with `\`. Any other control byte becomes `\u` and its four hex digits |
| JsonWriter.ShortEscapeLetters | src/json_parser.hpp:315-335 | `"`, `\`, newline, tab, carriage return, backspace and form feed are written as `\"`, `\\`, `\n`, `\t`, `\r`, `\b` and `\f` |
| JsonWriter.EscapeConcat | src/json_parser.hpp:311-345 | escaping is byte by byte: the escape of a concatenation is the concatenation of the escapes |
| JsonWriter.EscapeString | src/json_parser.hpp:311-345 | the loop returns the byte-by-byte escape of its input |
| JsonWriter.WriteDelimited | src/json_parser.hpp:289-308 | the text of a value other than a double is never empty, and the text of a string, an array or an object begins and ends with its delimiters |
| JsonWriter.WriteElemsSnoc | src/json_parser.hpp:352-364 | one more element adds `,` and its text, or just its text when it is the first |
| JsonWriter.WriteMembersSnoc | src/json_parser.hpp:365-378 | one more member adds `,` and its text, or just its text when it is the first |
| JsonWriter.WriteToString | src/json_parser.hpp:289-308 | the method returns `Write(v)`, the compact text that `JsonRoundTrip.WriteThenParse` reads back; `Write` is the switch on the tag, with `IntToString` for `std::to_string`, and `WriteElems` and `WriteMembers` for the comma-joined bodies |
| JsonWriter.ArrayToString | src/json_parser.hpp:352-364 | the loop returns `[`, the elements' texts separated by `,`, and `]` |
| JsonWriter.ObjectToString | src/json_parser.hpp:365-378 | the loop returns `{`, the members' texts in key order separated by `,`, and `}` |
| JsonWriter.MemberToString | src/json_parser.hpp:372-373 | a member is written as its escaped, quoted key, `:` and its value's text |
| JsonGrammar.SkipSpace | src/json_parser.hpp:452-454 | the whitespace loop moves forward, stays within the text, and stops on a byte that is not whitespace |
| JsonGrammar.SkipSpaceSkipsSpaces | src/json_parser.hpp:452-454 | every byte the whitespace loop passes over is whitespace |
| JsonGrammar.NextToken | src/json_parser.hpp:451-459 | `getNextToken` succeeds exactly when a byte is left after the whitespace, and then returns its position; otherwise it raises the unexpected-end error |
| JsonGrammar.ParseNull | src/json_parser.hpp:461-468 | `parseNull` succeeds exactly when `null` stands at the cursor, and moves past it; otherwise the null error |
| JsonGrammar.ParseBoolean | src/json_parser.hpp:469-481 | `parseBoolean` succeeds exactly on `true` or `false` at the cursor, tries `true` first, and moves past the word; otherwise the bool error |
| JsonGrammar.DigitsEnd | src/json_parser.hpp:491-493 | the digit loop stops within the text, on a byte that is not a digit or at the end |
| JsonGrammar.DigitsEndSkipsDigits | src/json_parser.hpp:491-493 | every byte the digit loop passes over is a digit |
| JsonGrammar.FractionEnd | src/json_parser.hpp:495-506 | the fraction part moves forward within the text or raises the missing-fraction-digits error |
| JsonGrammar.ExponentEnd | src/json_parser.hpp:508-524 | the exponent part moves forward within the text or raises the missing-exponent-digits error |
| JsonGrammar.NumberEnd | src/json_parser.hpp:483-524 | the scanning loops of `parseNumber` consume at least one byte and stay within the text |
| JsonGrammar.Stoi | src/json_parser.hpp:533 | `std::stoi` succeeds exactly when the lexeme's value fits in 32 bits, returns that value, and otherwise raises the out-of-range error |
| JsonGrammar.NumberEndIntegral | src/json_parser.hpp:483-524 | a scanned lexeme with no `.`, `e` or `E` ends right after its digits and is an optional `-` followed by digits |
| JsonGrammar.NoFractionNoExponent | src/json_parser.hpp:495-524 | when neither a `.` nor an exponent follows the digits, the fraction and exponent parts take nothing |
| JsonGrammar.ParseNumber | src/json_parser.hpp:483-535 | `parseNumber` consumes at least one byte and stays within the text |
| JsonGrammar.Unescape | src/json_parser.hpp:546-564 | exactly the five bytes `n t r " \` are escapes the parser knows |
| JsonGrammar.StringBody | src/json_parser.hpp:540-572 | the string loop ends within the text, past at least one byte, and yields a String; on success the byte before the cursor is the closing `"` |
| JsonGrammar.ParseString | src/json_parser.hpp:537-575 | `parseString` skips the opening quote at the cursor, which the switch of `parser()` has seen, and on success yields a String and leaves the cursor just past the closing `"`, within the text |
| JsonGrammar.ParseValue | src/json_parser.hpp:432-448 | `parser()` consumes at least one byte and stays within the text: the cursor only moves forward |
| JsonGrammar.Dispatch | src/json_parser.hpp:437-447 | the dispatch on the first byte consumes at least one byte and stays within the text |
| JsonGrammar.ParseArray | src/json_parser.hpp:577-605 | `parseArray` consumes at least one byte and stays within the text |
| JsonGrammar.ArrayItems | src/json_parser.hpp:588-605 | the element loop consumes at least one byte and stays within the text |
| JsonGrammar.ArrayItemsNext | src/json_parser.hpp:593-604 | a turn of the element loop that ends at `,` continues the loop after it, with the element appended |
| JsonGrammar.ArrayItemsLast | src/json_parser.hpp:593-597 | a turn of the element loop that ends at `]` returns the array with the element appended, past the `]` |
| JsonGrammar.ParseObject | src/json_parser.hpp:608-649 | `parseObject` consumes at least one byte and stays within the text |
| JsonGrammar.ObjectMembers | src/json_parser.hpp:619-648 | the member loop consumes at least one byte and stays within the text |
| JsonGrammar.ObjectMember | src/json_parser.hpp:620-636 | one member (key, `:`, duplicate check, value) consumes at least one byte and stays within the text |
| JsonGrammar.ObjectMembersNext | src/json_parser.hpp:636-647 | a turn of the member loop that ends at `,` continues the loop after it, with the member added |
| JsonGrammar.ObjectMembersLast | src/json_parser.hpp:636-641 | a turn of the member loop that ends at `}` returns the object, past the `}` |
| JsonGrammarLaws.ParseValueWellFormed | src/json_parser.hpp:432-448 | every value `parser()` reads has every object at every level sorted by key |
| JsonGrammarLaws.DispatchWellFormed | src/json_parser.hpp:437-447 | every value the dispatch reads is well formed |
| JsonGrammarLaws.ParseArrayWellFormed | src/json_parser.hpp:577-605 | every array `parseArray` reads is well formed |
| JsonGrammarLaws.ArrayItemsWellFormed | src/json_parser.hpp:588-605 | the element loop, started on well-formed elements, returns a well-formed array |
| JsonGrammarLaws.ParseObjectWellFormed | src/json_parser.hpp:608-649 | every object `parseObject` reads is sorted by key, with well-formed values |
| JsonGrammarLaws.ObjectMembersWellFormed | src/json_parser.hpp:619-648 | the member loop, started on sorted well-formed members, returns a well-formed object |
| JsonGrammarLaws.ObjectMemberWellFormed | src/json_parser.hpp:620-636 | one member turn keeps the members sorted and well formed |
| JsonGrammarLaws.ParseJsonWellFormed | src/json_parser.hpp:666-669 | every value `parserJson` returns has sorted, duplicate-free keys at every level |
| JsonGrammarLaws.DigitsRun | src/json_parser.hpp:491-493 | the digit loop passes over a run of digits |
| JsonGrammarLaws.FractionSound | src/json_parser.hpp:495-506 | what the fraction part consumes is empty or `.` followed by at least one digit |
| JsonGrammarLaws.ExponentSound | src/json_parser.hpp:508-524 | what the exponent part consumes is empty or `e`/`E`, an optional sign and at least one digit |
| JsonGrammarLaws.NumberEndSound | src/json_parser.hpp:483-524 | what `parseNumber` scans is a number lexeme: optional `-`, digits, optional fraction, optional exponent |
| JsonGrammarLaws.NumberEndMaximal | src/json_parser.hpp:490-524 | the scan stops at the longest lexeme: never in front of a digit, never in front of a `.` while the lexeme has no fraction or exponent, never in front of `e` or `E` while it has no exponent |
| JsonGrammarLaws.NumberEndRejects | src/json_parser.hpp:485-520 | the scan fails only with its three errors, each characterised by the bytes: the invalid-number error exactly when no digit follows the optional `-`; the missing-fraction error exactly when a `.` right after the digits has no digit after it; the missing-exponent error exactly when the fraction is well formed and the `e` or `E` after it, with its optional sign, has no digit after it |
| JsonGrammarLaws.ParseNumberKind | src/json_parser.hpp:526-534 | a read number is a Double exactly when its lexeme holds `.`, `e` or `E`, and that Double keeps the lexeme. Any other number is the Int the lexeme denotes. The cursor ends right after the lexeme |
| JsonGrammarLaws.ParseNumberRange | src/json_parser.hpp:533 | an integer lexeme is refused exactly when its value does not fit in 32 bits, with the out-of-range error |
| JsonGrammarLaws.StringBodyNeedsQuote | src/json_parser.hpp:540-572 | from any position of any text with no `"` after it, the string loop fails with the unterminated-string or the escape error |
| JsonGrammarLaws.ParseStringNeedsQuote | src/json_parser.hpp:537-572 | `parseString` on a text with no `"` after the opening one fails with the unterminated-string or the escape error |
| JsonGrammarLaws.StringBodyStep | src/json_parser.hpp:540-569 | the string loop reads a byte's escape back as that byte, unless it is a control byte the parser cannot unescape, which is the escape error |
| JsonGrammarLaws.SafeStringBody | src/json_parser.hpp:540-573 | the escaped text of a string without unreadable control bytes, then `"`, is read back as that string, past the quote |
| JsonGrammarLaws.UnsafeStringBody | src/json_parser.hpp:540-564 | the escaped text of a string holding an unreadable control byte fails with the escape error |
| JsonGrammarLaws.ParseStringOfQuote | src/json_parser.hpp:537-575 | `parseString` on a quoted escaped string wherever it stands in a text: the string, or the escape error |
| JsonGrammarLaws.StringRoundTrip | src/json_parser.hpp:311-345 | `parseString(escapeString` in quotes`)` gives back the string exactly when it holds no control byte other than `\n`, `\t`, `\r`; otherwise the escape error |
| JsonParsing.JsonParser.constructor | src/json_parser.hpp:401-406 | a parser on a non-empty text starts at index 0 |
| JsonParsing.JsonParser.Open | src/json_parser.hpp:401-406 | constructing a parser fails exactly on the empty text, and otherwise yields a fresh parser at index 0 |
| JsonParsing.JsonParser.Parser | src/json_parser.hpp:432-448 | `parser(depth)` returns what `ParseValue` reads, or raises its error, and leaves the cursor after the value |
| JsonParsing.JsonParser.GetNextToken | src/json_parser.hpp:451-459 | the cursor moves past the whitespace; the byte there is returned, or the unexpected-end error |
| JsonParsing.JsonParser.ParseNull | src/json_parser.hpp:461-468 | returns and moves as `ParseNull` says |
| JsonParsing.JsonParser.ParseBoolean | src/json_parser.hpp:469-481 | returns and moves as `ParseBoolean` says |
| JsonParsing.JsonParser.SkipDigits | src/json_parser.hpp:491-493 | the digit loop leaves the cursor where `DigitsEnd` says |
| JsonParsing.JsonParser.ParseNumber | src/json_parser.hpp:483-535 | returns and moves as `ParseNumber` says |
| JsonParsing.JsonParser.ScanNumber | src/json_parser.hpp:484-524 | the scanning loops leave the cursor where `NumberEnd` says, or raise its error |
| JsonParsing.JsonParser.ScanFraction | src/json_parser.hpp:495-506 | the fraction loop leaves the cursor where `FractionEnd` says, or raises its error |
| JsonParsing.JsonParser.ScanExponent | src/json_parser.hpp:508-524 | the exponent loop leaves the cursor where `ExponentEnd` says, or raises its error |
| JsonParsing.JsonParser.ParseString | src/json_parser.hpp:537-575 | returns and moves as `ParseString` says |
| JsonParsing.JsonParser.ParseArray | src/json_parser.hpp:577-605 | returns and moves as `ParseArray` says |
| JsonParsing.JsonParser.ElementLoop | src/json_parser.hpp:588-605 | the element loop returns and moves as `ArrayItems` says |
| JsonParsing.JsonParser.ParseObject | src/json_parser.hpp:608-649 | returns and moves as `ParseObject` says |
| JsonParsing.JsonParser.MemberLoop | src/json_parser.hpp:619-648 | the member loop returns and moves as `ObjectMembers` says |
| JsonParsing.JsonParser.ParseMember | src/json_parser.hpp:620-636 | one member returns and moves as `ObjectMember` says |
| JsonParsing.ParserJson | src/json_parser.hpp:666-669 | `parserJson(text)` returns exactly `ParseJson(text)` |
| JsonRoundTrip.WriteThenParse | tests/unit_test.cc:253-258 | `parserJson(writeToString(v)) == v` for every value with no Double, no unreadable control byte in a string or key, and every level within the depth limit |
| JsonRoundTrip.ValueRT | src/json_parser.hpp:432-448 | a value's text at any position, followed by a separator, a closing bracket or the end, is read back by `parser(d)` as that value, ending right after the text |
| JsonRoundTrip.DispatchRT | src/json_parser.hpp:437-447 | the dispatch on a value's first byte reads that value back |
| JsonRoundTrip.ArrayRT | src/json_parser.hpp:577-605 | `arrayToString`'s text is read back by `parseArray` as the array |
| JsonRoundTrip.ObjectRT | src/json_parser.hpp:608-649 | `objectToString`'s text is read back by `parseObject` as the object, with no duplicate key reported |
| JsonRoundTrip.NullRT | src/json_parser.hpp:461-468 | `null` is read back as Null |
| JsonRoundTrip.BoolRT | src/json_parser.hpp:469-481 | `true` and `false` are read back as their Bool |
| JsonRoundTrip.IntRT | src/json_parser.hpp:483-535 | `std::to_string(int)` is read back as that Int |
| JsonRoundTrip.IntNumber | src/json_parser.hpp:526-534 | `parseNumber` on `std::to_string(n)` gives Int(n) right after the text |
| JsonRoundTrip.NumberOfInt | src/json_parser.hpp:484-524 | the scanning loops stop right after `std::to_string(n)` |
| JsonRoundTrip.IntLexeme | src/json_parser.hpp:296 | `std::to_string(int)` is an integer lexeme with no `.`, `e` or `E` that denotes the number |
| JsonRoundTrip.StringRT | src/json_parser.hpp:537-575 | a quoted escaped string with no unreadable control byte is read back as that String |
| JsonRoundTrip.KeyRT | src/json_parser.hpp:624-625 | a written key is read by `parser()` as its String and stops at the closing quote |
| JsonRoundTrip.MemberRT | src/json_parser.hpp:620-636 | one written member of a sorted object is read back and appended after the members before it |
| JsonRoundTrip.MemberIsNew | src/json_parser.hpp:633-636 | in a sorted object the j-th key is absent from the earlier members, so the duplicate check passes and assigning it appends it |
| JsonRoundTrip.WriteStart | src/json_parser.hpp:289-308 | a value's text is never empty or whitespace at its start, and its first byte tells its kind |
| JsonDepth.WriteSingleton | src/json_parser.hpp:352-364 | a one-element array is written as its element's text in brackets |
| JsonDepth.NestedPortable | src/json_parser.hpp:289-308 | a scalar inside any number of arrays is within the round trip's domain |
| JsonDepth.NestedFits | src/json_parser.hpp:433-447 | read at depth d, n levels of arrays fit the ceiling exactly when d + 2n <= 64 |
| JsonDepth.TooDeep | src/json_parser.hpp:433-434 | reading nested arrays from an even depth whose innermost level lies beyond 64 fails with the depth error at 66 |
| JsonDepth.ParseNested | src/json_parser.hpp:654 | the text of a scalar inside n arrays is read back when n <= 32 and refused with the depth error at 66 when n > 32 |
| JsonRefusals.NoValueStartsHere | src/json_parser.hpp:437-447 | `parser(d)` within the depth limit, on a next byte no value starts with (`]`, `}`, `,`, `:` among them), fails with the invalid-character error at depth d, at any position of any text |
| JsonRefusals.ValueStartsHere | src/json_parser.hpp:437-447 | on a byte that starts a value, the switch never fails with the invalid-character error at its own depth |
| JsonRefusals.ValueErrorsAreDeeper | src/json_parser.hpp:432-448 | every error `parser(d)` raises that carries a depth carries d or more: errors from nested containers carry their own, greater depth |
| JsonRefusals.DispatchErrorsAreDeeper | src/json_parser.hpp:437-447 | every depth-carrying error of the switch of `parser(d)` carries d or more |
| JsonRefusals.ArrayErrorsAreDeeper | src/json_parser.hpp:577-605 | every depth-carrying error of `parseArray(d)` carries d or more |
| JsonRefusals.ItemsErrorsAreDeeper | src/json_parser.hpp:586-604 | every depth-carrying error of the element loop of `parseArray(d)` carries d or more |
| JsonRefusals.ObjectErrorsAreDeeper | src/json_parser.hpp:608-649 | every depth-carrying error of `parseObject(d)` carries d or more |
| JsonRefusals.MembersErrorsAreDeeper | src/json_parser.hpp:618-648 | every depth-carrying error of the member loop of `parseObject(d)` carries d or more |
| JsonRefusals.MemberErrorsAreDeeper | src/json_parser.hpp:623-636 | every depth-carrying error of one member of `parseObject(d)` carries d or more |
| JsonRefusals.NumberErrorsCarryNoDepth | src/json_parser.hpp:483-535 | the errors of `parseNumber` carry no depth |
| JsonRefusals.StringErrorsCarryNoDepth | src/json_parser.hpp:540-572 | the errors of the string loop carry no depth |
| JsonRefusals.ScalarErrorsCarryNoDepth | src/json_parser.hpp:440-443 | the switch of `parser()` on a byte that starts a scalar fails only with errors that carry no depth |
| JsonRefusals.InvalidCharacterExactly | src/json_parser.hpp:437-447 | within the depth limit, `parser(d)` fails with the invalid-character error at depth d exactly when the next byte starts no value |
| JsonRefusals.SpacedEmptyArray | src/json_parser.hpp:584-593 | `[`, whitespace and `]` anywhere, at any depth d, is not the empty array: the invalid-character error at d + 1, or the depth error beyond the limit |
| JsonRefusals.TrailingCommaInArray | src/json_parser.hpp:593-604 | an element followed by `,` and then `]` is refused with the invalid-character error of the next element's depth |
| JsonRefusals.ElementExpectedAt | src/json_parser.hpp:593 | the element loop within the depth limit, at a byte no value starts with, fails with the invalid-character error of the element's depth |
| JsonRefusals.ItemsOfFailedElement | src/json_parser.hpp:593 | an element that fails ends the element loop with that element's error |
| JsonRefusals.ValueNeedsDepth | src/json_parser.hpp:433-435 | `parser(d)` returns a value only when d is within the depth limit |
| JsonRefusals.ArrayDelimiter | src/json_parser.hpp:594-603 | after an element, the end of the text is the unexpected end and a byte other than `,` and `]` is the array-delimiter error at the array's depth |
| JsonRefusals.TrailingCommaInObject | src/json_parser.hpp:619-647 | a member followed by `,` and then `}` is refused with the invalid-character error of the next key's depth |
| JsonRefusals.KeyExpectedAt | src/json_parser.hpp:623-625 | the member loop within the depth limit, at a byte no value starts with, fails with the invalid-character error of the key's depth |
| JsonRefusals.MemberOfFailedKey | src/json_parser.hpp:623-625 | a key that fails ends the member with that key's error |
| JsonRefusals.MembersOfFailedMember | src/json_parser.hpp:618-636 | a member that fails ends the member loop with that member's error |
| JsonRefusals.MemberNeedsDepth | src/json_parser.hpp:623-636 | a member read without error had its key read within the depth limit |
| JsonRefusals.ObjectDelimiter | src/json_parser.hpp:637-646 | after a member, the end of the text is the unexpected end and a byte other than `,` and `}` is the object-delimiter error at the object's depth |
| JsonRefusals.KeyNotAString | src/json_parser.hpp:624-625 | a key read as anything but a string fails in `get<json_string>`, whatever follows it |
| JsonRefusals.ColonAfterKey | src/json_parser.hpp:626-631 | after a string key, a byte other than `:` is the colon error at the object's depth |
| JsonRefusals.RepeatedKey | src/json_parser.hpp:632-636 | after a string key and its `:`, the member fails with the duplicate-key error at the object's depth exactly when the key was read before, for any key and any members before it |
| JsonExamples.EmptyTexts | src/json_parser.hpp:401-406 | the empty text is refused by the constructor; a text of only whitespace runs out in `getNextToken` |
| JsonExamples.TrailingTextIgnored | src/json_parser.hpp:666-669 | `"1 x"` is read as 1: nothing after the first value is looked at |
| JsonExamples.EmptyContainersWithSpace | src/json_parser.hpp:584-615 | `[]` and `{ }` are empty containers, while `[ ]` fails on the `]` that `parser()` meets |
| JsonExamples.TrailingComma | src/json_parser.hpp:593-604 | `[1,]` fails on the `]` where an element must start |
| JsonExamples.ArrayDelimiters | src/json_parser.hpp:594-603 | `[1 2]` fails with the array-delimiter error; `[1` runs out |
| JsonExamples.KeyErrors | src/json_parser.hpp:624-631 | a non-string key fails in `get<json_string>`; a key without `:` fails with the colon error |
| JsonExamples.DuplicateKeyRefused | src/json_parser.hpp:633-635 | `{"a":1,"a":2}` fails with the duplicate-key error |
| JsonExamples.DuplicateKeyIn | src/json_parser.hpp:633-635 | the same, on a text variable equal to it |
| JsonExamples.MissingMemberDelimiter | src/json_parser.hpp:637-646 | `{"a":1 "b":2}` fails with the object-delimiter error |
| JsonExamples.MissingMemberDelimiterIn | src/json_parser.hpp:637-646 | the same, on a text variable equal to it |
| JsonExamples.Literals | src/json_parser.hpp:461-481 | `nul` and `fals` are refused; ` true` is read after its whitespace |
| JsonExamples.NumberScanErrors | src/json_parser.hpp:488-519 | `-`, `1.` and `1e+` fail with the three scanning errors |
| JsonExamples.DoubleLexeme | src/json_parser.hpp:528-531 | `1.5e3` is read as a Double |
| JsonExamples.LeadingZeros | src/json_parser.hpp:533 | `007` is read as 7 |
| JsonExamples.IntRange | src/json_parser.hpp:533 | `2147483648` is out of range; `-2147483648` is read |
| JsonExamples.SignedDigitsRead | src/json_parser.hpp:483-535 | a text of digits after an optional `-` is read as what `std::stoi` makes of it |
| JsonExamples.TabEscape | src/json_parser.hpp:550-552 | `\t` in a string is read as a tab |
| JsonExamples.StringErrors | src/json_parser.hpp:540-572 | `"\u0041"` fails, because `u` is not an escape the parser knows; a string without its closing quote is unterminated |
| JsonExamples.WriteShortEscapes | src/json_parser.hpp:315-322 | a quote and a newline are written as `\"` and `\n` |
| JsonExamples.WriteHexEscape | src/json_parser.hpp:337-338 | the byte 1 is written as `\u0001` |
| JsonExamples.WriteCompact | src/json_parser.hpp:352-378 | containers are written without whitespace: `{"k":[-5,null]}` |

## Left out

- Doubles: `std::stof` and `std::to_string(double)` are floating point. A Double keeps its lexeme, and `writeToString` writes that lexeme back, not the six-decimal float text. The round trip therefore excludes Doubles.
- JsonGrammar.ParseNumber: does not model the float conversion of `std::stof`, nor its range error. A lexeme with `.`, `e` or `E` is always accepted as a Double.
- JsonValue.Equals: a double argument is compared with the lexeme a Double keeps, where the source compares the float `std::stof` made of the text with the double. A value read from `1.0` equals the argument 1.00 in the source, while `Double("1.0")` and `PDouble("1.00")` differ here. A value read from `0.1` never equals the argument 0.1 in the source, while the lexemes agree here. The model has no floating point. JsonValue.NotEquals inherits the same difference.
- The `std::unordered_map` payload of the Clang and other builds: its order is unspecified. The model uses the order of the GCC `std::map`.
- The copy and move constructors and assignments of `JsonFiled` and `JsonParser`: values are immutable datatypes here, so a copy is the value itself.
- The `else` branch of `get<T>`, which throws for an unsupported type: a template instance the value model cannot name.
- `operator[](T)` for other integral and `const char*` keys: these forward to the `size_t` and `std::string` overloads, which are modelled.
- JsonFields.JsonField.Subscript: the returned reference is modelled as the slot's content right after the call. Writing through the reference is modelled by `SetKey` and `SetIndex`; other aliasing is not.
- JsonWriter.HexPad: keeps only the last width digits of a value too wide for them, where `std::setw` prints it in full. Its one caller passes a byte below 32 with width 4, where the two agree. The `std::ostringstream` is not modelled.
- `PrintJson` and `operator<<` are not part of this model.
- The exception messages are not modelled. The model keeps the kind of each error and the depth a `JsonParseError` carries.
- The methods `SkipDigits`, `ScanNumber`, `ScanFraction`, `ScanExponent`, `ElementLoop`, `MemberLoop` and `ParseMember` split `parseNumber`, `parseArray` and `parseObject` into one method per loop. Their statements are the source's, in the same order.
- Reading `_jsonstring[_iIndex]` at `_iIndex == size()` yields the NUL that `std::string` guarantees (`JsonChars.At`). Reads further out cannot happen: the cursor never passes the end.
