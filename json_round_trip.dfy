/**
 * The serializer and the parser are inverse on the values both can carry:
 * the text writeToString produces is read back by parserJson as the value
 * it came from.  Values outside that domain are Doubles (whose text is the
 * source's float formatting), strings with control bytes the parser has no
 * escape for, and values nested deeper than parser() accepts.
 */
module JsonRoundTrip {
  import opened Outcomes
  import opened JsonChars
  import opened JsonValue
  import opened JsonGrammar
  import opened JsonWriter
  import opened JsonGrammarLaws

  // ---------------------------------------------------------------------------
  // The domain of the round trip
  // ---------------------------------------------------------------------------

  /** No Double anywhere, every string and key free of the escapes the parser rejects, objects sorted. */
  ghost predicate Portable(v: Value)
  {
    match v
    case Double(_) => false
    case String(s) => ParseSafe(s)
    case Array(es) => forall k :: 0 <= k < |es| ==> Portable(es[k])
    case Object(ms) => SortedKeys(ms) && forall k :: 0 <= k < |ms| ==> ParseSafe(ms[k].key) && Portable(ms[k].val)
    case _ => true
  }

  /**
   * Read at depth d, v and everything in it is read at a depth parser()
   * accepts: the elements and member values of a container are read two
   * levels deeper than the container.
   */
  predicate FitsAt(v: Value, d: nat)
  {
    d <= MaxDepth &&
    match v
    case Array(es) => forall k :: 0 <= k < |es| ==> FitsAt(es[k], d + 2)
    case Object(ms) => forall k :: 0 <= k < |ms| ==> FitsAt(ms[k].val, d + 2)
    case _ => true
  }

  /** A byte that may follow a value inside a text: a separator, a closing bracket or the end. */
  predicate Ender(t: string, j: nat)
  {
    j == |t| || (j < |t| && (t[j] == ',' || t[j] == ']' || t[j] == '}'))
  }

  // ---------------------------------------------------------------------------
  // The theorem
  // ---------------------------------------------------------------------------

  /** parserJson(writeToString(v)) == v on the domain above. */
  lemma WriteThenParse(v: Value)
    requires Portable(v) && FitsAt(v, 0)
    ensures ParseJson(Write(v)) == Ok(v)
  {
    var t := Write(v);
    ValueRT(t, 0, 0, v);
  }

  // ---------------------------------------------------------------------------
  // Values in the middle of a text
  // ---------------------------------------------------------------------------

  /** A value's text, followed by a byte that may follow a value, is read back as that value. */
  lemma {:induction false} ValueRT(t: string, i: nat, d: nat, v: Value)
    requires Portable(v) && FitsAt(v, d)
    requires Holds(t, i, Write(v)) && Ender(t, i + |Write(v)|)
    ensures ParseValue(t, i, d) == Ok(Parsed(v, i + |Write(v)|))
    decreases v, 2
  {
    WriteStart(v);
    HoldsAt(t, i, Write(v), 0);
    ParseValueAt(t, i, d);
    DispatchRT(t, i, d, v);
  }

  /** The switch of parser(d), on the first byte of a value's text, reads that value. */
  lemma {:induction false} DispatchRT(t: string, i: nat, d: nat, v: Value)
    requires Portable(v) && FitsAt(v, d)
    requires Holds(t, i, Write(v)) && Ender(t, i + |Write(v)|)
    requires i < |t| && t[i] == Write(v)[0]
    ensures Dispatch(t, i, d) == Ok(Parsed(v, i + |Write(v)|))
    decreases v, 1
  {
    match v
    case Null => NullRT(t, i, d);
    case Bool(b) => BoolRT(t, i, d, b);
    case Int(n) => IntRT(t, i, d, n);
    case String(s) => StringRT(t, i, d, s);
    case Array(es) => ArrayRT(t, i, d, es);
    case Object(ms) => ObjectRT(t, i, d, ms);
  }

  /** On '[', parser(d) reads an array's text back when its elements fit at d + 2. */
  lemma {:induction false} ArrayRT(t: string, i: nat, d: nat, es: seq<Value>)
    requires i < |t| && t[i] == '[' && Holds(t, i, Write(Array(es)))
    requires forall k :: 0 <= k < |es| ==> Portable(es[k]) && FitsAt(es[k], d + 2)
    ensures Dispatch(t, i, d) == Ok(Parsed(Array(es), i + |Write(Array(es))|))
    decreases Array(es), 0
  {
    forall n, p: nat | 0 <= n < |es| && Holds(t, p, Write(es[n])) && Ender(t, p + |Write(es[n])|)
      ensures ParseValue(t, p, d + 2) == Ok(Parsed(es[n], p + |Write(es[n])|))
    {
      ValueRT(t, p, d + 2, es[n]);
    }
    ArrayBody(t, i, d + 1, es);
    DispatchArray(t, i, d);
  }

  /** On '{', parser(d) reads an object's text back when its member values fit at d + 2. */
  lemma {:induction false} ObjectRT(t: string, i: nat, d: nat, ms: seq<Member>)
    requires i < |t| && t[i] == '{' && Holds(t, i, Write(Object(ms))) && SortedKeys(ms)
    requires forall k :: 0 <= k < |ms| ==> ParseSafe(ms[k].key) && Portable(ms[k].val) && FitsAt(ms[k].val, d + 2)
    ensures Dispatch(t, i, d) == Ok(Parsed(Object(ms), i + |Write(Object(ms))|))
    decreases Object(ms), 0
  {
    forall n, p: nat | 0 <= n < |ms| && Holds(t, p, Write(ms[n].val)) && Ender(t, p + |Write(ms[n].val)|)
      ensures ParseValue(t, p, d + 2) == Ok(Parsed(ms[n].val, p + |Write(ms[n].val)|))
    {
      assert ms[n] in ms;
      ValueRT(t, p, d + 2, ms[n].val);
    }
    if |ms| > 0 {
      assert FitsAt(ms[0].val, d + 2);
    }
    ObjectBody(t, i, d + 1, ms);
    DispatchObject(t, i, d);
  }

  /** Every element of es is read back by parser(d) wherever its text stands in t. */
  ghost predicate ElemsReadBack(t: string, d: nat, es: seq<Value>)
  {
    forall n, p: nat :: 0 <= n < |es| && Holds(t, p, Write(es[n])) && Ender(t, p + |Write(es[n])|) ==>
      ParseValue(t, p, d) == Ok(Parsed(es[n], p + |Write(es[n])|))
  }

  /** Every member value of ms is read back by parser(d) wherever its text stands in t. */
  ghost predicate MembersReadBack(t: string, d: nat, ms: seq<Member>)
  {
    forall n, p: nat :: 0 <= n < |ms| && Holds(t, p, Write(ms[n].val)) && Ender(t, p + |Write(ms[n].val)|) ==>
      ParseValue(t, p, d) == Ok(Parsed(ms[n].val, p + |Write(ms[n].val)|))
  }

  /** The j-th element, standing at p and ending at e, is read back by parser(d). */
  lemma ElemAt(t: string, d: nat, es: seq<Value>, j: nat, p: nat, e: nat)
    requires ElemsReadBack(t, d, es) && j < |es| && e == p + |Write(es[j])|
    requires Holds(t, p, Write(es[j])) && Ender(t, e)
    ensures ParseValue(t, p, d) == Ok(Parsed(es[j], e))
  {
  }

  /** The j-th member value, standing at p and ending at e, is read back by parser(d). */
  lemma MemberValueAt(t: string, d: nat, ms: seq<Member>, j: nat, p: nat, e: nat)
    requires MembersReadBack(t, d, ms) && j < |ms| && e == p + |Write(ms[j].val)|
    requires Holds(t, p, Write(ms[j].val)) && Ender(t, e)
    ensures ParseValue(t, p, d) == Ok(Parsed(ms[j].val, e))
  {
  }

  // ---------------------------------------------------------------------------
  // Leaves
  // ---------------------------------------------------------------------------

  lemma NullRT(t: string, i: nat, d: nat)
    requires i < |t| && Holds(t, i, Write(Null))
    ensures Dispatch(t, i, d) == Ok(Parsed(Null, i + |Write(Null)|))
  {
    HoldsAt(t, i, "null", 0);
    HoldsStartsWith(t, i, "null");
  }

  lemma BoolRT(t: string, i: nat, d: nat, b: bool)
    requires i < |t| && Holds(t, i, Write(Bool(b)))
    ensures Dispatch(t, i, d) == Ok(Parsed(Bool(b), i + |Write(Bool(b))|))
  {
    HoldsStartsWith(t, i, Write(Bool(b)));
    HoldsAt(t, i, Write(Bool(b)), 0);
    if !b {
      assert t[i] == 'f';
      StartsWithHead(t, i, "true");
    }
  }

  lemma IntRT(t: string, i: nat, d: nat, n: Int32)
    requires Holds(t, i, Write(Int(n))) && Ender(t, i + |Write(Int(n))|)
    ensures i < |t|
    ensures Dispatch(t, i, d) == Ok(Parsed(Int(n), i + |Write(Int(n))|))
  {
    IntLexeme(n);
    HoldsAt(t, i, IntToString(n), 0);
    IntNumber(t, i, n);
  }

  /** parseNumber() reads std::to_string(int)'s text back as that int. */
  lemma IntNumber(t: string, i: nat, n: Int32)
    requires Holds(t, i, IntToString(n)) && Ender(t, i + |IntToString(n)|)
    ensures i < |t| && ParseNumber(t, i) == Ok(Parsed(Int(n), i + |IntToString(n)|))
  {
    var w := IntToString(n);
    IntLexeme(n);
    NumberOfInt(t, i, n);
    HoldsSlice(t, i, w);
    NumberOfLexeme(t, i, i + |w|, w, n);
  }

  /** parseNumber() on a scanned integer lexeme that fits in an int. */
  lemma NumberOfLexeme(t: string, i: nat, e: nat, w: string, n: Int32)
    requires i < |t| && NumberEnd(t, i) == Ok(e) && t[i..e] == w
    requires '.' !in w && 'e' !in w && 'E' !in w && IsIntegerLexeme(w) && IntegerValue(w) == n
    ensures ParseNumber(t, i) == Ok(Parsed(Int(n), e))
  {
    NumberEndIntegral(t, i, e);
  }

  lemma StringRT(t: string, i: nat, d: nat, s: string)
    requires Holds(t, i, Quote(s)) && ParseSafe(s)
    ensures i < |t|
    ensures Dispatch(t, i, d) == Ok(Parsed(String(s), i + |Quote(s)|))
  {
    QuoteHolds(t, i, s);
    ParseStringOfQuote(t, i, s);
  }

  /** A key is read by parser(d) like any value, and stops at its closing quote. */
  lemma KeyRT(t: string, i: nat, d: nat, s: string, c: nat)
    requires Holds(t, i, Quote(s)) && ParseSafe(s) && d <= MaxDepth && c == i + |Quote(s)|
    ensures ParseValue(t, i, d) == Ok(Parsed(String(s), c))
  {
    QuoteHolds(t, i, s);
    ParseValueAt(t, i, d);
    StringRT(t, i, d, s);
  }

  // ---------------------------------------------------------------------------
  // Steps of the containers
  // ---------------------------------------------------------------------------

  lemma ArrayBody(t: string, i: nat, d: nat, es: seq<Value>)
    requires Holds(t, i, Write(Array(es))) && ElemsReadBack(t, d + 1, es)
    requires es != [] ==> !es[0].Double?
    ensures i < |t|
    ensures ParseArray(t, i, d) == Ok(Parsed(Array(es), i + |Write(Array(es))|))
  {
    BracketsHold(t, i, '[', WriteElems(es), ']');
    if |es| == 0 {
      HoldsAt(t, i + 1, "]", 0);
    } else {
      ElemsOpen(t, i + 1, es);
      var ps := ElemStarts(i + 1, es);
      ElemsLaidOut(t, i + 1, es);
      ElemsAll(t, i + 1, d, es, ps);
      ElemStartsEnd(i, es);
    }
  }

  lemma ObjectBody(t: string, i: nat, d: nat, ms: seq<Member>)
    requires Holds(t, i, Write(Object(ms))) && SortedKeys(ms) && MembersReadBack(t, d + 1, ms)
    requires forall k :: 0 <= k < |ms| ==> ParseSafe(ms[k].key)
    requires |ms| > 0 ==> d + 1 <= MaxDepth
    ensures i < |t|
    ensures ParseObject(t, i, d) == Ok(Parsed(Object(ms), i + |Write(Object(ms))|))
  {
    BracketsHold(t, i, '{', WriteMembers(ms), '}');
    if |ms| == 0 {
      HoldsAt(t, i + 1, "}", 0);
      NextTokenHere(t, i + 1);
    } else {
      MembersOpen(t, i + 1, ms);
      var ps := MemberStarts(i + 1, ms);
      MembersLaidOut(t, i + 1, ms);
      ObjectOpen(t, i, d, ms, ps);
      MemberStartsEnd(i, ms);
    }
  }

  /** A non-empty object: '{', then the member loop from the first key up to the last start. */
  lemma ObjectOpen(t: string, i: nat, d: nat, ms: seq<Member>, ps: seq<nat>)
    requires |ms| > 0 && |ps| == |ms| + 1 && ps[0] == i + 1 && i + 1 < |t| && t[i + 1] == '"'
    requires SortedKeys(ms) && MembersReadBack(t, d + 1, ms) && d + 1 <= MaxDepth
    requires forall n :: 0 <= n < |ms| ==> ParseSafe(ms[n].key) && MemberText(t, ms, ps, n)
    ensures ParseObject(t, i, d) == Ok(Parsed(Object(ms), ps[|ms|]))
  {
    NextTokenHere(t, i + 1);
    MembersAll(t, i + 1, d, ms, ps);
  }

  /** The element loop from the first element reads them all, up to the last start. */
  lemma ElemsAll(t: string, k: nat, d: nat, es: seq<Value>, ps: seq<nat>)
    requires |es| > 0 && |ps| == |es| + 1 && ps[0] == k && k <= |t| && ElemsReadBack(t, d + 1, es)
    requires forall n :: 0 <= n < |es| ==> ElemText(t, es, ps, n)
    ensures ArrayItems(t, k, d, []) == Ok(Parsed(Array(es), ps[|es|]))
  {
    forall n | 0 <= n < |es|
      ensures ElemRead(t, d, es, ps, n)
    {
      ElemParsedAt(t, d, es, ps, n);
    }
    assert es[..0] == [];
    ItemsChain(t, d, es, ps, 0);
  }

  /** The member loop from the first key reads all members, up to the last start. */
  lemma MembersAll(t: string, k: nat, d: nat, ms: seq<Member>, ps: seq<nat>)
    requires |ms| > 0 && |ps| == |ms| + 1 && ps[0] == k && k <= |t|
    requires SortedKeys(ms) && MembersReadBack(t, d + 1, ms) && d + 1 <= MaxDepth
    requires forall n :: 0 <= n < |ms| ==> ParseSafe(ms[n].key) && MemberText(t, ms, ps, n)
    ensures ObjectMembers(t, k, d, []) == Ok(Parsed(Object(ms), ps[|ms|]))
  {
    forall n | 0 <= n < |ms|
      ensures MemberRead(t, d, ms, ps, n)
    {
      MemberParsedAt(t, d, ms, ps, n);
    }
    assert ms[..0] == [];
    MembersChain(t, d, ms, ps, 0);
  }

  /** The n-th element, laid out at ps[n], is read back and followed by its separator. */
  lemma ElemParsedAt(t: string, d: nat, es: seq<Value>, ps: seq<nat>, n: nat)
    requires ElemText(t, es, ps, n) && ElemsReadBack(t, d + 1, es)
    ensures ElemRead(t, d, es, ps, n)
  {
    ElemAt(t, d + 1, es, n, ps[n], ps[n + 1] - 1);
  }

  /** The n-th member, laid out at ps[n], is read as one turn of the member loop. */
  lemma MemberParsedAt(t: string, d: nat, ms: seq<Member>, ps: seq<nat>, n: nat)
    requires MemberText(t, ms, ps, n) && MembersReadBack(t, d + 1, ms)
    requires SortedKeys(ms) && d + 1 <= MaxDepth && ParseSafe(ms[n].key)
    ensures MemberRead(t, d, ms, ps, n)
  {
    MemberPartsAt(t, d, ms, ps, n);
    MemberRT(t, ps[n], d, ms, n, ps[n] + |Quote(ms[n].key)|, ps[n + 1] - 1);
  }

  /**
   * The two parser() calls of one member's turn: the key ends at the ':'
   * at c, and the value starting after it ends at e.
   */
  ghost predicate MemberParses(t: string, k: nat, d: nat, m: Member, c: nat, e: nat)
  {
    k <= |t| && c < |t| && t[c] == ':' &&
    ParseValue(t, k, d + 1) == Ok(Parsed(String(m.key), c)) &&
    ParseValue(t, c + 1, d + 1) == Ok(Parsed(m.val, e))
  }

  /** The n-th member's key and value, laid out at ps[n], are read back. */
  lemma MemberPartsAt(t: string, d: nat, ms: seq<Member>, ps: seq<nat>, n: nat)
    requires MemberText(t, ms, ps, n) && MembersReadBack(t, d + 1, ms)
    requires d + 1 <= MaxDepth && ParseSafe(ms[n].key)
    ensures MemberParses(t, ps[n], d, ms[n], ps[n] + |Quote(ms[n].key)|, ps[n + 1] - 1)
  {
    var c := ps[n] + |Quote(ms[n].key)|;
    KeyRT(t, ps[n], d + 1, ms[n].key, c);
    MemberValueAt(t, d + 1, ms, n, c + 1, ps[n + 1] - 1);
  }

  /**
   * The n-th element's text stands at ps[n] and ends just before the
   * separator at ps[n + 1] - 1: a ',' or, for the last, ']'.
   */
  ghost predicate ElemText(t: string, es: seq<Value>, ps: seq<nat>, n: nat)
  {
    n < |es| && n + 1 < |ps| && 1 <= ps[n + 1] &&
    Holds(t, ps[n], Write(es[n])) &&
    ps[n + 1] - 1 == ps[n] + |Write(es[n])| < |t| &&
    Ender(t, ps[n + 1] - 1) && t[ps[n + 1] - 1] == if n == |es| - 1 then ']' else ','
  }

  /**
   * The n-th member's text stands at ps[n]: its quoted key, ':' and its
   * value, which ends just before the separator at ps[n + 1] - 1.
   */
  ghost predicate MemberText(t: string, ms: seq<Member>, ps: seq<nat>, n: nat)
  {
    n < |ms| && n + 1 < |ps| && 1 <= ps[n + 1] &&
    Holds(t, ps[n], Quote(ms[n].key)) &&
    ps[n] + |Quote(ms[n].key)| < |t| && t[ps[n] + |Quote(ms[n].key)|] == ':' &&
    Holds(t, ps[n] + |Quote(ms[n].key)| + 1, Write(ms[n].val)) &&
    ps[n + 1] - 1 == ps[n] + |Quote(ms[n].key)| + 1 + |Write(ms[n].val)| < |t| &&
    Ender(t, ps[n + 1] - 1) && t[ps[n + 1] - 1] == if n == |ms| - 1 then '}' else ','
  }

  /** Every element of a non-empty run followed by ']' stands where ElemStarts puts it. */
  lemma ElemsLaidOut(t: string, k: nat, es: seq<Value>)
    requires |es| > 0 && Holds(t, k, WriteElems(es) + "]")
    ensures forall n :: 0 <= n < |es| ==> ElemText(t, es, ElemStarts(k, es), n)
  {
    forall n | 0 <= n < |es|
      ensures ElemText(t, es, ElemStarts(k, es), n)
    {
      ElemTextAt(t, k, es, ElemStarts(k, es), n);
    }
  }

  /** Every member of a non-empty run followed by '}' stands where MemberStarts puts it. */
  lemma MembersLaidOut(t: string, k: nat, ms: seq<Member>)
    requires |ms| > 0 && Holds(t, k, WriteMembers(ms) + "}")
    ensures forall n :: 0 <= n < |ms| ==> MemberText(t, ms, MemberStarts(k, ms), n)
  {
    forall n | 0 <= n < |ms|
      ensures MemberText(t, ms, MemberStarts(k, ms), n)
    {
      MemberTextAt(t, k, ms, MemberStarts(k, ms), n);
    }
  }

  lemma ElemTextAt(t: string, k: nat, es: seq<Value>, ps: seq<nat>, n: nat)
    requires n < |es| && Holds(t, k, WriteElems(es) + "]") && ps == ElemStarts(k, es)
    ensures ElemText(t, es, ps, n)
  {
    ElemStartsLayout(t, k, es, ps, n);
    ElemStartsStep(k, es, n);
  }

  lemma MemberTextAt(t: string, k: nat, ms: seq<Member>, ps: seq<nat>, n: nat)
    requires n < |ms| && Holds(t, k, WriteMembers(ms) + "}") && ps == MemberStarts(k, ms)
    ensures MemberText(t, ms, ps, n)
  {
    MemberStartsLayout(t, k, ms, ps, n);
    MemberStartsStep(k, ms, n);
    MemberHolds(t, ps[n], ms[n]);
  }

  /**
   * The n-th element, starting at ps[n], is read by parser(d + 1) and ends
   * just before the separator at ps[n + 1] - 1: a ',' or, for the last, ']'.
   */
  ghost predicate ElemRead(t: string, d: nat, es: seq<Value>, ps: seq<nat>, n: nat)
  {
    n < |es| && n + 1 < |ps| && ps[n] < |t| && 1 <= ps[n + 1] <= |t| &&
    ParseValue(t, ps[n], d + 1) == Ok(Parsed(es[n], ps[n + 1] - 1)) &&
    t[ps[n + 1] - 1] == if n == |es| - 1 then ']' else ','
  }

  /** The n-th member, starting at ps[n], is one turn of the member loop, ending before its separator. */
  ghost predicate MemberRead(t: string, d: nat, ms: seq<Member>, ps: seq<nat>, n: nat)
  {
    n < |ms| && n + 1 < |ps| && ps[n] < |t| && 1 <= ps[n + 1] <= |t| &&
    ObjectMember(t, ps[n], d, ms[..n]) == Ok(Step(ms[..n + 1], ps[n + 1] - 1)) &&
    t[ps[n + 1] - 1] == if n == |ms| - 1 then '}' else ','
  }

  /**
   * The element loop from the j-th element on, with each element's start
   * position given: it reads them all and stops after the closing ']'.
   */
  lemma {:induction false} ItemsChain(t: string, d: nat, es: seq<Value>, ps: seq<nat>, j: nat)
    requires |ps| == |es| + 1 && j < |es|
    requires forall n :: j <= n < |es| ==> ElemRead(t, d, es, ps, n)
    ensures ElemRead(t, d, es, ps, j) && ArrayItems(t, ps[j], d, es[..j]) == Ok(Parsed(Array(es), ps[|es|]))
    decreases |es| - j
  {
    assert ElemRead(t, d, es, ps, j);
    var n := ps[j + 1] - 1;
    PrefixSnoc(es, j);
    NextTokenHere(t, n);
    if j < |es| - 1 {
      ItemsChain(t, d, es, ps, j + 1);
      ArrayItemsNext(t, ps[j], d, es[..j], es[j], n, n);
    }
  }

  /**
   * The member loop from the j-th member on, with each member's start
   * position given: it reads them all and stops after the closing '}'.
   */
  lemma {:induction false} MembersChain(t: string, d: nat, ms: seq<Member>, ps: seq<nat>, j: nat)
    requires |ps| == |ms| + 1 && j < |ms|
    requires forall n :: j <= n < |ms| ==> MemberRead(t, d, ms, ps, n)
    ensures MemberRead(t, d, ms, ps, j) && ObjectMembers(t, ps[j], d, ms[..j]) == Ok(Parsed(Object(ms), ps[|ms|]))
    decreases |ms| - j
  {
    assert MemberRead(t, d, ms, ps, j);
    var n := ps[j + 1] - 1;
    PrefixSnoc(ms, j);
    NextTokenHere(t, n);
    if j < |ms| - 1 {
      MembersChain(t, d, ms, ps, j + 1);
      ObjectMembersNext(t, ps[j], d, ms[..j], ms[..j + 1], n, n);
    }
  }

  /** Where each element's text starts: one past the separator after the previous element. */
  function ElemStarts(k: nat, es: seq<Value>): (ps: seq<nat>)
    ensures |ps| == |es| + 1 && ps[0] == k
    decreases |es|
  {
    if |es| == 0 then [k] else [k] + ElemStarts(k + |Write(es[0])| + 1, es[1..])
  }

  /** Where each member's text starts: one past the separator after the previous member. */
  function MemberStarts(k: nat, ms: seq<Member>): (ps: seq<nat>)
    ensures |ps| == |ms| + 1 && ps[0] == k
    decreases |ms|
  {
    if |ms| == 0 then [k] else [k] + MemberStarts(k + |WriteMember(ms[0])| + 1, ms[1..])
  }

  lemma {:induction false} ElemStartsStep(k: nat, es: seq<Value>, n: nat)
    requires n < |es|
    ensures ElemStarts(k, es)[n + 1] == ElemStarts(k, es)[n] + |Write(es[n])| + 1
    decreases n
  {
    if n > 0 {
      ElemStartsStep(k + |Write(es[0])| + 1, es[1..], n - 1);
      assert es[1..][n - 1] == es[n];
    }
  }

  lemma {:induction false} MemberStartsStep(k: nat, ms: seq<Member>, n: nat)
    requires n < |ms|
    ensures MemberStarts(k, ms)[n + 1] == MemberStarts(k, ms)[n] + |WriteMember(ms[n])| + 1
    decreases n
  {
    if n > 0 {
      MemberStartsStep(k + |WriteMember(ms[0])| + 1, ms[1..], n - 1);
      assert ms[1..][n - 1] == ms[n];
    }
  }

  /** The last start, after the elements of Write(Array(es)) at i, is one past its closing bracket. */
  lemma ElemStartsEnd(i: nat, es: seq<Value>)
    requires |es| > 0
    ensures ElemStarts(i + 1, es)[|es|] == i + |Write(Array(es))|
  {
    ElemStartsLast(i + 1, es);
  }

  /** The last start, after the members of Write(Object(ms)) at i, is one past its closing bracket. */
  lemma MemberStartsEnd(i: nat, ms: seq<Member>)
    requires |ms| > 0
    ensures MemberStarts(i + 1, ms)[|ms|] == i + |Write(Object(ms))|
  {
    MemberStartsLast(i + 1, ms);
  }

  lemma {:induction false} ElemStartsLast(k: nat, es: seq<Value>)
    requires |es| > 0
    ensures ElemStarts(k, es)[|es|] == k + |WriteElems(es)| + 1
    decreases |es|
  {
    var k' := k + |Write(es[0])| + 1;
    assert ElemStarts(k, es) == [k] + ElemStarts(k', es[1..]);
    if |es| > 1 {
      ElemStartsLast(k', es[1..]);
      assert WriteElems(es) == Write(es[0]) + "," + WriteElems(es[1..]);
    }
  }

  lemma {:induction false} MemberStartsLast(k: nat, ms: seq<Member>)
    requires |ms| > 0
    ensures MemberStarts(k, ms)[|ms|] == k + |WriteMembers(ms)| + 1
    decreases |ms|
  {
    var k' := k + |WriteMember(ms[0])| + 1;
    assert MemberStarts(k, ms) == [k] + MemberStarts(k', ms[1..]);
    if |ms| > 1 {
      MemberStartsLast(k', ms[1..]);
      assert WriteMembers(ms) == WriteMember(ms[0]) + "," + WriteMembers(ms[1..]);
    }
  }

  /** The n-th element's text stands at its start, and its separator right after it. */
  lemma {:induction false} ElemStartsLayout(t: string, k: nat, es: seq<Value>, ps: seq<nat>, n: nat)
    requires n < |es| && Holds(t, k, WriteElems(es) + "]") && ps == ElemStarts(k, es)
    ensures Holds(t, ps[n], Write(es[n])) && ps[n] + |Write(es[n])| < |t| &&
      t[ps[n] + |Write(es[n])|] == if n == |es| - 1 then ']' else ','
    decreases n
  {
    assert es[0..] == es;
    ElemsLayout(t, k, es, 0);
    if n > 0 {
      ElemStartsLayout(t, k + |Write(es[0])| + 1, es[1..], ps[1..], n - 1);
      assert es[1..][n - 1] == es[n];
    }
  }

  lemma {:induction false} MemberStartsLayout(t: string, k: nat, ms: seq<Member>, ps: seq<nat>, n: nat)
    requires n < |ms| && Holds(t, k, WriteMembers(ms) + "}") && ps == MemberStarts(k, ms)
    ensures Holds(t, ps[n], WriteMember(ms[n])) && ps[n] + |WriteMember(ms[n])| < |t| &&
      t[ps[n] + |WriteMember(ms[n])|] == if n == |ms| - 1 then '}' else ','
    decreases n
  {
    assert ms[0..] == ms;
    MembersLayout(t, k, ms, 0);
    if n > 0 {
      MemberStartsLayout(t, k + |WriteMember(ms[0])| + 1, ms[1..], ps[1..], n - 1);
      assert ms[1..][n - 1] == ms[n];
    }
  }

  /** One member: its key, ':', its value; the key is new because the keys before it are smaller. */
  lemma MemberRT(t: string, k: nat, d: nat, ms: seq<Member>, j: nat, c: nat, e: nat)
    requires j < |ms| && SortedKeys(ms) && MemberParses(t, k, d, ms[j], c, e)
    ensures ObjectMember(t, k, d, ms[..j]) == Ok(Step(ms[..j + 1], e))
  {
    MemberIsNew(ms, j);
    MemberStep(t, k, d, ms[..j], ms[j].key, ms[j].val, c, e);
  }

  /** In a sorted object the j-th key is not among the earlier ones, and inserting it appends it. */
  lemma MemberIsNew(ms: seq<Member>, j: nat)
    requires j < |ms| && SortedKeys(ms)
    ensures Lookup(ms[..j], ms[j].key) == None
    ensures Insert(ms[..j], ms[j].key, ms[j].val) == ms[..j + 1]
  {
    var m := ms[j];
    forall n | 0 <= n < |ms[..j]|
      ensures KeyLess(ms[..j][n].key, m.key)
    {
      assert ms[..j][n] == ms[n];
    }
    LookupAbsentBelow(ms[..j], m.key);
    InsertAtEnd(ms[..j], m.key, m.val);
    assert ms[..j] + [Member(m.key, m.val)] == ms[..j + 1];
  }

  /** One turn of the member loop from the results of its two parser() calls. */
  lemma MemberStep(t: string, k: nat, d: nat, acc: seq<Member>, key: string, val: Value, c: nat, e: nat)
    requires k <= |t| && c < |t| && t[c] == ':'
    requires ParseValue(t, k, d + 1) == Ok(Parsed(String(key), c))
    requires Lookup(acc, key) == None
    requires ParseValue(t, c + 1, d + 1) == Ok(Parsed(val, e))
    ensures ObjectMember(t, k, d, acc) == Ok(Step(Insert(acc, key, val), e))
  {
    NextTokenHere(t, c);
  }

  lemma DispatchArray(t: string, i: nat, d: nat)
    requires i < |t| && t[i] == '['
    ensures Dispatch(t, i, d) == ParseArray(t, i, d + 1)
  {
  }

  lemma DispatchObject(t: string, i: nat, d: nat)
    requires i < |t| && t[i] == '{'
    ensures Dispatch(t, i, d) == ParseObject(t, i, d + 1)
  {
  }

  /** parser(d) on a byte that is not whitespace dispatches on it directly. */
  lemma ParseValueAt(t: string, i: nat, d: nat)
    requires i < |t| && !IsSpace(t[i]) && d <= MaxDepth
    ensures ParseValue(t, i, d) == Dispatch(t, i, d)
  {
    NextTokenHere(t, i);
  }

  lemma NextTokenHere(t: string, i: nat)
    requires i < |t| && !IsSpace(t[i])
    ensures NextToken(t, i) == Ok(i)
  {
  }

  // ---------------------------------------------------------------------------
  // The shape of the serializer's output
  // ---------------------------------------------------------------------------

  /** The first byte of a value's text tells its kind, and is never whitespace or a closing bracket. */
  lemma WriteStart(v: Value)
    requires !v.Double?
    ensures |Write(v)| > 0 && !IsSpace(Write(v)[0])
    ensures v.Null? ==> Write(v)[0] == 'n'
    ensures v.Bool? ==> Write(v)[0] == if v.b then 't' else 'f'
    ensures v.Int? ==> Write(v)[0] == '-' || IsDigit(Write(v)[0])
    ensures v.String? ==> Write(v)[0] == '"'
    ensures v.Array? ==> Write(v)[0] == '['
    ensures v.Object? ==> Write(v)[0] == '{'
  {
    if v.Int? {
      IntLexeme(v.n);
    }
  }

  /** std::to_string(int) is an integer lexeme with no '.', 'e' or 'E', denoting the number. */
  lemma IntLexeme(n: int)
    ensures var w := IntToString(n);
            |w| > 0 && (w[0] == '-' || IsDigit(w[0])) &&
            IsIntegerLexeme(w) && IntegerValue(w) == n &&
            '.' !in w && 'e' !in w && 'E' !in w &&
            (w[0] == '-' ==> |w| > 1 && IsDigit(w[1]) && AllDigits(w[1..]))
  {
    var w := IntToString(n);
    if n < 0 {
      DigitsValueOfNatToDigits(-n);
      assert w[1..] == NatToDigits(-n);
    } else {
      DigitsValueOfNatToDigits(n);
    }
  }

  /** The scanning loops of parseNumber() stop right after std::to_string(int)'s text. */
  lemma NumberOfInt(t: string, i: nat, n: int)
    requires Holds(t, i, IntToString(n)) && Ender(t, i + |IntToString(n)|)
    ensures i < |t| && NumberEnd(t, i) == Ok(i + |IntToString(n)|)
  {
    var w := IntToString(n);
    var e := i + |w|;
    IntLexeme(n);
    HoldsAt(t, i, w, 0);
    var a := SignEnd(t, i);
    if w[0] == '-' {
      HoldsAt(t, i, w, 1);
      assert a == i + 1;
    } else {
      assert a == i;
    }
    forall k | a <= k < e
      ensures IsDigit(t[k])
    {
      HoldsAt(t, i, w, k - i);
      if w[0] == '-' {
        assert w[k - i] == w[1..][k - i - 1];
      }
    }
    DigitsEndOfRun(t, a, e);
  }

  /** DigitsEnd stops at the end of a run of digits. */
  lemma {:induction false} DigitsEndOfRun(t: string, a: nat, e: nat)
    requires a <= e <= |t|
    requires forall k :: a <= k < e ==> IsDigit(t[k])
    requires e == |t| || !IsDigit(t[e])
    ensures DigitsEnd(t, a) == e
    decreases e - a
  {
    if a < e {
      DigitsEndOfRun(t, a + 1, e);
    }
  }

  /** The bracketed text of a container: the opening byte, the inside and the closing byte. */
  lemma BracketsHold(t: string, i: nat, open: char, inside: string, close: char)
    requires Holds(t, i, [open] + inside + [close])
    ensures i < |t| && t[i] == open
    ensures Holds(t, i + 1, inside + [close])
    ensures i + 1 + |inside| < |t| && t[i + 1 + |inside|] == close
  {
    assert [open] + inside + [close] == [open] + (inside + [close]);
    HoldsSplit(t, i, [open], inside + [close]);
    HoldsAt(t, i, [open], 0);
    HoldsSplit(t, i + 1, inside, [close]);
    HoldsAt(t, i + 1 + |inside|, [close], 0);
  }

  /** A member's text is its quoted key, ':' and its value's text. */
  lemma MemberHolds(t: string, k: nat, m: Member)
    requires Holds(t, k, WriteMember(m))
    ensures |WriteMember(m)| == |Quote(m.key)| + 1 + |Write(m.val)|
    ensures Holds(t, k, Quote(m.key))
    ensures k + |Quote(m.key)| < |t| && t[k + |Quote(m.key)|] == ':'
    ensures Holds(t, k + |Quote(m.key)| + 1, Write(m.val))
  {
    var q := Quote(m.key);
    assert WriteMember(m) == q + (":" + Write(m.val));
    HoldsSplit(t, k, q, ":" + Write(m.val));
    HoldsSplit(t, k + |q|, ":", Write(m.val));
    HoldsAt(t, k + |q|, ":", 0);
  }

  /** A non-empty run of members starts with the '"' of the first key. */
  lemma MembersOpen(t: string, k: nat, ms: seq<Member>)
    requires |ms| > 0 && Holds(t, k, WriteMembers(ms) + "}")
    ensures k < |t| && t[k] == '"'
  {
    WriteMembersStart(ms);
    HoldsAt(t, k, WriteMembers(ms) + "}", 0);
  }

  /** A non-empty run of elements starts with the first byte of the first element, never ']'. */
  lemma ElemsOpen(t: string, k: nat, es: seq<Value>)
    requires |es| > 0 && !es[0].Double? && Holds(t, k, WriteElems(es) + "]")
    ensures k < |t| && t[k] != ']' && !IsSpace(t[k])
  {
    WriteStart(es[0]);
    assert WriteElems(es)[0] == Write(es[0])[0];
    HoldsAt(t, k, WriteElems(es) + "]", 0);
  }

  lemma WriteMembersStart(ms: seq<Member>)
    requires |ms| > 0
    ensures |WriteMembers(ms)| > 0 && WriteMembers(ms)[0] == '"'
  {
    assert WriteMember(ms[0])[0] == '"';
  }

  /** Where the j-th element's text lies, and what follows it. */
  lemma ElemsLayout(t: string, k: nat, es: seq<Value>, j: nat)
    requires j < |es| && Holds(t, k, WriteElems(es[j..]) + "]")
    ensures Holds(t, k, Write(es[j])) && k + |Write(es[j])| < |t|
    ensures j == |es| - 1 ==> t[k + |Write(es[j])|] == ']' && |WriteElems(es[j..])| == |Write(es[j])|
    ensures j < |es| - 1 ==>
      t[k + |Write(es[j])|] == ',' &&
      Holds(t, k + |Write(es[j])| + 1, WriteElems(es[j + 1..]) + "]") &&
      |WriteElems(es[j..])| == |Write(es[j])| + 1 + |WriteElems(es[j + 1..])|
  {
    var w := Write(es[j]);
    WriteElemsDrop(es, j);
    if j == |es| - 1 {
      HoldsSplit(t, k, w, "]");
      HoldsAt(t, k + |w|, "]", 0);
    } else {
      var rest := WriteElems(es[j + 1..]);
      SeparatedHolds(t, k, w, rest, ']');
    }
  }

  /** Where the j-th member's text lies, and what follows it. */
  lemma MembersLayout(t: string, k: nat, ms: seq<Member>, j: nat)
    requires j < |ms| && Holds(t, k, WriteMembers(ms[j..]) + "}")
    ensures Holds(t, k, WriteMember(ms[j])) && k + |WriteMember(ms[j])| < |t|
    ensures j == |ms| - 1 ==> t[k + |WriteMember(ms[j])|] == '}' && |WriteMembers(ms[j..])| == |WriteMember(ms[j])|
    ensures j < |ms| - 1 ==>
      t[k + |WriteMember(ms[j])|] == ',' &&
      Holds(t, k + |WriteMember(ms[j])| + 1, WriteMembers(ms[j + 1..]) + "}") &&
      |WriteMembers(ms[j..])| == |WriteMember(ms[j])| + 1 + |WriteMembers(ms[j + 1..])|
  {
    var w := WriteMember(ms[j]);
    WriteMembersDrop(ms, j);
    if j == |ms| - 1 {
      HoldsSplit(t, k, w, "}");
      HoldsAt(t, k + |w|, "}", 0);
    } else {
      var rest := WriteMembers(ms[j + 1..]);
      SeparatedHolds(t, k, w, rest, '}');
    }
  }

  /** A piece, ',' and the rest followed by a closing byte. */
  lemma SeparatedHolds(t: string, k: nat, w: string, rest: string, close: char)
    requires Holds(t, k, w + "," + rest + [close])
    ensures Holds(t, k, w) && k + |w| < |t| && t[k + |w|] == ','
    ensures Holds(t, k + |w| + 1, rest + [close])
  {
    assert w + "," + rest + [close] == w + ("," + (rest + [close]));
    HoldsSplit(t, k, w, "," + (rest + [close]));
    HoldsSplit(t, k + |w|, ",", rest + [close]);
    HoldsAt(t, k + |w|, ",", 0);
  }

  lemma PrefixSnoc<T>(s: seq<T>, j: nat)
    requires j < |s|
    ensures s[..j] + [s[j]] == s[..j + 1]
    ensures s[..|s|] == s
  {
  }

  /** The elements from the j-th on: the j-th, then ',' and the rest when there is a rest. */
  lemma WriteElemsDrop(es: seq<Value>, j: nat)
    requires j < |es|
    ensures WriteElems(es[j..]) == if j == |es| - 1 then Write(es[j]) else Write(es[j]) + "," + WriteElems(es[j + 1..])
  {
    assert es[j..][0] == es[j];
    assert es[j..][1..] == es[j + 1..];
  }

  /** The members from the j-th on: the j-th, then ',' and the rest when there is a rest. */
  lemma WriteMembersDrop(ms: seq<Member>, j: nat)
    requires j < |ms|
    ensures WriteMembers(ms[j..]) == if j == |ms| - 1 then WriteMember(ms[j]) else WriteMember(ms[j]) + "," + WriteMembers(ms[j + 1..])
  {
    assert ms[j..][0] == ms[j];
    assert ms[j..][1..] == ms[j + 1..];
  }

  /** Holds is StartsWith. */
  lemma HoldsStartsWith(t: string, i: nat, w: string)
    requires Holds(t, i, w)
    ensures StartsWith(t, i, w)
  {
    HoldsSlice(t, i, w);
  }

  /** Text that starts with w at i has w's first character at i. */
  lemma StartsWithHead(t: string, i: nat, w: string)
    requires |w| > 0
    ensures StartsWith(t, i, w) ==> i < |t| && t[i] == w[0]
  {
    if i + |w| <= |t| {
      assert t[i..i + |w|][0] == t[i];
    }
  }

  lemma HoldsSlice(t: string, i: nat, w: string)
    requires Holds(t, i, w)
    ensures t[i..i + |w|] == w
  {
    forall k | 0 <= k < |w|
      ensures t[i..i + |w|][k] == w[k]
    {
    }
  }

  // ---------------------------------------------------------------------------
  // Objects in key order
  // ---------------------------------------------------------------------------

  /** find(key) fails on members whose keys are all smaller than key. */
  lemma {:induction false} LookupAbsentBelow(acc: seq<Member>, key: string)
    requires forall n :: 0 <= n < |acc| ==> KeyLess(acc[n].key, key)
    ensures Lookup(acc, key) == None
  {
    if |acc| > 0 {
      KeyLessIrreflexive(key);
      assert KeyLess(acc[0].key, key);
      forall n | 0 <= n < |acc[1..]|
        ensures KeyLess(acc[1..][n].key, key)
      {
        assert acc[1..][n] == acc[n + 1];
      }
      LookupAbsentBelow(acc[1..], key);
    }
  }

  /** Assigning a key larger than every present key appends its member. */
  lemma {:induction false} InsertAtEnd(acc: seq<Member>, key: string, x: Value)
    requires forall n :: 0 <= n < |acc| ==> KeyLess(acc[n].key, key)
    ensures Insert(acc, key, x) == acc + [Member(key, x)]
  {
    if |acc| > 0 {
      assert KeyLess(acc[0].key, key);
      KeyLessIrreflexive(key);
      if KeyLess(key, acc[0].key) {
        KeyLessTransitive(key, acc[0].key, key);
      }
      forall n | 0 <= n < |acc[1..]|
        ensures KeyLess(acc[1..][n].key, key)
      {
        assert acc[1..][n] == acc[n + 1];
      }
      InsertAtEnd(acc[1..], key, x);
      assert [acc[0]] + (acc[1..] + [Member(key, x)]) == acc + [Member(key, x)];
    }
  }
}
