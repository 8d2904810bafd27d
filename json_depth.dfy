/**
 * The depth limit of parser(): a scalar nested inside n one-element arrays
 * is read back when n <= 32 and refused with the depth error otherwise,
 * because every array level raises CurrentDepth by two (once in parser()
 * and once in parseArray()) and parser() accepts up to 64.
 */
module JsonDepth {
  import opened Outcomes
  import opened JsonValue
  import opened JsonGrammar
  import opened JsonWriter
  import opened JsonGrammarLaws
  import opened JsonRoundTrip

  /** A value the serializer writes without brackets and the parser reads back: no Double. */
  predicate Scalar(x: Value)
  {
    x.Null? || x.Bool? || x.Int? || (x.String? && ParseSafe(x.str))
  }

  /** x inside n arrays holding one element each. */
  function Nested(n: nat, x: Value): Value
  {
    if n == 0 then x else Array([Nested(n - 1, x)])
  }

  /** The text of a one-element array is its element's text in brackets. */
  lemma WriteSingleton(y: Value)
    ensures Write(Array([y])) == "[" + Write(y) + "]"
  {
  }

  lemma {:induction false} NestedPortable(n: nat, x: Value)
    requires Scalar(x)
    ensures Portable(Nested(n, x))
  {
    if n > 0 {
      NestedPortable(n - 1, x);
    }
  }

  /** Read at depth d, n levels of arrays fit exactly when d + 2n stays within the limit. */
  lemma {:induction false} NestedFits(n: nat, x: Value, d: nat)
    requires Scalar(x)
    ensures FitsAt(Nested(n, x), d) <==> d + 2 * n <= MaxDepth
  {
    if n > 0 {
      var y := Nested(n - 1, x);
      assert [y][0] == y;
      NestedFits(n - 1, x, d + 2);
    }
  }

  /**
   * Reading the nested text at an even depth d from which the innermost
   * level would lie beyond the limit fails with the depth of the first
   * level past it, 66, whatever follows the text.
   */
  lemma {:induction false} TooDeep(t: string, i: nat, d: nat, n: nat, x: Value)
    requires Scalar(x) && Holds(t, i, Write(Nested(n, x)))
    requires d % 2 == 0 && d <= MaxDepth + 2 && d + 2 * n >= MaxDepth + 2
    ensures ParseValue(t, i, d) == Err(MaxDepthExceeded(MaxDepth + 2))
    decreases n
  {
    if d <= MaxDepth {
      var y := Nested(n - 1, x);
      WriteSingleton(y);
      BracketsHold(t, i, '[', Write(y), ']');
      HoldsSplit(t, i + 1, Write(y), "]");
      WriteStart(y);
      HoldsAt(t, i + 1, Write(y), 0);
      ParseValueAt(t, i, d);
      DispatchArray(t, i, d);
      TooDeep(t, i + 1, d + 2, n - 1, x);
    }
  }

  /** parserJson(writeToString(v)) for v a scalar inside n arrays: the value up to 32 levels, the depth error beyond. */
  lemma ParseNested(n: nat, x: Value)
    requires Scalar(x)
    ensures ParseJson(Write(Nested(n, x))) == if n <= 32 then Ok(Nested(n, x)) else Err(MaxDepthExceeded(66))
  {
    NestedFits(n, x, 0);
    if n <= 32 {
      NestedPortable(n, x);
      WriteThenParse(Nested(n, x));
    } else {
      var t := Write(Nested(n, x));
      TooDeep(t, 0, 0, n, x);
    }
  }
}
