/**
 * utils/ff.ts: `unstringifyBigInts`, which walks a JSON-like value and turns
 * every string written entirely in decimal digits, or as "0x" followed by
 * hexadecimal digits, into the BigInt it denotes.  Arrays are mapped element
 * by element, objects entry by entry (same keys, same order), and every other
 * value is returned as it is.
 */
module Ff {
  import opened Text

  /** The JavaScript values the function can meet. */
  datatype JsValue =
    | JsString(s: string)
    | JsBigInt(i: int)
    | JsNumber(n: real)
    | JsBool(b: bool)
    | JsNull
    | JsUndefined
    | JsArray(elems: seq<JsValue>)
    | JsObject(entries: seq<(string, JsValue)>)

  /** `/^[0-9]+$/` */
  predicate IsDecimalLiteral(s: string)
  {
    |s| >= 1 && AllDigits(s)
  }

  /** `/^0x[0-9a-fA-F]+$/` */
  predicate IsHexLiteral(s: string)
  {
    |s| >= 3 && s[0] == '0' && s[1] == 'x' && AllHexDigits(s[2..])
  }

  /** The keys of an object, in order. */
  function Keys(entries: seq<(string, JsValue)>): (r: seq<string>)
    ensures |r| == |entries| && forall i :: 0 <= i < |r| ==> r[i] == entries[i].0
  {
    seq(|entries|, i requires 0 <= i < |entries| => entries[i].0)
  }

  /**
   * `unstringifyBigInts`.  `BigInt(s)` of a decimal string is its decimal value
   * and of "0x..." its hexadecimal value.
   */
  function Unstringify(v: JsValue): (r: JsValue)
    ensures v.JsString? && IsDecimalLiteral(v.s) ==> r == JsBigInt(DecimalValue(v.s))
    ensures v.JsString? && IsHexLiteral(v.s) ==> r == JsBigInt(HexValue(v.s[2..]))
    ensures v.JsString? && !IsDecimalLiteral(v.s) && !IsHexLiteral(v.s) ==> r == v
    ensures v.JsArray? ==> r.JsArray? && |r.elems| == |v.elems|
                           && forall i :: 0 <= i < |v.elems| ==> r.elems[i] == Unstringify(v.elems[i])
    ensures v.JsObject? ==> r.JsObject? && Keys(r.entries) == Keys(v.entries)
                            && forall i :: 0 <= i < |v.entries| ==> r.entries[i].1 == Unstringify(v.entries[i].1)
    ensures !v.JsString? && !v.JsArray? && !v.JsObject? ==> r == v
    decreases v
  {
    match v
    case JsString(s) =>
      if IsDecimalLiteral(s) then JsBigInt(DecimalValue(s))
      else if IsHexLiteral(s) then JsBigInt(HexValue(s[2..]))
      else v
    case JsArray(elems) =>
      JsArray(seq(|elems|, i requires 0 <= i < |elems| => Unstringify(elems[i])))
    case JsObject(entries) =>
      JsObject(seq(|entries|, i requires 0 <= i < |entries| => (entries[i].0, Unstringify(entries[i].1))))
    case _ => v
  }

  /** No string is both: a decimal literal never contains 'x'. */
  lemma LiteralFormsDisjoint(s: string)
    ensures !(IsDecimalLiteral(s) && IsHexLiteral(s))
  {
    if IsDecimalLiteral(s) && |s| >= 2 {
      assert IsDigit(s[1]);
    }
  }

  /** A converted value holds no string that would be converted again. */
  predicate Settled(v: JsValue)
    decreases v
  {
    match v
    case JsString(s) => !IsDecimalLiteral(s) && !IsHexLiteral(s)
    case JsArray(elems) => forall i :: 0 <= i < |elems| ==> Settled(elems[i])
    case JsObject(entries) => forall i :: 0 <= i < |entries| ==> Settled(entries[i].1)
    case _ => true
  }

  lemma {:induction false} UnstringifySettles(v: JsValue)
    ensures Settled(Unstringify(v))
    decreases v
  {
    match v
    case JsArray(elems) =>
      forall i | 0 <= i < |elems|
        ensures Settled(Unstringify(v).elems[i])
      {
        UnstringifySettles(elems[i]);
      }
    case JsObject(entries) =>
      forall i | 0 <= i < |entries|
        ensures Settled(Unstringify(v).entries[i].1)
      {
        UnstringifySettles(entries[i].1);
      }
    case _ =>
  }

  lemma {:induction false} UnstringifySettledIsIdentity(v: JsValue)
    requires Settled(v)
    ensures Unstringify(v) == v
    decreases v
  {
    match v
    case JsArray(elems) =>
      forall i | 0 <= i < |elems|
        ensures Unstringify(elems[i]) == elems[i]
      {
        UnstringifySettledIsIdentity(elems[i]);
      }
      assert Unstringify(v).elems == elems;
    case JsObject(entries) =>
      forall i | 0 <= i < |entries|
        ensures Unstringify(entries[i].1) == entries[i].1
      {
        UnstringifySettledIsIdentity(entries[i].1);
      }
      assert Unstringify(v).entries == entries;
    case _ =>
  }

  /** Converting twice is converting once. */
  lemma UnstringifyIdempotent(v: JsValue)
    ensures Unstringify(Unstringify(v)) == Unstringify(v)
  {
    UnstringifySettles(v);
    UnstringifySettledIsIdentity(Unstringify(v));
  }

  /** Strings that are not whole literals stay strings: empty, bare "0x", signed, fractional. */
  lemma UnstringifyLeavesNonLiterals()
    ensures Unstringify(JsString("")) == JsString("")
    ensures Unstringify(JsString("0x")) == JsString("0x")
    ensures Unstringify(JsString("-5")) == JsString("-5")
    ensures Unstringify(JsString("1.5")) == JsString("1.5")
    ensures Unstringify(JsString("0xg")) == JsString("0xg")
  {
    assert !IsDigit('-') && !IsDigit('.') && !IsDigit('x') && !IsHexDigit('g');
    assert "-5"[0] == '-' && "1.5"[1] == '.' && "0x"[1] == 'x' && "0xg"[1] == 'x' && "0xg"[2..] == "g";
  }
}
