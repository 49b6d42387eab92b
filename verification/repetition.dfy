/** Rendering of a repetition bound (a minimum and an optional maximum)
    as a regular-expression quantifier and as English text
    (min_max_to_pattern and min_max_to_text in pycallnumber/utils.py).
    Each renderer is paired with a reader that recovers the bound from
    the rendering, and the round trip is proved for every bound. */
module Repetition {
  import opened Text

  /** A repetition bound: at least `min`, at most `max` (None: unbounded). */
  type Bound = (nat, Option<nat>)

  /** The quantifier suffix for a bound; the first matching case wins. */
  function MinMaxToPattern(min: nat, max: Option<nat>): (q: string)
    ensures |q| <= 1 <==> min <= 1 && (max == None || max == Some(1))
    ensures q == "" <==> min == 1 && max == Some(1)
    ensures |q| > 1 ==> q[0] == '{' && q[|q| - 1] == '}'
    ensures min != 1 && max == Some(min) ==> q == "{" + NatToString(min) + "}"
  {
    if min == 0 && max == None then "*"
    else if min == 0 && max == Some(1) then "?"
    else if min == 1 && max == None then "+"
    else if min == 1 && max == Some(1) then ""
    else if min > 1 && max == None then "{" + NatToString(min) + ",}"
    else if max == Some(min) then "{" + NatToString(min) + "}"
    else "{" + NatToString(min) + "," + NatToString(max.value) + "}"
  }

  /** What a quantifier suffix means in regular-expression syntax:
      `*` is {0,}, `?` is {0,1}, `+` is {1,}, no suffix is {1,1}, and the
      brace forms `{n}`, `{n,}`, `{n,m}` read their decimal numbers. */
  function ParseQuantifier(q: string): Option<Bound>
  {
    if q == "*" then Some((0, None))
    else if q == "?" then Some((0, Some(1)))
    else if q == "+" then Some((1, None))
    else if q == "" then Some((1, Some(1)))
    else if |q| >= 3 && q[0] == '{' && q[|q| - 1] == '}' then
      var inner := q[1..|q| - 1];
      var k := DigitPrefixLength(inner);
      var rest := inner[k..];
      if k == 0 then None
      else if rest == "" then Some((DigitsValue(inner[..k]), Some(DigitsValue(inner[..k]))))
      else if rest == "," then Some((DigitsValue(inner[..k]), None))
      else if rest[0] == ',' && AllDigits(rest[1..]) then
        Some((DigitsValue(inner[..k]), Some(DigitsValue(rest[1..]))))
      else None
    else None
  }

  /** Reading a rendered number between a brace and a delimiter. */
  lemma BraceNumber(n: nat, tail: string)
    requires tail == [] || !IsDigit(tail[0])
    ensures var inner := NatToString(n) + tail;
            var k := DigitPrefixLength(inner);
            k == |NatToString(n)| && k > 0 && DigitsValue(inner[..k]) == n && inner[k..] == tail
  {
    DigitPrefixOfNumber(n, tail);
    NatToStringRoundTrip(n);
  }

  /** Reading the brace forms back. */
  lemma ReadBraces(d: string, tail: string)
    ensures var q := "{" + (d + tail) + "}"; |q| >= 2 && q[0] == '{' && q[|q| - 1] == '}' && q[1..|q| - 1] == d + tail
  {
  }

  lemma ReadAtLeastBrace(n: nat)
    ensures ParseQuantifier("{" + (NatToString(n) + ",") + "}") == Some((n, None))
  {
    ReadBraces(NatToString(n), ",");
    BraceNumber(n, ",");
  }

  lemma ReadExactBrace(n: nat)
    ensures ParseQuantifier("{" + (NatToString(n) + "") + "}") == Some((n, Some(n)))
  {
    ReadBraces(NatToString(n), "");
    BraceNumber(n, "");
  }

  lemma ReadRangeBrace(m: nat, n: nat)
    ensures ParseQuantifier("{" + (NatToString(m) + ("," + NatToString(n))) + "}") == Some((m, Some(n)))
  {
    var e := NatToString(n);
    ReadBraces(NatToString(m), "," + e);
    BraceNumber(m, "," + e);
    NatToStringRoundTrip(n);
    assert ("," + e)[1..] == e;
  }

  /** The rendered quantifier means exactly the bound it was made from,
      so no two bounds share a quantifier. */
  lemma PatternRoundTrip(min: nat, max: Option<nat>)
    ensures ParseQuantifier(MinMaxToPattern(min, max)) == Some((min, max))
  {
    var q := MinMaxToPattern(min, max);
    var d := NatToString(min);
    if min > 1 && max == None {
      assert q == "{" + (d + ",") + "}";
      ReadAtLeastBrace(min);
    } else if max == Some(min) && min != 1 {
      assert q == "{" + (d + "") + "}";
      ReadExactBrace(min);
    } else if !(min <= 1 && (max == None || max == Some(1))) {
      assert q == "{" + (d + ("," + NatToString(max.value))) + "}";
      ReadRangeBrace(min, max.value);
    }
  }

  /** The English rendering of a bound whose ends may each be absent;
      `lowerWord` completes "n or ..." when only the maximum is known. */
  function MinMaxToText(min: Option<nat>, max: Option<nat>, lowerWord: string): (t: string)
    ensures t == "any number" <==> min == None && max == None
    ensures min != None || max != None ==> |t| >= 1 && IsDigit(t[0])
    ensures min != None && min == max ==> t == NatToString(min.value)
    ensures min != None && max != None && min != max ==>
              t == NatToString(min.value) + " to " + NatToString(max.value)
  {
    if min == None && max == None then "any number"
    else
      var lead := NatToString(if min == None then max.value else min.value);
      var t := if max == None then lead + " or more"
               else if min == None then lead + " or " + lowerWord
               else if min == max then lead
               else lead + " to " + NatToString(max.value);
      assert t[0] == lead[0] && IsDigit(t[0]);
      t
  }

  /** Reads a bound back from its English rendering, for a known `lowerWord`. */
  function ParseBoundText(t: string, lowerWord: string): Option<(Option<nat>, Option<nat>)>
  {
    if t == "any number" then Some((None, None))
    else
      var k := DigitPrefixLength(t);
      var rest := t[k..];
      if k == 0 then None
      else if rest == "" then Some((Some(DigitsValue(t[..k])), Some(DigitsValue(t[..k]))))
      else if rest == " or more" then Some((Some(DigitsValue(t[..k])), None))
      else if rest == " or " + lowerWord then Some((None, Some(DigitsValue(t[..k]))))
      else if |rest| > 4 && rest[..4] == " to " && AllDigits(rest[4..]) then
        Some((Some(DigitsValue(t[..k])), Some(DigitsValue(rest[4..]))))
      else None
  }

  lemma ReadAtLeast(n: nat, lowerWord: string)
    ensures ParseBoundText(NatToString(n) + " or more", lowerWord) == Some((Some(n), None))
  {
    BraceNumber(n, " or more");
  }

  lemma ReadAtMost(n: nat, lowerWord: string)
    requires lowerWord != "more"
    ensures ParseBoundText(NatToString(n) + (" or " + lowerWord), lowerWord) == Some((None, Some(n)))
  {
    BraceNumber(n, " or " + lowerWord);
    assert (" or " + lowerWord)[..4] == " or ";
    assert " or " + lowerWord != " or more" by {
      assert (" or " + lowerWord)[4..] == lowerWord;
      assert (" or more")[4..] == "more";
    }
  }

  lemma ReadExactly(n: nat, lowerWord: string)
    ensures ParseBoundText(NatToString(n) + "", lowerWord) == Some((Some(n), Some(n)))
  {
    BraceNumber(n, "");
  }

  lemma ReadRange(m: nat, n: nat, lowerWord: string)
    ensures ParseBoundText(NatToString(m) + (" to " + NatToString(n)), lowerWord)
            == Some((Some(m), Some(n)))
  {
    var e := NatToString(n);
    BraceNumber(m, " to " + e);
    NatToStringRoundTrip(n);
    assert (" to " + e)[..4] == " to ";
    assert (" to " + e)[4..] == e;
    assert " to " + e != " or more" by { assert (" to " + e)[1] == 't'; }
    assert " to " + e != " or " + lowerWord by { assert (" or " + lowerWord)[1] == 'o'; }
  }

  /** Every bound is recovered from its English rendering, unless the
      lower word is "more" (see TextAmbiguousForMore). */
  lemma TextRoundTrip(min: Option<nat>, max: Option<nat>, lowerWord: string)
    requires lowerWord != "more"
    ensures ParseBoundText(MinMaxToText(min, max, lowerWord), lowerWord) == Some((min, max))
  {
    var t := MinMaxToText(min, max, lowerWord);
    if min != None && max == None {
      ReadAtLeast(min.value, lowerWord);
    } else if min == None && max != None {
      assert t == NatToString(max.value) + (" or " + lowerWord);
      ReadAtMost(max.value, lowerWord);
    } else if min != None && min == max {
      assert t == NatToString(min.value) + "";
      ReadExactly(min.value, lowerWord);
    } else if min != None && max != None {
      assert t == NatToString(min.value) + (" to " + NatToString(max.value));
      ReadRange(min.value, max.value, lowerWord);
    }
  }

  /** With lower word "more", "at most 3" and "at least 3" read the same. */
  lemma TextAmbiguousForMore()
    ensures MinMaxToText(None, Some(3), "more") == MinMaxToText(Some(3), None, "more")
  {
  }
}
