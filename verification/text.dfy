/** String helpers the utilities are built from: Python's str() of a
    non-negative int, str.join, str.split with a one-character separator,
    str.rstrip(), and a filter keeping the characters that are not
    whitespace. Strings are sequences of characters; nothing here knows
    about encodings. */
module Text {

  datatype Option<+T> = None | Some(value: T)

  predicate IsDigit(c: char) {
    '0' <= c <= '9'
  }

  predicate AllDigits(s: string) {
    forall k :: 0 <= k < |s| ==> IsDigit(s[k])
  }

  /** The characters Python 2's str.rstrip() treats as whitespace. */
  predicate IsSpace(c: char) {
    c == ' ' || c == '\t' || c == '\n' || c == '\r' || c == '\U{0B}' || c == '\U{0C}'
  }

  predicate AllSpace(s: string) {
    forall k :: 0 <= k < |s| ==> IsSpace(s[k])
  }

  function DigitChar(d: nat): (c: char)
    requires d < 10
    ensures IsDigit(c) && c as int - '0' as int == d
  {
    ('0' as int + d) as char
  }

  /** Decimal rendering of a natural number, as '{}'.format(n) gives it:
      digits only, never empty, and no leading zero except for 0 itself. */
  function NatToString(n: nat): (s: string)
    ensures 1 <= |s| && AllDigits(s)
    ensures s[0] == '0' ==> n == 0 && s == "0"
  {
    if n < 10 then [DigitChar(n)] else NatToString(n / 10) + [DigitChar(n % 10)]
  }

  /** The number a string of decimal digits denotes. */
  function DigitsValue(s: string): nat
    requires AllDigits(s)
  {
    if s == [] then 0
    else 10 * DigitsValue(s[..|s| - 1]) + (s[|s| - 1] as int - '0' as int)
  }

  /** Reading the decimal rendering back gives the number. */
  lemma {:induction false} NatToStringRoundTrip(n: nat)
    ensures DigitsValue(NatToString(n)) == n
  {
    if n >= 10 {
      NatToStringRoundTrip(n / 10);
      var s := NatToString(n);
      assert s[..|s| - 1] == NatToString(n / 10);
    }
  }

  /** Length of the longest prefix of s made of digits. */
  function DigitPrefixLength(s: string): (k: nat)
    ensures k <= |s| && AllDigits(s[..k])
    ensures k < |s| ==> !IsDigit(s[k])
  {
    if s == [] || !IsDigit(s[0]) then 0
    else
      var k' := DigitPrefixLength(s[1..]);
      assert s[..1 + k'] == [s[0]] + s[1..][..k'];
      1 + k'
  }

  /** The digit prefix is the m-character prefix exactly when those m
      characters are digits and no digit follows them. */
  lemma {:induction false} DigitPrefixLengthIs(s: string, m: nat)
    requires m <= |s| && AllDigits(s[..m])
    requires m < |s| ==> !IsDigit(s[m])
    ensures DigitPrefixLength(s) == m
  {
    if m > 0 {
      assert s[0] == s[..m][0];
      assert s[1..][..m - 1] == s[1..m];
      DigitPrefixLengthIs(s[1..], m - 1);
    }
  }

  /** A rendered number followed by a non-digit is read back whole. */
  lemma DigitPrefixOfNumber(n: nat, rest: string)
    requires rest == [] || !IsDigit(rest[0])
    ensures DigitPrefixLength(NatToString(n) + rest) == |NatToString(n)|
    ensures (NatToString(n) + rest)[..|NatToString(n)|] == NatToString(n)
    ensures (NatToString(n) + rest)[|NatToString(n)|..] == rest
  {
    var d := NatToString(n);
    var s := d + rest;
    assert s[..|d|] == d;
    DigitPrefixLengthIs(s, |d|);
  }

  /** Python's sep.join(parts). */
  function Join(sep: string, parts: seq<string>): string
  {
    if |parts| == 0 then ""
    else if |parts| == 1 then parts[0]
    else parts[0] + sep + Join(sep, parts[1..])
  }

  /** Index of the first occurrence of c in s. */
  function IndexOf(s: string, c: char): (k: Option<nat>)
    ensures k == None <==> c !in s
    ensures k != None ==> k.value < |s| && s[k.value] == c && c !in s[..k.value]
  {
    if s == [] then None
    else if s[0] == c then Some(0)
    else
      var k := IndexOf(s[1..], c);
      if k == None then None
      else
        assert s[..k.value + 1] == [s[0]] + s[1..][..k.value];
        Some(k.value + 1)
  }

  /** The first occurrence is the one with no occurrence before it. */
  lemma {:induction false} IndexOfIs(s: string, c: char, m: nat)
    requires m < |s| && s[m] == c && c !in s[..m]
    ensures IndexOf(s, c) == Some(m)
  {
    if m > 0 {
      assert s[0] == s[..m][0];
      assert s[1..][..m - 1] == s[..m][1..];
      IndexOfIs(s[1..], c, m - 1);
    }
  }

  /** Python's s.split(c) for a one-character separator c: never empty,
      joining the pieces with c gives s back, and no piece contains c. */
  function Split(s: string, c: char): (parts: seq<string>)
    ensures |parts| >= 1
    ensures Join([c], parts) == s
    ensures forall k :: 0 <= k < |parts| ==> c !in parts[k]
    decreases |s|
  {
    match IndexOf(s, c)
    case None => [s]
    case Some(k) =>
      var rest := Split(s[k + 1..], c);
      assert s == s[..k] + [c] + s[k + 1..];
      [s[..k]] + rest
  }

  /** Splitting a join gives the parts back when no part holds the separator. */
  lemma {:induction false} SplitJoin(parts: seq<string>, c: char)
    requires |parts| >= 1
    requires forall k :: 0 <= k < |parts| ==> c !in parts[k]
    ensures Split(Join([c], parts), c) == parts
  {
    if |parts| == 1 {
      SplitWithout(parts[0], c);
    } else {
      SplitJoin(parts[1..], c);
      SplitAppend(parts[0], Join([c], parts[1..]), c);
      SplitWithout(parts[0], c);
      assert parts == [parts[0]] + parts[1..];
    }
  }

  /** A string without the separator splits into itself alone. */
  lemma SplitWithout(s: string, c: char)
    requires c !in s
    ensures Split(s, c) == [s]
  {
  }

  /** Splitting at the first separator occurrence k. */
  lemma SplitAtFirst(s: string, c: char, k: nat)
    requires k < |s| && s[k] == c && c !in s[..k]
    ensures Split(s, c) == [s[..k]] + Split(s[k + 1..], c)
  {
    IndexOfIs(s, c, k);
  }

  /** The first separator of a + [c] + b is the added one when a has none. */
  lemma SplitAfterPlain(a: string, b: string, c: char)
    requires c !in a
    ensures Split(a + [c] + b, c) == [a] + Split(b, c)
  {
    var s := a + [c] + b;
    assert s[..|a|] == a;
    assert s[|a| + 1..] == b;
    SplitAtFirst(s, c, |a|);
  }

  lemma ConcatAssoc<T>(x: seq<T>, y: seq<T>, z: seq<T>)
    ensures x + (y + z) == (x + y) + z
  {
  }

  /** Slicing a + [c] + b inside a. */
  lemma AppendSlices(a: string, b: string, c: char, k: nat)
    requires k < |a|
    ensures (a + [c] + b)[..k] == a[..k] && (a + [c] + b)[k + 1..] == a[k + 1..] + [c] + b
  {
  }

  /** The first separator of a + [c] + b is that of a, when a has one. */
  lemma SplitAtFirstOfLeft(a: string, b: string, c: char, k: nat)
    requires k < |a| && a[k] == c && c !in a[..k]
    ensures Split(a + [c] + b, c) == [a[..k]] + Split(a[k + 1..] + [c] + b, c)
  {
    var s := a + [c] + b;
    AppendSlices(a, b, c, k);
    assert s[k] == c;
    SplitAtFirst(s, c, k);
  }

  /** The split of a + [c] + b from that of its tail after the first
      separator of a. */
  lemma SplitAppendStep(a: string, b: string, c: char, k: nat)
    requires k < |a| && a[k] == c && c !in a[..k]
    requires Split(a[k + 1..] + [c] + b, c) == Split(a[k + 1..], c) + Split(b, c)
    ensures Split(a + [c] + b, c) == Split(a, c) + Split(b, c)
  {
    var left := Split(a[k + 1..], c);
    var right := Split(b, c);
    SplitAtFirstOfLeft(a, b, c, k);
    SplitAtFirst(a, c, k);
    ConcatAssoc([a[..k]], left, right);
  }

  /** Splitting at a separator occurrence splits each side independently. */
  lemma {:induction false} SplitAppend(a: string, b: string, c: char)
    ensures Split(a + [c] + b, c) == Split(a, c) + Split(b, c)
    decreases |a|
  {
    if c !in a {
      SplitAfterPlain(a, b, c);
      SplitWithout(a, c);
    } else {
      var k := IndexOf(a, c).value;
      SplitAppend(a[k + 1..], b, c);
      SplitAppendStep(a, b, c, k);
    }
  }

  /** Joining one more part adds the separator and the part at the end. */
  lemma {:induction false} JoinSnoc(sep: string, parts: seq<string>, x: string)
    ensures |parts| == 0 ==> Join(sep, parts + [x]) == x
    ensures |parts| >= 1 ==> Join(sep, parts + [x]) == Join(sep, parts) + sep + x
  {
    if |parts| == 1 {
      assert (parts + [x])[1..] == [x];
    } else if |parts| > 1 {
      JoinSnoc(sep, parts[1..], x);
      assert (parts + [x])[1..] == parts[1..] + [x];
    }
  }

  /** The last part of a join of several parts sits after a separator. */
  lemma {:induction false} JoinLastLength(sep: string, parts: seq<string>)
    requires |parts| >= 2
    ensures |Join(sep, parts)| >= |sep| + |parts[|parts| - 1]|
  {
    if |parts| > 2 {
      JoinLastLength(sep, parts[1..]);
    }
  }

  /** Python's s.rstrip(): the longest prefix of s that does not end in
      whitespace, with only whitespace dropped after it. */
  function RStrip(s: string): (r: string)
    ensures r <= s
    ensures forall k :: |r| <= k < |s| ==> IsSpace(s[k])
    ensures r == [] || !IsSpace(r[|r| - 1])
  {
    if s != [] && IsSpace(s[|s| - 1]) then RStrip(s[..|s| - 1]) else s
  }

  /** The characters of s that are not whitespace, in order. */
  function NonBlank(s: string): string
  {
    if s == [] then [] else (if IsSpace(s[0]) then [] else [s[0]]) + NonBlank(s[1..])
  }

  lemma {:induction false} NonBlankAppend(a: string, b: string)
    ensures NonBlank(a + b) == NonBlank(a) + NonBlank(b)
  {
    if a != [] {
      NonBlankAppend(a[1..], b);
      assert (a + b)[0] == a[0];
      assert (a + b)[1..] == a[1..] + b;
    } else {
      assert a + b == b;
    }
  }

  lemma {:induction false} NonBlankOfSpace(s: string)
    requires AllSpace(s)
    ensures NonBlank(s) == []
  {
    if s != [] {
      NonBlankOfSpace(s[1..]);
    }
  }

  /** rstrip() drops only whitespace. */
  lemma NonBlankRStrip(s: string)
    ensures NonBlank(RStrip(s)) == NonBlank(s)
  {
    var r := RStrip(s);
    assert s == r + s[|r|..];
    NonBlankAppend(r, s[|r|..]);
    NonBlankOfSpace(s[|r|..]);
  }

  /** The non-whitespace characters of all parts, in order. */
  function NonBlankAll(parts: seq<string>): string
  {
    if parts == [] then [] else NonBlank(parts[0]) + NonBlankAll(parts[1..])
  }

  /** Joining with a whitespace separator adds no visible character. */
  lemma {:induction false} NonBlankJoin(sep: string, parts: seq<string>)
    requires AllSpace(sep)
    ensures NonBlank(Join(sep, parts)) == NonBlankAll(parts)
  {
    if |parts| == 1 {
      assert parts[1..] == [];
    } else if |parts| > 1 {
      NonBlankJoin(sep, parts[1..]);
      NonBlankAppend(parts[0] + sep, Join(sep, parts[1..]));
      NonBlankAppend(parts[0], sep);
      NonBlankOfSpace(sep);
    }
  }
}
