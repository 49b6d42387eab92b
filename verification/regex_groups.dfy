/** Rewriting of regular-expression source text
    (convert_re_groups_to_noncapturing and add_label_to_pattern in
    pycallnumber/utils.py). The source does the rewrite with the
    substitution of `(?<!\\)\((?!\?)` by `(?:`; here it is a left-to-right
    scan that remembers whether the previous input character was a
    backslash, checked against a position-by-position reading of the
    pattern's lookbehind and lookahead. */
module RegexGroups {
  import opened Text

  /** Position i holds a "(" that the substitution rewrites: no backslash
      just before it and no "?" just after it, both in the input. */
  predicate OpensCapturingGroup(s: string, i: int)
    requires 0 <= i < |s|
  {
    s[i] == '(' && (i == 0 || s[i - 1] != '\\') && (i + 1 == |s| || s[i + 1] != '?')
  }

  predicate NoCapturingGroups(s: string) {
    forall i :: 0 <= i < |s| ==> !OpensCapturingGroup(s, i)
  }

  /** The scan: `afterBackslash` says whether the character before `s`
      in the input was a backslash. */
  function Scan(afterBackslash: bool, s: string): string
    decreases |s|
  {
    if s == [] then []
    else
      var rewrite := s[0] == '(' && !afterBackslash && !(|s| > 1 && s[1] == '?');
      (if rewrite then "(?:" else [s[0]]) + Scan(s[0] == '\\', s[1..])
  }

  /** What the substitution leaves at input position i. */
  function Piece(s: string, i: nat): string
    requires i < |s|
  {
    if OpensCapturingGroup(s, i) then "(?:" else [s[i]]
  }

  /** Reference reading: the output is the input with each position
      replaced by its piece, from position i on. */
  function ExpandFrom(s: string, i: nat): string
    requires i <= |s|
    decreases |s| - i
  {
    if i == |s| then [] else Piece(s, i) + ExpandFrom(s, i + 1)
  }

  /** How many positions from i on are rewritten. */
  function CountFrom(s: string, i: nat): nat
    requires i <= |s|
    decreases |s| - i
  {
    if i == |s| then 0 else (if OpensCapturingGroup(s, i) then 1 else 0) + CountFrom(s, i + 1)
  }

  lemma {:induction false} ScanIsExpand(s: string, i: nat)
    requires i <= |s|
    ensures Scan(i > 0 && s[i - 1] == '\\', s[i..]) == ExpandFrom(s, i)
    decreases |s| - i
  {
    if i < |s| {
      ScanIsExpand(s, i + 1);
      assert s[i..][1..] == s[i + 1..];
    }
  }

  lemma {:induction false} ExpandLength(s: string, i: nat)
    requires i <= |s|
    ensures |ExpandFrom(s, i)| == |s| - i + 2 * CountFrom(s, i)
    decreases |s| - i
  {
    if i < |s| {
      ExpandLength(s, i + 1);
      assert |Piece(s, i)| == if OpensCapturingGroup(s, i) then 3 else 1;
    }
  }

  lemma {:induction false} ExpandWithoutGroups(s: string, i: nat)
    requires i <= |s|
    requires forall j :: i <= j < |s| ==> !OpensCapturingGroup(s, j)
    ensures ExpandFrom(s, i) == s[i..]
    decreases |s| - i
  {
    if i < |s| {
      ExpandWithoutGroups(s, i + 1);
      assert s[i..] == [s[i]] + s[i + 1..];
    }
  }

  lemma {:induction false} CountZeroMeansNoGroups(s: string, i: nat)
    requires i <= |s|
    requires CountFrom(s, i) == 0
    ensures forall j :: i <= j < |s| ==> !OpensCapturingGroup(s, j)
    decreases |s| - i
  {
    if i < |s| {
      CountZeroMeansNoGroups(s, i + 1);
    }
  }

  /** The scan keeps the first character. */
  lemma ScanHead(b: bool, s: string)
    requires s != []
    ensures Scan(b, s) != [] && Scan(b, s)[0] == s[0]
  {
  }

  /** One step of the scan on a string given as first character and rest. */
  lemma ScanCons(b: bool, c: char, rest: string)
    ensures Scan(b, [c] + rest)
            == (if c == '(' && !b && !(rest != [] && rest[0] == '?') then "(?:" else [c])
               + Scan(c == '\\', rest)
  {
    assert ([c] + rest)[1..] == rest;
  }

  /** Scanning twice from the same state is scanning once. */
  lemma {:induction false} ScanTwice(b: bool, s: string)
    ensures Scan(b, Scan(b, s)) == Scan(b, s)
    decreases |s|
  {
    if s != [] {
      var rewrite := s[0] == '(' && !b && !(|s| > 1 && s[1] == '?');
      var x := Scan(s[0] == '\\', s[1..]);
      ScanCons(b, s[0], s[1..]);
      assert s == [s[0]] + s[1..];
      ScanTwice(s[0] == '\\', s[1..]);
      if rewrite {
        ScanCons(false, ':', x);
        ScanCons(false, '?', ":" + x);
        ScanCons(b, '(', "?:" + x);
        assert "(?:" + x == ['('] + ("?:" + x);
        assert "?:" + x == ['?'] + (":" + x);
        assert ":" + x == [':'] + x;
      } else {
        if |s| > 1 {
          ScanHead(s[0] == '\\', s[1..]);
        }
        ScanCons(b, s[0], x);
      }
    }
  }

  /** The result is the input with "?:" inserted right after every "("
      that has no backslash before it and no "?" after it; all other
      characters are kept in order, so the length grows by two per
      rewritten group. The result has no capturing group left, and the
      input comes back unchanged exactly when it had none. */
  function ConvertGroupsToNoncapturing(re: string): (r: string)
    ensures r == ExpandFrom(re, 0)
    ensures |r| == |re| + 2 * CountFrom(re, 0)
    ensures NoCapturingGroups(r)
    ensures r == re <==> NoCapturingGroups(re)
  {
    var r := Scan(false, re);
    ScanIsExpand(re, 0);
    ExpandLength(re, 0);
    FixedPoint(re);
    ScanTwice(false, re);
    FixedPoint(r);
    r
  }

  /** The scan leaves a string alone exactly when no position of it is
      rewritten. */
  lemma FixedPoint(s: string)
    ensures Scan(false, s) == s <==> NoCapturingGroups(s)
  {
    ScanIsExpand(s, 0);
    ExpandLength(s, 0);
    if Scan(false, s) == s {
      CountZeroMeansNoGroups(s, 0);
    }
    if NoCapturingGroups(s) {
      ExpandWithoutGroups(s, 0);
    }
  }

  /** Converting twice is converting once. */
  lemma ConvertIdempotent(re: string)
    ensures ConvertGroupsToNoncapturing(ConvertGroupsToNoncapturing(re))
            == ConvertGroupsToNoncapturing(re)
  {
    var r := ConvertGroupsToNoncapturing(re);
    assert NoCapturingGroups(r);
  }

  /** The lookbehind sees one character only: a group after an escaped
      backslash stays capturing. */
  lemma EscapedBackslashGroupKept()
    ensures ConvertGroupsToNoncapturing("\\\\(a)") == "\\\\(a)"
  {
    var s := "\\\\(a)";
    assert !OpensCapturingGroup(s, 2);
    assert NoCapturingGroups(s);
  }

  /** The named group `(?P<label>pattern)`. */
  function AddLabelToPattern(name: string, pattern: string): (r: string)
    ensures |r| == |name| + |pattern| + 6
    ensures r[..4] == "(?P<" && r[|r| - 1] == ')'
    ensures !OpensCapturingGroup(r, 0)
  {
    "(?P<" + name + ">" + pattern + ")"
  }

  /** Reads the label and the pattern back out of a named group. */
  function SplitLabel(r: string): Option<(string, string)>
  {
    if |r| >= 6 && r[..4] == "(?P<" && r[|r| - 1] == ')' then
      var body := r[4..|r| - 1];
      match IndexOf(body, '>')
      case None => None
      case Some(k) => Some((body[..k], body[k + 1..]))
    else None
  }

  /** A label without ">" and its pattern come back out of the named group. */
  lemma LabelRoundTrip(name: string, pattern: string)
    requires '>' !in name
    ensures SplitLabel(AddLabelToPattern(name, pattern)) == Some((name, pattern))
  {
    var r := AddLabelToPattern(name, pattern);
    var body := r[4..|r| - 1];
    assert body == name + ">" + pattern;
    assert body[..|name|] == name;
    IndexOfIs(body, '>', |name|);
    assert body[|name| + 1..] == pattern;
  }
}
