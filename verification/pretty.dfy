/** Greedy word wrapping (_pretty_paragraph and pretty in
    pycallnumber/utils.py). A paragraph is cut into lines of at most
    `width` characters, breaking after a space where the next line would
    otherwise start inside a word, and breaking hard inside a word that
    has no space before it in the window. Each line is right-stripped and
    indented; lines are separated by "\n". The terminal width the source
    reads through ioctl is a parameter here. */
module Pretty {
  import opened Text

  /** Python's s[i:j] for 0 <= i <= j: both ends clamped to the length. */
  function Slice(s: string, i: nat, j: nat): (r: string)
    requires i <= j
    ensures |r| <= j - i
    ensures i < |s| ==> r == s[i..if j < |s| then j else |s|]
    ensures |s| <= i ==> r == []
  {
    if i >= |s| then [] else s[i..if j < |s| then j else |s|]
  }

  /** Where the line starting at position i ends (exclusive), as one
      pass of the wrapping loop computes it: one past a space or the end
      that directly follows the window of `width` characters; otherwise
      just after the last space in the window when a word is cut; else
      the window's end. The line never holds more than `width` characters
      once right-stripped. */
  function BreakAt(s: string, width: nat, i: nat): (next: nat)
    requires 1 <= width && i < |s|
    ensures i < next <= i + width + 1
    ensures |RStrip(Slice(s, i, next))| <= width
  {
    var next := i + width;
    if next >= |s| || s[next] == ' ' then
      WindowAndSpaceFit(s, i, next);
      next + 1
    else
      var words := Split(Slice(s, i, next), ' ');
      var last := words[|words| - 1];
      if last != "" && |words| > 1 then
        assert |Slice(s, i, next)| >= 1 + |last| by {
          JoinLastLength([' '], words);
        }
        next - |last|
      else
        next
  }

  /** A window followed by a space or by the end of the text still fits
      once right-stripped, with the space taken in. */
  lemma WindowAndSpaceFit(s: string, i: nat, next: nat)
    requires i < next && (next >= |s| || s[next] == ' ')
    ensures |RStrip(Slice(s, i, next + 1))| <= next - i
  {
    var line := Slice(s, i, next + 1);
    if next < |s| {
      assert line[|line| - 1] == ' ';
    }
  }

  /** The right-stripped line that starts at position i. */
  function LineAt(s: string, width: nat, i: nat): string
    requires 1 <= width && i < |s|
  {
    RStrip(Slice(s, i, BreakAt(s, width, i)))
  }

  /** The lines of a paragraph from position i on, before indentation;
      none is longer than the width. */
  function WrapLines(s: string, width: nat, i: nat): (lines: seq<string>)
    requires 1 <= width
    ensures forall k :: 0 <= k < |lines| ==> |lines[k]| <= width
    ensures i < |s| <==> |lines| >= 1
    decreases |s| - i
  {
    if i >= |s| then [] else [LineAt(s, width, i)] + WrapLines(s, width, BreakAt(s, width, i))
  }

  /** Every line prefixed with the indent. */
  function Indented(indent: string, lines: seq<string>): (r: seq<string>)
    ensures |r| == |lines|
    ensures forall k :: 0 <= k < |r| ==> r[k] == indent + lines[k]
  {
    seq(|lines|, k requires 0 <= k < |lines| => indent + lines[k])
  }

  /** The wrapped paragraph as one string. */
  function Paragraph(s: string, width: nat, indent: string): string
    requires 1 <= width
  {
    Join("\n", Indented(indent, WrapLines(s, width, 0)))
  }

  /** The wrapping loop, accumulating the output as the source does: a
      break goes before every line but the first. Its result is the
      indented lines joined by "\n"; for a paragraph and an indent free of
      "\n" those are exactly the output's lines, each the indent followed
      by at most `width` characters; an indent of whitespace leaves the
      visible characters exactly those of the input, in order; and a
      non-empty input that fits the width comes out as indent plus the
      right-stripped input. */
  method PrettyParagraph(s: string, width: nat, indent: string) returns (out: string)
    requires 1 <= width
    ensures out == Paragraph(s, width, indent)
    ensures s != [] && '\n' !in s && '\n' !in indent ==>
              Split(out, '\n') == Indented(indent, WrapLines(s, width, 0))
    ensures s != [] && '\n' !in s && '\n' !in indent ==> LinesFit(Split(out, '\n'), indent, width)
    ensures AllSpace(indent) ==> NonBlank(out) == NonBlank(s)
    ensures 1 <= |s| <= width ==> out == indent + RStrip(s)
  {
    out := "";
    var i: nat := 0;
    ghost var done: seq<string> := [];
    while i < |s|
      invariant Accumulated(s, width, indent, i, done, out)
      decreases |s| - i
    {
      var next := BreakAt(s, width, i);
      var line := LineAt(s, width, i);
      var lbreak := if i > 0 then "\n" else "";
      AccumulateStep(s, width, indent, i, done, out);
      out := out + lbreak + indent + line;
      done := done + [line];
      i := next;
    }
    AccumulateDone(s, width, indent, i, done, out);
    ParagraphProperties(s, width, indent);
  }

  lemma ParagraphProperties(s: string, width: nat, indent: string)
    requires 1 <= width
    ensures s != [] && '\n' !in s && '\n' !in indent ==>
              Split(Paragraph(s, width, indent), '\n') == Indented(indent, WrapLines(s, width, 0))
    ensures s != [] && '\n' !in s && '\n' !in indent ==>
              LinesFit(Split(Paragraph(s, width, indent), '\n'), indent, width)
    ensures AllSpace(indent) ==> NonBlank(Paragraph(s, width, indent)) == NonBlank(s)
    ensures 1 <= |s| <= width ==> Paragraph(s, width, indent) == indent + RStrip(s)
  {
    if s != [] && '\n' !in s && '\n' !in indent {
      ParagraphLines(s, width, indent);
    }
    if AllSpace(indent) {
      ParagraphNonBlank(s, width, indent);
    }
    if 1 <= |s| <= width {
      ParagraphFits(s, width, indent);
    }
  }

  /** The loop state after the lines `done`, which end just before
      position i, have been written to `out`. */
  predicate Accumulated(s: string, width: nat, indent: string, i: nat, done: seq<string>, out: string)
    requires 1 <= width
  {
    && done + WrapLines(s, width, i) == WrapLines(s, width, 0)
    && out == Join("\n", Indented(indent, done))
    && (i == 0 <==> done == [])
  }

  lemma AccumulateStep(s: string, width: nat, indent: string, i: nat, done: seq<string>, out: string)
    requires 1 <= width && i < |s| && Accumulated(s, width, indent, i, done, out)
    ensures Accumulated(s, width, indent, BreakAt(s, width, i), done + [LineAt(s, width, i)],
                        out + (if i > 0 then "\n" else "") + indent + LineAt(s, width, i))
  {
    var line := LineAt(s, width, i);
    var next := BreakAt(s, width, i);
    assert done + [line] + WrapLines(s, width, next) == WrapLines(s, width, 0) by {
      WrapStep(s, width, i);
      ConcatAssoc(done, [line], WrapLines(s, width, next));
    }
    assert out + (if i > 0 then "\n" else "") + indent + line
           == Join("\n", Indented(indent, done + [line])) by {
      JoinIndentedSnoc(indent, done, line);
    }
    assert next != 0 && done + [line] != [];
  }

  lemma AccumulateDone(s: string, width: nat, indent: string, i: nat, done: seq<string>, out: string)
    requires 1 <= width && |s| <= i && Accumulated(s, width, indent, i, done, out)
    ensures out == Paragraph(s, width, indent)
  {
    assert WrapLines(s, width, i) == [];
    assert done == done + WrapLines(s, width, i);
  }

  /** One more line: a break (none before the first line), then the
      indent and the line. */
  lemma JoinIndentedSnoc(indent: string, done: seq<string>, line: string)
    ensures Join("\n", Indented(indent, done + [line]))
            == Join("\n", Indented(indent, done)) + (if done == [] then "" else "\n") + indent + line
  {
    JoinSnoc("\n", Indented(indent, done), indent + line);
    assert Indented(indent, done + [line]) == Indented(indent, done) + [indent + line];
  }

  lemma WrapStep(s: string, width: nat, i: nat)
    requires 1 <= width && i < |s|
    ensures WrapLines(s, width, i) == [LineAt(s, width, i)] + WrapLines(s, width, BreakAt(s, width, i))
  {
  }

  /** A character absent from the paragraph is absent from its lines. */
  lemma {:induction false} WrapLinesAvoid(s: string, width: nat, i: nat, c: char)
    requires 1 <= width && c !in s
    ensures forall k :: 0 <= k < |WrapLines(s, width, i)| ==> c !in WrapLines(s, width, i)[k]
    decreases |s| - i
  {
    if i < |s| {
      var next := BreakAt(s, width, i);
      WrapLinesAvoid(s, width, next, c);
      var piece := Slice(s, i, next);
      assert c !in piece by {
        forall k | 0 <= k < |piece| ensures piece[k] != c {
          assert piece[k] == s[i + k];
        }
      }
      var line := RStrip(piece);
      assert c !in line by {
        forall k | 0 <= k < |line| ensures line[k] != c {
          assert line[k] == piece[k];
        }
      }
    }
  }

  /** The output's lines are the indented wrapped lines, each holding
      the indent and at most `width` characters. */
  lemma ParagraphLines(s: string, width: nat, indent: string)
    requires 1 <= width && s != [] && '\n' !in s && '\n' !in indent
    ensures Split(Paragraph(s, width, indent), '\n') == Indented(indent, WrapLines(s, width, 0))
    ensures forall line :: line in Split(Paragraph(s, width, indent), '\n') ==>
              indent <= line && |line| <= |indent| + width
  {
    var lines := WrapLines(s, width, 0);
    WrapLinesAvoid(s, width, 0, '\n');
    var parts := Indented(indent, lines);
    forall k | 0 <= k < |parts| ensures '\n' !in parts[k] {
      assert parts[k] == indent + lines[k];
    }
    SplitJoin(parts, '\n');
    forall line | line in parts ensures indent <= line && |line| <= |indent| + width {
      var k :| 0 <= k < |parts| && parts[k] == line;
      assert line == indent + lines[k];
    }
  }

  lemma {:induction false} NonBlankIndented(indent: string, lines: seq<string>)
    requires AllSpace(indent)
    ensures NonBlankAll(Indented(indent, lines)) == NonBlankAll(lines)
  {
    if lines != [] {
      NonBlankIndented(indent, lines[1..]);
      assert Indented(indent, lines)[1..] == Indented(indent, lines[1..]);
      NonBlankAppend(indent, lines[0]);
      NonBlankOfSpace(indent);
    }
  }

  lemma {:induction false} WrapLinesNonBlank(s: string, width: nat, i: nat)
    requires 1 <= width && i <= |s|
    ensures NonBlankAll(WrapLines(s, width, i)) == NonBlank(s[i..])
    decreases |s| - i
  {
    if i < |s| {
      var next := BreakAt(s, width, i);
      var line := LineAt(s, width, i);
      var rest := WrapLines(s, width, next);
      var piece := Slice(s, i, next);
      var after := if next < |s| then s[next..] else [];
      assert NonBlankAll(WrapLines(s, width, i)) == NonBlank(line) + NonBlankAll(rest) by {
        WrapStep(s, width, i);
        assert ([line] + rest)[1..] == rest;
      }
      assert NonBlank(line) == NonBlank(piece) by {
        NonBlankRStrip(piece);
      }
      assert NonBlankAll(rest) == NonBlank(after) by {
        if next < |s| {
          WrapLinesNonBlank(s, width, next);
        }
      }
      SliceThenRest(s, i, next);
    }
  }

  /** A slice followed by everything after it is the suffix from i. */
  lemma SliceThenRest(s: string, i: nat, next: nat)
    requires i < |s| && i < next
    ensures NonBlank(Slice(s, i, next)) + NonBlank(if next < |s| then s[next..] else [])
            == NonBlank(s[i..])
  {
    var piece := Slice(s, i, next);
    var after := if next < |s| then s[next..] else [];
    assert s[i..] == piece + after;
    NonBlankAppend(piece, after);
  }

  /** Wrapping loses and adds no visible character. */
  lemma ParagraphNonBlank(s: string, width: nat, indent: string)
    requires 1 <= width && AllSpace(indent)
    ensures NonBlank(Paragraph(s, width, indent)) == NonBlank(s)
  {
    NonBlankJoin("\n", Indented(indent, WrapLines(s, width, 0)));
    NonBlankIndented(indent, WrapLines(s, width, 0));
    WrapLinesNonBlank(s, width, 0);
    assert s[0..] == s;
  }

  /** A non-empty paragraph that fits the width is one right-stripped line. */
  lemma ParagraphFits(s: string, width: nat, indent: string)
    requires 1 <= width && 1 <= |s| <= width
    ensures Paragraph(s, width, indent) == indent + RStrip(s)
  {
    assert BreakAt(s, width, 0) == width + 1;
    assert Slice(s, 0, width + 1) == s;
    assert WrapLines(s, width, width + 1) == [];
  }

  /** The empty paragraph is the empty string, without the indent. */
  lemma EmptyParagraph(width: nat, indent: string)
    requires 1 <= width
    ensures Paragraph("", width, indent) == ""
  {
  }

  /** A string of n spaces (none when n is not positive), as
      ''.join(' ' for _ in range(0, n)). */
  function Spaces(n: int): (r: string)
    ensures |r| == if n > 0 then n else 0
    ensures forall k :: 0 <= k < |r| ==> r[k] == ' '
    decreases if n > 0 then n else 0
  {
    if n <= 0 then "" else [' '] + Spaces(n - 1)
  }

  /** The width left for text once the indent is taken off the maximum
      width; when nothing would be left the source uses 20 instead. */
  function AdjustedWidth(maxWidth: int, indentLength: int): (width: nat)
    ensures width >= 1
    ensures maxWidth - indentLength >= 1 ==> indentLength + width == maxWidth
    ensures maxWidth - indentLength < 1 ==> width == 20
  {
    if maxWidth - indentLength <= 0 then 20 else maxWidth - indentLength
  }

  /** str.splitlines() restricted to "\n": the pieces between breaks,
      with no empty piece after a final break. */
  function SplitLines(s: string): (blocks: seq<string>)
    ensures forall k :: 0 <= k < |blocks| ==> '\n' !in blocks[k]
    ensures s == [] ==> blocks == []
    ensures s != [] && s[|s| - 1] == '\n' ==> Join("\n", blocks) + "\n" == s
    ensures s != [] && s[|s| - 1] != '\n' ==> Join("\n", blocks) == s
  {
    if s == [] then []
    else if s[|s| - 1] == '\n' then
      assert s == s[..|s| - 1] + "\n";
      Split(s[..|s| - 1], '\n')
    else Split(s, '\n')
  }

  function Paragraphs(blocks: seq<string>, width: nat, indent: string): (r: seq<string>)
    requires 1 <= width
    ensures |r| == |blocks|
    ensures forall k :: 0 <= k < |r| ==> r[k] == Paragraph(blocks[k], width, indent)
  {
    seq(|blocks|, k requires 0 <= k < |blocks| => Paragraph(blocks[k], width, indent))
  }

  /** pretty: indent every paragraph of the text by `tabWidth` columns
      per indent level and wrap it to what is left of `maxWidth`.
      The result keeps exactly the visible characters of the text, in
      order, and every line of it is empty or the indent followed by at
      most the adjusted width of characters. */
  function Pretty(text: string, maxWidth: int, indentLevel: int, tabWidth: int): (r: string)
    ensures NonBlank(r) == NonBlank(text)
    ensures var indentLength := tabWidth * indentLevel;
            LinesFit(Split(r, '\n'), Spaces(indentLength), AdjustedWidth(maxWidth, indentLength))
  {
    var indentLength := tabWidth * indentLevel;
    var width := AdjustedWidth(maxWidth, indentLength);
    var indent := Spaces(indentLength);
    var blocks := SplitLines(text);
    var r := Join("\n", Paragraphs(blocks, width, indent));
    assert NonBlank(r) == NonBlank(text) by {
      assert AllSpace(indent);
      NonBlankJoin("\n", Paragraphs(blocks, width, indent));
      ParagraphsNonBlank(blocks, width, indent);
      NonBlankJoin("\n", blocks);
      if text != [] && text[|text| - 1] == '\n' {
        NonBlankAppend(Join("\n", blocks), "\n");
      }
    }
    assert LinesFit(Split(r, '\n'), indent, width) by {
      assert '\n' !in indent;
      ParagraphsLines(blocks, width, indent);
    }
    r
  }

  lemma {:induction false} ParagraphsNonBlank(blocks: seq<string>, width: nat, indent: string)
    requires 1 <= width && AllSpace(indent)
    ensures NonBlankAll(Paragraphs(blocks, width, indent)) == NonBlankAll(blocks)
  {
    if blocks != [] {
      ParagraphsNonBlank(blocks[1..], width, indent);
      assert Paragraphs(blocks, width, indent)[1..] == Paragraphs(blocks[1..], width, indent);
      ParagraphNonBlank(blocks[0], width, indent);
    }
  }

  /** Every line is empty or the indent followed by at most `width`
      characters. */
  predicate LinesFit(lines: seq<string>, indent: string, width: nat) {
    forall line :: line in lines ==> line == "" || (indent <= line && |line| <= |indent| + width)
  }

  /** The lines of one paragraph fit. */
  lemma ParagraphFitsLines(block: string, width: nat, indent: string)
    requires 1 <= width && '\n' !in indent && '\n' !in block
    ensures LinesFit(Split(Paragraph(block, width, indent), '\n'), indent, width)
  {
    if block != [] {
      ParagraphLines(block, width, indent);
    } else {
      assert Paragraph(block, width, indent) == "";
      assert Split("", '\n') == [""];
    }
  }

  /** Every line of a run of joined paragraphs fits. */
  lemma {:induction false} ParagraphsLines(blocks: seq<string>, width: nat, indent: string)
    requires 1 <= width && '\n' !in indent
    requires forall k :: 0 <= k < |blocks| ==> '\n' !in blocks[k]
    ensures LinesFit(Split(Join("\n", Paragraphs(blocks, width, indent)), '\n'), indent, width)
  {
    var ps := Paragraphs(blocks, width, indent);
    if |blocks| == 0 {
      assert Join("\n", ps) == "";
      assert Split("", '\n') == [""];
    } else {
      var first := ps[0];
      ParagraphFitsLines(blocks[0], width, indent);
      if |blocks| == 1 {
        assert Join("\n", ps) == first;
      } else {
        var rest := Join("\n", ps[1..]);
        ParagraphsLines(blocks[1..], width, indent);
        assert ps[1..] == Paragraphs(blocks[1..], width, indent);
        assert Join("\n", ps) == first + "\n" + rest;
        SplitAppend(first, rest, '\n');
        FitsAppend(Split(first, '\n'), Split(rest, '\n'), indent, width);
      }
    }
  }

  lemma FitsAppend(a: seq<string>, b: seq<string>, indent: string, width: nat)
    requires LinesFit(a, indent, width) && LinesFit(b, indent, width)
    ensures LinesFit(a + b, indent, width)
  {
  }

  /** Lines that fit an indent and a width are no longer than both together. */
  lemma LinesFitBound(lines: seq<string>, indent: string, width: nat, bound: int)
    requires LinesFit(lines, indent, width) && |indent| + width <= bound
    ensures forall line :: line in lines ==> |line| <= bound
  {
  }

  /** With an indent shorter than the maximum width, no line pretty
      produces is longer than that maximum. */
  lemma PrettyWithinMaxWidth(text: string, maxWidth: int, indentLevel: int, tabWidth: int)
    requires 0 <= tabWidth * indentLevel < maxWidth
    ensures forall line :: line in Split(Pretty(text, maxWidth, indentLevel, tabWidth), '\n') ==>
              |line| <= maxWidth
  {
    var indentLength := tabWidth * indentLevel;
    LinesFitBound(Split(Pretty(text, maxWidth, indentLevel, tabWidth), '\n'),
                  Spaces(indentLength), AdjustedWidth(maxWidth, indentLength), maxWidth);
  }
}
