# pycallnumber utilities in Dafny

A model of the pure helpers in `pycallnumber/utils.py`, the utility
module of a library that parses library call numbers. It covers:

- the two renderings of a repetition bound: a regular-expression
  quantifier (`min_max_to_pattern`) and English text (`min_max_to_text`);
- joining a list into prose with a serial comma (`list_to_text`);
- rewriting capturing groups of a regular expression to non-capturing
  ones (`convert_re_groups_to_noncapturing`), and wrapping a pattern in a
  named group (`add_label_to_pattern`);
- greedy word wrapping of a paragraph (`_pretty_paragraph`) and of a
  multi-paragraph text with indentation (`pretty`);
- comparison through string keys (`ComparableObjectMixin`) and the
  `Infinity` sentinel, under the Python 2 comparison rules the source
  is written for.

Every renderer is paired with a reader or a reference definition, and a
lemma connects the two for all inputs:

- each bound comes back from its quantifier, and from its text for any
  lower word but "more";
- the join-based prose equals an item-by-item serial-comma rule;
- the group rewrite equals a position-by-position reading of the
  substitution's lookbehind and lookahead, and it is idempotent;
- the wrapping loop equals a recursive line-by-line definition, and its
  lines fit the width and keep the visible characters;
- every comparison between Infinities, mixin objects and strings agrees
  with one intended order.

Files, one module each:

| file | module | models |
|---|---|---|
| `text.dfy` | `Text` | string helpers the source gets from Python: `Option`, decimal rendering of integers, `str.split` on one character, `str.join`, `str.rstrip` |
| `repetition.dfy` | `Repetition` | `min_max_to_pattern`, `min_max_to_text` |
| `prose.dfy` | `Prose` | `list_to_text` |
| `regex_groups.dfy` | `RegexGroups` | `convert_re_groups_to_noncapturing`, `add_label_to_pattern` |
| `pretty.dfy` | `Pretty` | `_pretty_paragraph`, `pretty` |
| `comparison.dfy` | `Comparison` | `ComparableObjectMixin`, `Infinity` |

Modelling choices:

- Strings are `seq<char>`. Integers are unbounded.
- The terminal width that `pretty` reads by default through `ioctl` is a
  parameter.
- A comparison operand is `Inf(sign)`, `Mixin(key)` or `Plain(text)`:
  - `Mixin(key)` is an object of another class using the mixin; its key is
    its `str`, the same whatever it is compared with.
  - `Plain(text)` is a plain string, which has no `cmp_key`.
- `NotImplemented` is an outcome of its own. When both operands decline,
  `Evaluate` applies the interpreter's fallback:
  - `==` gives false and `!=` gives true, because the operands are of
    different classes;
  - an ordering stays `NotImplemented`, meaning the interpreter's default
    ordering of unrelated types decides. That default is not modelled.
- `list_to_text` on the empty list raises `IndexError` in the source; the
  model makes a non-empty list a precondition.
- The substitution's lookbehind sees one character only. So `\\(a)`, an
  escaped backslash followed by a real group, keeps its group capturing.
  `RegexGroups.EscapedBackslashGroupKept` states this.
- `min_max_to_text` with lower word `"more"` renders "at most n" and
  "at least n" alike (`Repetition.TextAmbiguousForMore`). The text round
  trip therefore excludes that word.

## Model

| member | source | states |
|---|---|---|
| Text.NatToStringRoundTrip | pycallnumber/utils.py:74-77 | the decimal text `'{}'.format(n)` puts in a quantifier reads back as n |
| Text.Split | pycallnumber/utils.py:150 | `str.split` on one character: at least one piece, joining the pieces with the separator gives the input back, and no piece contains the separator |
| Text.SplitJoin | pycallnumber/utils.py:150 | splitting a join of pieces free of the separator gives the pieces back |
| Text.RStrip | pycallnumber/utils.py:156 | `rstrip()` gives a prefix of the input with only whitespace cut off and no whitespace left at its end |
| Repetition.MinMaxToPattern | pycallnumber/utils.py:64-77 | the suffix is one character or empty exactly for (0,∞), (0,1), (1,∞) and (1,1); it is empty exactly for (1,1); every longer suffix is in braces, and an exact count other than one is its number alone in braces |
| Repetition.PatternRoundTrip | pycallnumber/utils.py:64-77 | read as a regular-expression quantifier, the suffix means exactly the bound it was made from, so distinct bounds never share a suffix |
| Repetition.MinMaxToText | pycallnumber/utils.py:80-89 | the text is "any number" exactly when both ends are absent and otherwise starts with a digit; an exact count is its number alone, and a range of two different numbers is "m to n" |
| Repetition.TextRoundTrip | pycallnumber/utils.py:80-89 | for any lower word other than "more", the bound is read back from its text: "n or more", "n or <word>", "n", "m to n" |
| Repetition.TextAmbiguousForMore | pycallnumber/utils.py:83-86 | with lower word "more", "at most 3" and "at least 3" render the same text |
| Prose.ListToText | pycallnumber/utils.py:92-97 | the text of a non-empty list starts with its first item and ends with its last; one item is the text alone; with two or more items the text is longer than the first and last items together |
| Prose.ListToTextIsSerial | pycallnumber/utils.py:92-97 | the join-based text equals the item-by-item rule: one item alone, "a or b" for two, "a, b, or c" with a comma after every item but the last for three or more |
| RegexGroups.ConvertGroupsToNoncapturing | pycallnumber/utils.py:100-108 | every "(" with no backslash before it and no "?" after it gets "?:" inserted after it; nothing else changes; the length grows by two per such group; none is left; the input comes back unchanged exactly when it had none |
| RegexGroups.ConvertIdempotent | pycallnumber/utils.py:108 | converting twice is converting once |
| RegexGroups.EscapedBackslashGroupKept | pycallnumber/utils.py:108 | a group after an escaped backslash, as in `\\(a)`, is left capturing because the lookbehind sees one character |
| RegexGroups.AddLabelToPattern | pycallnumber/utils.py:111-112 | the named group is six characters longer than label and pattern together, opens with "(?P<" and closes with ")", and is not itself a capturing group to a later rewrite |
| RegexGroups.LabelRoundTrip | pycallnumber/utils.py:111-112 | a label without ">" and its pattern are read back out of the named group |
| Pretty.BreakAt | pycallnumber/utils.py:149-155 | each pass of the wrapping loop advances by at least one and at most width+1 characters, and the right-stripped line it cuts is at most width long |
| Pretty.WrapLines | pycallnumber/utils.py:147-160 | the loop's lines, none longer than the width; there is at least one line exactly when text remains |
| Pretty.PrettyParagraph | pycallnumber/utils.py:146-160 | the loop builds the indented lines joined by "\n" with no leading break; for a paragraph and indent free of "\n" those are exactly the output's lines, each the indent plus at most width characters; a whitespace indent keeps exactly the input's visible characters in order; an input that fits comes out as indent plus the right-stripped input |
| Pretty.EmptyParagraph | pycallnumber/utils.py:147-160 | an empty paragraph gives the empty string, with no indent |
| Pretty.AdjustedWidth | pycallnumber/utils.py:168-170 | the width left after the indent is always at least one: the maximum minus the indent when positive, otherwise 20 |
| Pretty.Spaces | pycallnumber/utils.py:167 | the indent is exactly n spaces for positive n and empty otherwise |
| Pretty.SplitLines | pycallnumber/utils.py:171 | the blocks hold no "\n" and join back with "\n" into the text, less one final "\n"; the empty text has no blocks |
| Pretty.Pretty | pycallnumber/utils.py:163-173 | `pretty` keeps exactly the visible characters of its input, in order, and every output line is empty or the indent followed by at most the adjusted width of characters |
| Pretty.PrettyWithinMaxWidth | pycallnumber/utils.py:163-173 | when the indent is shorter than the maximum width, no output line is longer than that maximum |
| Comparison.Repr | pycallnumber/utils.py:214-215 | `__repr__` is fourteen characters in angle brackets whose second character tells the sign; `Comparison.ReprOrder` shows the negative one sorts first |
| Comparison.Negate | pycallnumber/utils.py:217-220 | negation gives an Infinity of the other sign |
| Comparison.NegateReverses | pycallnumber/utils.py:217-220 | negating twice restores the sign, and negating both sides of a comparison of Infinities reverses it |
| Comparison.CmpKey | pycallnumber/utils.py:225-241 | the mixin's key is its string; between Infinities the key is the repr; against anything else a positive Infinity's key is the partner's string plus a space and a negative one's is None |
| Comparison.GetOther | pycallnumber/utils.py:222-223 | the partner's key, its string when the partner is not an Infinity; it fails (AttributeError) exactly when the partner has no `cmp_key` and the asker is not an Infinity, whose version falls back to `str` |
| Comparison.Compare | pycallnumber/utils.py:178-182 | `_compare` gives NotImplemented exactly for a mixin object against a plain string, and a decided answer otherwise |
| Comparison.CompareConsistent | pycallnumber/utils.py:178-185 | for operands that both have `cmp_key`, asking either side with the matching operator gives the same answer |
| Comparison.Evaluate | pycallnumber/utils.py:187-203 | the six operators under Python 2's dispatch (`Ask` on the left operand, then on the right one with the reflected operator, then `Fallback`): an Infinity on either side always decides, and the outcome is left to the interpreter's default ordering exactly for `<`, `<=`, `>`, `>=` between a mixin object and a plain string |
| Comparison.EvaluateIsIntended | pycallnumber/utils.py:187-203 | all six operators agree with one order: Infinities by sign, a positive Infinity above and a negative one below anything else, mixin objects among themselves and strings among themselves by their text; a mixin object and a string are unordered and get the interpreter's fallback |
| Comparison.EvaluateSymmetric | pycallnumber/utils.py:187-203 | `a op b` and `b op' a` agree, with op' the reflected operator |
| Comparison.PositiveInfinityAbove | pycallnumber/utils.py:238-240 | a fresh Infinity (`NewInfinity`: `__init__` at pycallnumber/utils.py:211-212 sets the positive sign by default) is greater than, and not equal to, any string or other object, from either side |
| Comparison.NegativeInfinityBelow | pycallnumber/utils.py:241 | a negative Infinity is less than any string, the empty one included, and any other object |
| Comparison.InfinitiesBySign | pycallnumber/utils.py:236-237 | two Infinities are equal exactly when their signs are, and the positive one is the greater, because "<pos infinity>" sorts after "<neg infinity>" |
| Comparison.MixinAndStringUnordered | pycallnumber/utils.py:178-185 | a mixin object and a plain string decline each other without failing, whatever their texts |

## Left out

- `memoize` (pycallnumber/utils.py:14-61): it caches by introspected arguments and adds a mutable attribute to objects. That is runtime reflection, not string logic.
- `load_class` (pycallnumber/utils.py:115-118): dynamic import by name.
- `create_unit` (pycallnumber/utils.py:121-132): it calls unit classes and an exception type that are not part of this model.
- `get_terminal_size` (pycallnumber/utils.py:135-143): terminal I/O through `ioctl`. `pretty` takes the width as a parameter instead.
- `str(in_data)` in `pretty`: the input is a string already.
- `str.splitlines` also breaks lines at "\r" and "\r\n"; the model splits on "\n" only.
- Unicode input: the source's strings are Python 2 byte strings, so `rstrip` strips the six ASCII whitespace characters, which is what `Text.IsSpace` lists.
- The `re` engine: the substitution is modelled as a character scan that reads the lookbehind and lookahead directly.
- `cmp_key` results that are not strings, such as tuples from other classes: a mixin object's key is a string here.
- A mixin class whose key depends on the partner: `Mixin(key)` has one fixed key.
- Python 2's default ordering of unrelated types, which decides `<`, `<=`, `>`, `>=` between a mixin object and a plain string: `Evaluate` leaves those outcomes as `NotImplemented`.
- Python 2's rule that asks a right operand of a subclass type first: `Comparison.CompareConsistent` shows the order of asking does not change the answer.
- `__neg__` leaves its operand unchanged: values are immutable in the model, so this holds trivially.
- Repetition.MinMaxToPattern: the minimum is a non-negative integer. With `None` as the minimum, Python 2 would render odd text such as "{None}".
- Pretty.PrettyParagraph: the width must be at least one. With width 0 the source's loop never advances past a character other than a space, and `pretty` never passes less than one.
