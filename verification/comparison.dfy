/** Rich comparison through string keys (ComparableObjectMixin and
    Infinity in pycallnumber/utils.py), under the Python 2 rules the
    source is written for.

    A value is an Infinity, an object of some other class using the
    mixin (its key is its string form, the same whatever it is compared
    with), or a plain string, which has no cmp_key at all. An operator
    first asks the left operand; if that gives NotImplemented it asks the
    right operand with the reflected operator; if that fails too, `==`
    is false, `!=` is true, and an ordering is left to the interpreter's
    default ordering of unrelated types, which is outside this model. */
module Comparison {
  import opened Text

  datatype Sign = Pos | Neg

  datatype Value = Inf(sign: Sign) | Mixin(key: string) | Plain(text: string)

  datatype Op = Eq | Ne | Gt | Ge | Lt | Le

  /** A comparison key: a string, or None. */
  datatype Key = NoneKey | StrKey(s: string)

  /** What a comparison method returns. */
  datatype Outcome = Decided(b: bool) | NotImplemented

  datatype Ordering = Less | Same | Greater

  /** `Infinity()`: a new Infinity is positive. */
  const NewInfinity: Value := Inf(Pos)

  /** The text of `<pos infinity>` and `<neg infinity>`, which is also an
      Infinity's str since the class defines no __str__. */
  function Repr(sign: Sign): (r: string)
    ensures |r| == 14 && r[0] == '<' && r[|r| - 1] == '>'
    ensures sign == Pos <==> r[1] == 'p'
  {
    "<" + (if sign == Pos then "pos" else "neg") + " infinity>"
  }

  /** `-x` on an Infinity: a new Infinity of the other sign. */
  function Negate(x: Value): (r: Value)
    requires x.Inf?
    ensures r.Inf? && r.sign != x.sign
  {
    Inf(if x.sign == Pos then Neg else Pos)
  }

  /** The reflected operator: `a < b` is asked of b as `b > a`. */
  function Swap(op: Op): Op {
    match op
    case Eq => Eq
    case Ne => Ne
    case Gt => Lt
    case Ge => Le
    case Lt => Gt
    case Le => Ge
  }

  function Reverse(o: Ordering): Ordering {
    match o
    case Less => Greater
    case Same => Same
    case Greater => Less
  }

  // ---------------------------------------------------------------
  // Python 2 string order

  /** Python's `a < b` on strings: lexicographic by character, a proper
      prefix coming first. */
  function StrLess(a: string, b: string): bool {
    if a == [] then b != []
    else if b == [] then false
    else if a[0] != b[0] then a[0] < b[0]
    else StrLess(a[1..], b[1..])
  }

  /** Three-way string comparison, the reference order for keys. */
  function StrOrder(a: string, b: string): Ordering {
    if a == [] && b == [] then Same
    else if a == [] then Less
    else if b == [] then Greater
    else if a[0] < b[0] then Less
    else if b[0] < a[0] then Greater
    else StrOrder(a[1..], b[1..])
  }

  /** `<` on strings agrees with the three-way order, which is Same only
      for equal strings and flips when the sides are swapped. */
  lemma {:induction false} StrOrderIsStrLess(a: string, b: string)
    ensures StrLess(a, b) <==> StrOrder(a, b) == Less
    ensures StrOrder(a, b) == Same <==> a == b
    ensures StrOrder(b, a) == Reverse(StrOrder(a, b))
  {
    if a != [] && b != [] {
      StrOrderIsStrLess(a[1..], b[1..]);
      if a[0] == b[0] && a[1..] == b[1..] {
        assert a == [a[0]] + a[1..] && b == [b[0]] + b[1..];
      }
    }
  }

  /** A string sorts before itself followed by anything more. */
  lemma {:induction false} StrLessExtension(a: string, tail: string)
    requires tail != []
    ensures StrLess(a, a + tail)
  {
    if a != [] {
      assert (a + tail)[1..] == a[1..] + tail;
      StrLessExtension(a[1..], tail);
    }
  }

  // ---------------------------------------------------------------
  // Keys under Python 2's operators

  /** Python 2's `k1 < k2` on keys: None is below every string. */
  function KeyLess(k1: Key, k2: Key): bool {
    match (k1, k2)
    case (NoneKey, StrKey(_)) => true
    case (StrKey(a), StrKey(b)) => StrLess(a, b)
    case _ => false
  }

  /** The `compare` lambda each operator passes to _compare. */
  function ApplyOp(op: Op, k1: Key, k2: Key): bool {
    match op
    case Eq => k1 == k2
    case Ne => k1 != k2
    case Gt => KeyLess(k2, k1)
    case Ge => KeyLess(k2, k1) || k1 == k2
    case Lt => KeyLess(k1, k2)
    case Le => KeyLess(k1, k2) || k1 == k2
  }

  /** Whether an operator holds between two values in a given order. */
  function Holds(op: Op, o: Ordering): bool {
    match op
    case Eq => o == Same
    case Ne => o != Same
    case Gt => o == Greater
    case Ge => o != Less
    case Lt => o == Less
    case Le => o != Greater
  }

  /** Three-way order of keys. */
  function KeyOrder(k1: Key, k2: Key): Ordering {
    match (k1, k2)
    case (NoneKey, NoneKey) => Same
    case (NoneKey, _) => Less
    case (_, NoneKey) => Greater
    case (StrKey(a), StrKey(b)) => StrOrder(a, b)
  }

  /** Each operator on keys holds exactly when it holds of their order. */
  lemma ApplyOpIsHolds(op: Op, k1: Key, k2: Key)
    ensures ApplyOp(op, k1, k2) == Holds(op, KeyOrder(k1, k2))
  {
    if k1.StrKey? && k2.StrKey? {
      StrOrderIsStrLess(k1.s, k2.s);
      StrOrderIsStrLess(k2.s, k1.s);
    }
  }

  /** The reflected operator on the reversed order is the same question. */
  lemma HoldsSwap(op: Op, o: Ordering)
    ensures Holds(Swap(op), Reverse(o)) == Holds(op, o)
  {
  }

  // ---------------------------------------------------------------
  // The methods of the two classes

  /** str() of a value that is not an Infinity. */
  function Str(x: Value): string
    requires !x.Inf?
  {
    if x.Mixin? then x.key else x.text
  }

  /** '{}'.format(k). */
  function Format(k: Key): string {
    match k
    case NoneKey => "None"
    case StrKey(s) => s
  }

  /** How many more cmp_key / _get_other calls a call makes; bounds the
      mutual recursion below. */
  function CmpKeyDepth(self: Value, other: Value): nat {
    if self.Inf? && !other.Inf? then 2 else 0
  }

  function GetOtherDepth(self: Value, other: Value): nat {
    if other.Plain? then 0 else CmpKeyDepth(other, self) + 1
  }

  /** `self.cmp_key(other, op)`. The mixin's key is str(self). An
      Infinity compared with an Infinity also uses its str; otherwise a
      positive one takes the other side's key with a space appended, and
      a negative one uses None. */
  function CmpKey(self: Value, other: Value): (k: Key)
    requires !self.Plain?
    ensures self.Mixin? ==> k == StrKey(self.key)
    ensures self.Inf? && other.Inf? ==> k == StrKey(Repr(self.sign))
    ensures self == Inf(Pos) && !other.Inf? ==> k == StrKey(Str(other) + " ")
    ensures self == Inf(Neg) && !other.Inf? ==> k == NoneKey
    decreases CmpKeyDepth(self, other), 1
  {
    if self.Mixin? then StrKey(self.key)
    else if other.Inf? then StrKey(Repr(self.sign))
    else if self.sign == Pos then
      var okey := GetOther(self, other);
      StrKey(Format(okey.value) + " ")
    else NoneKey
  }

  /** `self._get_other(other, op)`: the other side's cmp_key with self
      as its partner. None stands for the AttributeError of the mixin's
      version on a value without cmp_key; Infinity's version falls back
      to str(other) there. */
  function GetOther(self: Value, other: Value): (k: Option<Key>)
    requires !self.Plain?
    ensures k == None <==> other.Plain? && !self.Inf?
    ensures k != None && !other.Inf? ==> k.value == StrKey(Str(other))
    decreases GetOtherDepth(self, other), 0
  {
    if other.Plain? then (if self.Inf? then Some(StrKey(other.text)) else None)
    else Some(CmpKey(other, self))
  }

  /** `self._compare(other, op, compare)`: both keys compared with the
      operator's lambda, NotImplemented when a key cannot be had. */
  function Compare(self: Value, other: Value, op: Op): (r: Outcome)
    requires !self.Plain?
    ensures r == NotImplemented <==> other.Plain? && self.Mixin?
  {
    var mine := CmpKey(self, other);
    match GetOther(self, other)
    case None => NotImplemented
    case Some(theirs) => Decided(ApplyOp(op, mine, theirs))
  }

  /** The method the interpreter calls on value x for operator op. */
  function Ask(x: Value, op: Op, y: Value): Outcome {
    if x.Plain? then
      (if y.Plain? then Decided(ApplyOp(op, StrKey(x.text), StrKey(y.text))) else NotImplemented)
    else Compare(x, y, op)
  }

  /** What the interpreter makes of `a op b` when neither side decides:
      identity for `==` and `!=` (the sides are of different classes),
      its default ordering otherwise. */
  function Fallback(op: Op): Outcome {
    if op == Eq then Decided(false)
    else if op == Ne then Decided(true)
    else NotImplemented
  }

  /** `a op b` in Python 2: the left operand first, then the right one
      with the reflected operator, then the fallback. An Infinity on
      either side always decides; only a mixin object against a plain
      string leaves an ordering to the interpreter's default. */
  function Evaluate(a: Value, op: Op, b: Value): (r: Outcome)
    ensures a.Inf? || b.Inf? ==> r.Decided?
    ensures r == NotImplemented <==>
              op != Eq && op != Ne && ((a.Mixin? && b.Plain?) || (a.Plain? && b.Mixin?))
  {
    var first := Ask(a, op, b);
    if first.Decided? then first
    else
      var second := Ask(b, Swap(op), a);
      if second.Decided? then second else Fallback(op)
  }

  // ---------------------------------------------------------------
  // The intended order and the theorem connecting it to Evaluate

  /** The intended order: Infinities by sign; a positive Infinity above,
      and a negative one below, anything else, as the docstring of
      `Infinity.cmp_key` describes; mixin objects among themselves, and
      strings among themselves, by their strings; a mixin object and a
      plain string unordered. */
  function Intended(a: Value, b: Value): Option<Ordering> {
    match (a, b)
    case (Inf(s), Inf(t)) => Some(if s == t then Same else if s == Pos then Greater else Less)
    case (Inf(s), _) => Some(if s == Pos then Greater else Less)
    case (_, Inf(t)) => Some(if t == Pos then Less else Greater)
    case (Mixin(x), Mixin(y)) => Some(StrOrder(x, y))
    case (Plain(x), Plain(y)) => Some(StrOrder(x, y))
    case _ => None
  }

  /** The two Infinity texts sort by sign. */
  lemma ReprOrder()
    ensures StrOrder(Repr(Neg), Repr(Pos)) == Less
  {
    assert Repr(Neg)[1..] == "neg infinity>";
    assert Repr(Pos)[1..] == "pos infinity>";
  }

  /** Infinity keys between two Infinities have the intended order. */
  lemma InfKeysOrder(s: Sign, t: Sign)
    ensures KeyOrder(StrKey(Repr(s)), StrKey(Repr(t)))
            == (if s == t then Same else if s == Pos then Greater else Less)
  {
    ReprOrder();
    StrOrderIsStrLess(Repr(Neg), Repr(Pos));
    StrOrderIsStrLess(Repr(s), Repr(s));
  }

  /** A key with a space appended sorts just above the key. */
  lemma PaddedKeyAbove(k: string)
    ensures KeyOrder(StrKey(k + " "), StrKey(k)) == Greater
  {
    StrLessExtension(k, " ");
    StrOrderIsStrLess(k, k + " ");
  }

  /** A value that is not plain, asked first, decides exactly as its
      intended order says, whenever that order exists. */
  lemma CompareIsIntended(a: Value, b: Value, op: Op)
    requires !a.Plain? && Intended(a, b) != None
    ensures Compare(a, b, op) == Decided(Holds(op, Intended(a, b).value))
  {
    var mine := CmpKey(a, b);
    var theirs := GetOther(a, b).value;
    ApplyOpIsHolds(op, mine, theirs);
    if a.Inf? && b.Inf? {
      InfKeysOrder(a.sign, b.sign);
    } else if a == Inf(Pos) {
      PaddedKeyAbove(Str(b));
    } else if b == Inf(Pos) {
      assert theirs == StrKey(a.key + " ");
      PaddedKeyAbove(a.key);
      StrOrderIsStrLess(a.key + " ", a.key);
    }
  }

  /** Every comparison the source's classes take part in comes out as the
      intended order says; where no order is intended (a mixin object
      against a plain string) both sides decline and the interpreter's
      fallback applies. */
  lemma EvaluateIsIntended(a: Value, op: Op, b: Value)
    ensures Intended(a, b) != None ==> Evaluate(a, op, b) == Decided(Holds(op, Intended(a, b).value))
    ensures Intended(a, b) == None ==> Evaluate(a, op, b) == Fallback(op)
  {
    if Intended(a, b) != None {
      if a.Plain? && b.Plain? {
        ApplyOpIsHolds(op, StrKey(a.text), StrKey(b.text));
      } else if a.Plain? {
        IntendedFlips(a, b);
        CompareIsIntended(b, a, Swap(op));
        HoldsSwap(op, Intended(a, b).value);
      } else {
        CompareIsIntended(a, b, op);
      }
    }
  }

  /** Swapping the operands reverses the intended order. */
  lemma IntendedFlips(a: Value, b: Value)
    ensures Intended(b, a) == (if Intended(a, b) == None then None else Some(Reverse(Intended(a, b).value)))
  {
    match (a, b)
    case (Mixin(x), Mixin(y)) => StrOrderIsStrLess(x, y);
    case (Plain(x), Plain(y)) => StrOrderIsStrLess(x, y);
    case _ =>
  }

  /** `a op b` and `b op' a`, with op' the reflected operator, always
      agree. */
  lemma EvaluateSymmetric(a: Value, op: Op, b: Value)
    ensures Evaluate(a, op, b) == Evaluate(b, Swap(op), a)
  {
    EvaluateIsIntended(a, op, b);
    EvaluateIsIntended(b, Swap(op), a);
    IntendedFlips(a, b);
    if Intended(a, b) != None {
      HoldsSwap(op, Intended(a, b).value);
    }
  }

  /** Whichever side is asked, the answer is the same: when both sides
      can decide, they decide alike. */
  lemma CompareConsistent(a: Value, b: Value, op: Op)
    requires !a.Plain? && !b.Plain?
    ensures Compare(a, b, op) == Compare(b, a, Swap(op))
  {
    IntendedFlips(a, b);
    CompareIsIntended(a, b, op);
    CompareIsIntended(b, a, Swap(op));
    HoldsSwap(op, Intended(a, b).value);
  }

  /** A positive Infinity is greater than any string and any other
      object, and equal to none of them. */
  lemma PositiveInfinityAbove(x: Value)
    requires !x.Inf?
    ensures Evaluate(NewInfinity, Gt, x) == Decided(true)
    ensures Evaluate(x, Lt, NewInfinity) == Decided(true)
    ensures Evaluate(x, Ge, NewInfinity) == Decided(false)
    ensures Evaluate(NewInfinity, Eq, x) == Decided(false)
  {
    EvaluateIsIntended(NewInfinity, Gt, x);
    EvaluateIsIntended(x, Lt, NewInfinity);
    EvaluateIsIntended(x, Ge, NewInfinity);
    EvaluateIsIntended(NewInfinity, Eq, x);
  }

  /** A negative Infinity is less than any string, the empty one
      included, and than any other object. */
  lemma NegativeInfinityBelow(x: Value)
    requires !x.Inf?
    ensures Evaluate(Negate(NewInfinity), Lt, x) == Decided(true)
    ensures Evaluate(x, Gt, Negate(NewInfinity)) == Decided(true)
    ensures Evaluate(Negate(NewInfinity), Ge, x) == Decided(false)
    ensures Evaluate(Negate(NewInfinity), Eq, x) == Decided(false)
  {
    EvaluateIsIntended(Inf(Neg), Lt, x);
    EvaluateIsIntended(x, Gt, Inf(Neg));
    EvaluateIsIntended(Inf(Neg), Ge, x);
    EvaluateIsIntended(Inf(Neg), Eq, x);
  }

  /** Two Infinities are equal exactly when their signs are, and the
      positive one is the greater. */
  lemma InfinitiesBySign(s: Sign, t: Sign)
    ensures Evaluate(Inf(s), Eq, Inf(t)) == Decided(s == t)
    ensures Evaluate(Inf(s), Gt, Inf(t)) == Decided(s == Pos && t == Neg)
  {
    EvaluateIsIntended(Inf(s), Eq, Inf(t));
    EvaluateIsIntended(Inf(s), Gt, Inf(t));
  }

  /** Negating both sides of a comparison of Infinities reverses it, and
      negating twice gives the original sign back. */
  lemma NegateReverses(a: Value, op: Op, b: Value)
    requires a.Inf? && b.Inf?
    ensures Negate(Negate(a)) == a
    ensures Evaluate(Negate(a), op, Negate(b)) == Evaluate(a, Swap(op), b)
  {
    EvaluateIsIntended(Negate(a), op, Negate(b));
    EvaluateIsIntended(a, Swap(op), b);
    HoldsSwap(op, Intended(Negate(a), Negate(b)).value);
  }

  /** A mixin object and a plain string decline each other: neither
      `_compare` decides, whatever their texts. */
  lemma MixinAndStringUnordered(k: string, t: string, op: Op)
    ensures Compare(Mixin(k), Plain(t), op) == NotImplemented
    ensures Evaluate(Mixin(k), op, Plain(t)) == Fallback(op)
    ensures Evaluate(Plain(t), op, Mixin(k)) == Fallback(op)
  {
  }
}
