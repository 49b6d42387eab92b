/** Joining a list of phrases into English prose with a serial ("Oxford")
    comma: "a", "a or b", "a, b, or c" (list_to_text in
    pycallnumber/utils.py). */
module Prose {
  import opened Text

  /** The prose form of a non-empty list; an empty list has no last item,
      which the source reports by raising IndexError. */
  function ListToText(items: seq<string>, conjunction: string): (r: string)
    requires |items| >= 1
    ensures items[0] <= r
    ensures |items| == 1 ==> r == items[0]
    ensures |items[|items| - 1]| <= |r| && r[|r| - |items[|items| - 1]|..] == items[|items| - 1]
    ensures |items| >= 2 ==> |r| > |items[0]| + |items[|items| - 1]|
  {
    if |items| == 1 then items[0]
    else if |items| == 2 then items[0] + (" " + conjunction + " " + items[1])
    else
      var head := Join(", ", items[..|items| - 1]);
      assert head == items[0] + ", " + Join(", ", items[1..|items| - 1]);
      head + LastClause(conjunction, items[|items| - 1])
  }

  /** ", or z": what follows the comma-separated items when there are
      three or more. */
  function LastClause(conjunction: string, last: string): string {
    ", " + conjunction + " " + last
  }

  /** Reference reading of the serial-comma rule, item by item from the
      front: each item but the last is followed by ", ", and the last
      one is introduced by the conjunction; a pair takes no comma. */
  function Serial(items: seq<string>, conjunction: string): string
    requires |items| >= 1
  {
    if |items| == 1 then items[0]
    else if |items| == 2 then items[0] + (" " + conjunction + " " + items[1])
    else items[0] + (", " + SerialTail(items[1..], conjunction))
  }

  /** The part of a list of three or more items after its first comma. */
  function SerialTail(items: seq<string>, conjunction: string): string
    requires |items| >= 2
  {
    if |items| == 2 then items[0] + LastClause(conjunction, items[1])
    else items[0] + (", " + SerialTail(items[1..], conjunction))
  }

  lemma {:induction false} SerialTailIsJoin(items: seq<string>, conjunction: string)
    requires |items| >= 2
    ensures SerialTail(items, conjunction)
            == Join(", ", items[..|items| - 1]) + LastClause(conjunction, items[|items| - 1])
  {
    if |items| > 2 {
      var n := |items|;
      var rest := Join(", ", items[1..n - 1]);
      var clause := LastClause(conjunction, items[n - 1]);
      SerialTailIsJoin(items[1..], conjunction);
      assert items[1..][..n - 2] == items[1..n - 1];
      assert Join(", ", items[..n - 1]) == items[0] + ", " + rest by {
        assert items[..n - 1][1..] == items[1..n - 1];
      }
      Assoc4(items[0], ", ", rest, clause);
    }
  }

  /** x + (y + (z + w)) regrouped from the left. */
  lemma Assoc4(x: string, y: string, z: string, w: string)
    ensures x + (y + (z + w)) == x + y + z + w
  {
  }

  /** The source's join-based text agrees with the item-by-item rule for
      every non-empty list. */
  lemma {:induction false} ListToTextIsSerial(items: seq<string>, conjunction: string)
    requires |items| >= 1
    ensures ListToText(items, conjunction) == Serial(items, conjunction)
  {
    var n := |items|;
    if n >= 3 {
      var middle := Join(", ", items[1..n - 1]);
      var clause := LastClause(conjunction, items[n - 1]);
      assert Join(", ", items[..n - 1]) == items[0] + ", " + middle by {
        assert items[..n - 1][1..] == items[1..n - 1];
      }
      assert SerialTail(items[1..], conjunction) == middle + clause by {
        SerialTailIsJoin(items[1..], conjunction);
        assert items[1..][..n - 2] == items[1..n - 1];
      }
      Assoc4(items[0], ", ", middle, clause);
    }
  }
}
