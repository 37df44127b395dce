/**
 * The join helpers of devtools/utils/StringExtras.h: join over a range of
 * strings, and join_items over a fixed list of text-like arguments.
 */
module Joiner {
  import opened CharClass

  /** The elements in order, with `sep` between consecutive ones. */
  function Joined(items: seq<Text>, sep: Text): Text {
    if |items| == 0 then []
    else if |items| == 1 then items[0]
    else items[0] + sep + Joined(items[1..], sep)
  }

  /** The sum of the element lengths. */
  function TotalLength(items: seq<Text>): nat {
    if items == [] then 0 else |items[0]| + TotalLength(items[1..])
  }

  lemma {:induction false} TotalLengthSnoc(items: seq<Text>, x: Text)
    ensures TotalLength(items + [x]) == TotalLength(items) + |x|
  {
    if items != [] {
      assert (items + [x])[1..] == items[1..] + [x];
      TotalLengthSnoc(items[1..], x);
    }
  }

  /** Empty input gives "", one element gives itself, n elements give their lengths plus n - 1 separators. */
  lemma {:induction false} JoinedLength(items: seq<Text>, sep: Text)
    ensures |items| == 0 ==> Joined(items, sep) == []
    ensures |items| == 1 ==> Joined(items, sep) == items[0]
    ensures |items| > 0 ==> |Joined(items, sep)| == TotalLength(items) + (|items| - 1) * |sep|
  {
    if |items| > 1 {
      JoinedLength(items[1..], sep);
      assert (|items| - 1) * |sep| == (|items| - 2) * |sep| + |sep|;
    }
  }

  /** Joining two non-empty runs is joining each and putting one separator between them. */
  lemma {:induction false} JoinedConcat(a: seq<Text>, b: seq<Text>, sep: Text)
    requires a != [] && b != []
    ensures Joined(a + b, sep) == Joined(a, sep) + sep + Joined(b, sep)
  {
    if |a| > 1 {
      assert (a + b)[1..] == a[1..] + b;
      JoinedConcat(a[1..], b, sep);
    }
  }

  /** join_impl, single-pass variant: first element, then separator and element for each of the rest. */
  method JoinSinglePass(items: seq<Text>, separator: Text) returns (str: Text)
    ensures str == Joined(items, separator)
  {
    str := [];
    if |items| == 0 {
      return;
    }
    str := str + items[0];
    var i := 1;
    while i != |items|
      invariant 1 <= i <= |items|
      invariant str == Joined(items[..i], separator)
    {
      JoinedConcat(items[..i], [items[i]], separator);
      assert items[..i + 1] == items[..i] + [items[i]];
      str := str + separator;
      str := str + items[i];
      i := i + 1;
    }
    assert items[..i] == items;
  }

  /**
   * The pre-size loop of the multi-pass join_impl, visiting every element:
   * the exact length of the joined string.
   */
  method PresizeLength(items: seq<Text>, separator: Text) returns (len: nat)
    requires |items| > 0
    ensures len == |Joined(items, separator)|
  {
    len := (|items| - 1) * |separator|;
    for iter := 0 to |items|
      invariant len == (|items| - 1) * |separator| + TotalLength(items[..iter])
    {
      TotalLengthSnoc(items[..iter], items[iter]);
      assert items[..iter + 1] == items[..iter] + [items[iter]];
      len := len + |items[iter]|;
    }
    assert items[..|items|] == items;
    JoinedLength(items, separator);
  }

  /** The pre-size loop as written: every step adds the size of the first element. */
  function PresizeLengthAsWritten(items: seq<Text>, separator: Text): nat
    requires |items| > 0
  {
    (|items| - 1) * |separator| + |items| * |items[0]|
  }

  /**
   * As written, the reserved size is the joined length only when every
   * element is as long as the first; ["a", "bb"] joined by "," reserves 3 of 4.
   */
  lemma {:induction false} PresizeLengthAsWrittenDiffers(items: seq<Text>, separator: Text)
    requires |items| > 0
    ensures PresizeLengthAsWritten(items, separator) == |Joined(items, separator)|
        <==> TotalLength(items) == |items| * |items[0]|
    ensures PresizeLengthAsWritten([[97], [98, 98]], [44]) == 3
    ensures |Joined([[97], [98, 98]], [44])| == 4
  {
    JoinedLength(items, separator);
    JoinedLength([[97], [98, 98]], [44]);
  }

  /**
   * join_impl, multi-pass variant: reserves a length computed in a first
   * pass and appends as the single-pass variant does. The reservation sets
   * the capacity only, so the content does not depend on the size reserved.
   */
  method JoinPresized(items: seq<Text>, separator: Text) returns (str: Text)
    ensures str == Joined(items, separator)
  {
    if |items| == 0 {
      return [];
    }
    // The size passed to str.reserve: the loop as written reads the first
    // element at every step (PresizeLengthAsWritten); this is the corrected
    // loop, whose result is the exact joined length.
    var len := PresizeLength(items, separator);
    str := JoinSinglePass(items, separator);
  }

  /**
   * join: dispatches on the iterator category; `multiPass` stands for a
   * forward (or stronger) iterator.
   */
  method Join(items: seq<Text>, separator: Text, multiPass: bool) returns (str: Text)
    ensures str == Joined(items, separator)
  {
    if multiPass {
      str := JoinPresized(items, separator);
    } else {
      str := JoinSinglePass(items, separator);
    }
  }

  // ---------------------------------------------------------------------
  // join_items

  /** An argument of join_items: a single character or a string. */
  datatype Item = CharItem(c: Byte) | TextItem(t: Text)

  /** What `result += item` appends. */
  function ItemText(item: Item): Text {
    match item
    case CharItem(c) => [c]
    case TextItem(t) => t
  }

  function Texts(args: seq<Item>): (ts: seq<Text>)
    ensures |ts| == |args| && forall i | 0 <= i < |args| :: ts[i] == ItemText(args[i])
  {
    seq(|args|, i requires 0 <= i < |args| => ItemText(args[i]))
  }

  /** join_one_item_size: a character counts one, a string its size. */
  function JoinOneItemSize(item: Item): (n: nat)
    ensures n == |ItemText(item)|
  {
    match item
    case CharItem(_) => 1
    case TextItem(t) => |t|
  }

  /** join_items_size: the sum of the item sizes. */
  function JoinItemsSize(args: seq<Item>): (n: nat)
    ensures n == TotalLength(Texts(args))
  {
    if |args| == 0 then 0
    else if |args| == 1 then JoinOneItemSize(args[0])
    else
      assert Texts(args)[1..] == Texts(args[1..]);
      JoinOneItemSize(args[0]) + JoinItemsSize(args[1..])
  }

  /**
   * join_items_impl: appends the first argument, then the separator and the
   * rest recursively; the caller's string is passed in and returned.
   */
  method JoinItemsImpl(result: Text, separator: Item, args: seq<Item>) returns (r: Text)
    ensures r == result + Joined(Texts(args), ItemText(separator))
    decreases |args|
  {
    if |args| == 0 {
      r := result;
    } else if |args| == 1 {
      r := result + ItemText(args[0]);
    } else {
      r := result + ItemText(args[0]);
      r := r + ItemText(separator);
      r := JoinItemsImpl(r, separator, args[1..]);
      assert Texts(args)[1..] == Texts(args[1..]);
    }
  }

  /**
   * join_items: the arguments in order with the separator between them; the
   * size it reserves is the exact length plus one.
   */
  method JoinItems(separator: Item, args: seq<Item>) returns (result: Text)
    ensures result == Joined(Texts(args), ItemText(separator))
    ensures |args| > 0 ==>
      |result| == JoinItemsSize(args) + (|args| - 1) * JoinOneItemSize(separator)
  {
    result := [];
    if |args| == 0 {
      return;
    }
    var ns := JoinOneItemSize(separator);
    var ni := JoinItemsSize(args);
    JoinedLength(Texts(args), ItemText(separator));
    result := JoinItemsImpl(result, separator, args);
  }

  lemma JoinExamples()
    ensures Joined([[97], [98], [99]], [45]) == [97, 45, 98, 45, 99]
    ensures Joined([], [45]) == [] && Joined([[120]], [45]) == [120]
    ensures Joined(Texts([TextItem([97]), TextItem([98, 98]), CharItem(99)]), [44])
         == [97, 44, 98, 98, 44, 99]
  {
  }
}
