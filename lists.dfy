/** The accumulation loop shared by every language's `formatList`
    (src/Locale/en.php:40-54 and its copies in fr.php, ru.php and ja.php):
    the first item as it is, every middle item after `sep`, the last item
    after `lastSep`. */
module Lists {

  /** `items` joined left to right with `sep` between neighbours. */
  function JoinAll(items: seq<string>, sep: string): string
    requires |items| >= 1
  {
    if |items| == 1 then items[0]
    else JoinAll(items[..|items| - 1], sep) + sep + items[|items| - 1]
  }

  /** The list text for two or more items: the last item is introduced by
      `lastSep`, every other one after the first by `sep`; two items are
      joined by `lastSep` alone. */
  function ListText(items: seq<string>, sep: string, lastSep: string): (r: string)
    requires |items| >= 2
    ensures r == Interleave(items[..|items| - 1], sep) + lastSep + items[|items| - 1]
    ensures |items| == 2 ==> r == items[0] + lastSep + items[1]
  {
    JoinAllIsInterleave(items[..|items| - 1], sep);
    JoinAll(items[..|items| - 1], sep) + lastSep + items[|items| - 1]
  }

  /** An independent, right-recursive reading of the same join. */
  function Interleave(items: seq<string>, sep: string): string
    requires |items| >= 1
  {
    if |items| == 1 then items[0] else items[0] + sep + Interleave(items[1..], sep)
  }

  /** A character found neither in the items nor in the separator is not in
      their join. */
  lemma {:induction false} InterleaveAvoids(items: seq<string>, sep: string, c: char)
    requires |items| >= 1 && c !in sep
    requires forall i :: 0 <= i < |items| ==> c !in items[i]
    ensures c !in Interleave(items, sep)
    decreases |items|
  {
    if |items| > 1 {
      InterleaveAvoids(items[1..], sep, c);
    }
  }

  /** Building the list from the left, as the loop does, and from the right
      give the same text. */
  lemma {:induction false} JoinAllIsInterleave(items: seq<string>, sep: string)
    requires |items| >= 1
    ensures JoinAll(items, sep) == Interleave(items, sep)
    decreases |items|
  {
    if |items| > 2 {
      var n := |items|;
      JoinAllIsInterleave(items[..n - 1], sep);
      JoinAllIsInterleave(items[1..], sep);
      assert items[..n - 1][1..] == items[1..][..n - 2];
      JoinAllIsInterleave(items[1..][..n - 2], sep);
      assert items[1..][n - 2] == items[n - 1];
    } else if |items| == 2 {
      assert items[..1] == [items[0]];
    }
  }

  /** The `foreach` of `formatList`: key 0 contributes the item alone, the
      last key `lastSep` and the item, every other key `sep` and the item. */
  method Accumulate(items: seq<string>, sep: string, lastSep: string) returns (list: string)
    ensures |items| == 0 ==> list == ""
    ensures |items| == 1 ==> list == items[0]
    ensures |items| >= 2 ==> list == ListText(items, sep, lastSep)
  {
    list := "";
    var last := |items| - 1;
    for key := 0 to |items|
      invariant key == 0 ==> list == ""
      invariant 1 <= key <= last ==> list == JoinAll(items[..key], sep)
      invariant 2 <= key == |items| ==> list == ListText(items, sep, lastSep)
      invariant key == 1 == |items| ==> list == items[0]
    {
      if key == 0 {
        list := list + items[key];
        assert items[..1] == [items[0]];
      } else if key == last {
        list := list + lastSep + items[key];
        assert items[..key + 1][..key] == items[..key];
      } else {
        list := list + sep + items[key];
        assert items[..key + 1][..key] == items[..key];
      }
    }
  }
}
