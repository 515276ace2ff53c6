/** Japanese rules (src/Locale/ja.php). */
module Ja {
  import opened Rules
  import opened Lists

  function Conjunction(style: ListStyle): string {
    match style
    case And => "と"
    case Or => "または"
  }

  /** The text before the last of three or more items: OR keeps its word
      after the ideographic comma, AND has only the comma. */
  function LastSeparator(style: ListStyle): string {
    match style
    case And => "、"
    case Or => "、" + Conjunction(Or)
  }

  /** `formatList`: two items around the bare conjunction, no spaces; three
      or more separated by `、`, with `または` only before the last OR item. */
  method FormatList(items: seq<string>, style: ListStyle) returns (list: string)
    ensures |items| == 0 ==> list == ""
    ensures |items| == 1 ==> list == items[0]
    ensures |items| == 2 ==> list == items[0] + Conjunction(style) + items[1]
    ensures |items| >= 3 ==> list == ListText(items, "、", LastSeparator(style))
  {
    if |items| == 1 {
      return items[0];
    }
    var word := Conjunction(style);
    if |items| == 2 {
      return items[0] + word + items[1];
    }
    list := Accumulate(items, "、", LastSeparator(style));
  }

  /** Three or more items with AND are all joined by `、` alone: no
      conjunction word appears. */
  lemma AndListIsPlainJoin(items: seq<string>)
    requires |items| >= 3
    ensures ListText(items, "、", LastSeparator(And)) == JoinAll(items, "、")
  {
  }

  /** `getCardinalRule`: `none` for a flagged zero, `other` for everything
      else; Japanese has no singular. */
  function CardinalRule(value: Num, none: bool): (r: Rule)
    ensures r == Rule.None <==> none && value.IsZero()
    ensures r != Rule.None ==> r == Other
  {
    if none && value.IsZero() then Rule.None else Other
  }
}
