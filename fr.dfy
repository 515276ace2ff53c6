/** French rules (src/Locale/fr.php), used by fr and fr_CA. */
module Fr {
  import opened Rules
  import opened PhpStrings
  import opened Lists

  function Conjunction(style: ListStyle): string {
    match style
    case And => "et"
    case Or => "ou"
  }

  /** `formatList`: like English but with no comma before the conjunction. */
  method FormatList(items: seq<string>, style: ListStyle) returns (list: string)
    ensures |items| == 0 ==> list == ""
    ensures |items| == 1 ==> list == items[0]
    ensures |items| == 2 ==> list == items[0] + " " + Conjunction(style) + " " + items[1]
    ensures |items| >= 3 ==> list == ListText(items, ", ", " " + Conjunction(style) + " ")
  {
    if |items| == 1 {
      return items[0];
    }
    var word := Conjunction(style);
    if |items| == 2 {
      return items[0] + " " + word + " " + items[1];
    }
    list := Accumulate(items, ", ", " " + word + " ");
  }

  /** Three items with AND read "a, b et c". */
  lemma ThreeItems()
    ensures ListText(["a", "b", "c"], ", ", " " + Conjunction(And) + " ") == "a, b et c"
  {
    assert ["a", "b", "c"][..2] == ["a", "b"];
    assert ["a", "b"][..1] == ["a"];
  }

  /** `intval`: ints as they are, floats truncated toward zero. */
  function IntVal(value: Num): int {
    match value
    case I(n) => n
    case F(x) => Trunc(x)
  }

  /** `getCardinalRule`: `none` only for a flagged zero; `one` exactly when
      the truncated magnitude is 0 or 1, i.e. for every value strictly
      between -2 and 2 (so 1.5, and 0 without the flag, are `one`). */
  function CardinalRule(value: Num, none: bool): (r: Rule)
    ensures r == Rule.None <==> none && value.IsZero()
    ensures r == One <==> !(none && value.IsZero()) && -2.0 < value.AsReal() < 2.0
    ensures r == Rule.None || r == One || r == Other
  {
    if none && value.IsZero() then Rule.None
    else
      var n := IntVal(value);
      var magnitude := if n < 0 then -n else n;
      if magnitude == 0 || magnitude == 1 then One else Other
  }
}
