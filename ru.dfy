/** Russian rules (src/Locale/ru.php). */
module Ru {
  import opened Rules
  import opened PhpStrings
  import opened Lists

  function Conjunction(style: ListStyle): string {
    match style
    case And => "и"
    case Or => "или"
  }

  /** `formatList`: the French shape with `и` / `или`. */
  method FormatList(items: seq<string>, style: ListStyle) returns (list: string)
    ensures |items| == 0 ==> list == ""
    ensures |items| == 1 ==> list == items[0]
    ensures |items| == 2 ==> list == items[0] + " " + Conjunction(style) + " " + items[1]
    ensures |items| >= 3 ==> list == ListText(items, ", ", " " + Conjunction(style) + " ")
  {
    if |items| == 1 {
      return items[0];
    }
    var word := Conjunction(style);
    if |items| == 2 {
      return items[0] + " " + word + " " + items[1];
    }
    list := Accumulate(items, ", ", " " + word + " ");
  }

  /** `getCardinalRule` as written. The flagged-zero test comes first, then
      every float is OTHER, the integers 11..19 (the value itself, not its
      last two digits) are MANY, a truncated remainder of 1 is ONE, and
      since `$ending >= 2 || $ending <= 4` always holds every other integer
      is FEW: OTHER is never reached for an integer. */
  function CardinalRule(value: Num, none: bool): (r: Rule)
    ensures r == Rule.None <==> none && value.IsZero()
    ensures r == Other <==> value.F? && !(none && value.IsZero())
    ensures r == Many <==> value.I? && 10 < value.i < 20
    ensures r == One <==> value.I? && value.i > 0 && value.i % 10 == 1 && !(10 < value.i < 20)
    ensures r == Few <==> value.I? && !(none && value.i == 0) && !(10 < value.i < 20) && !(value.i > 0 && value.i % 10 == 1)
  {
    if none && value.IsZero() then Rule.None
    else if value.F? then Other
    else if 10 < value.i < 20 then Many
    else
      var ending := TruncRem(value.i, 10);
      if ending == 1 then One
      else if ending >= 2 || ending <= 4 then Few
      else Other
  }

  /** The condition the authors evidently meant at the last test,
      `$ending >= 2 && $ending <= 4`, the rest unchanged. */
  function CardinalRuleIntended(value: Num, none: bool): (r: Rule)
    ensures r == Rule.None <==> none && value.IsZero()
    ensures r == Many <==> value.I? && 10 < value.i < 20
    ensures r == One <==> value.I? && value.i > 0 && value.i % 10 == 1 && !(10 < value.i < 20)
    ensures r == Few <==> value.I? && !(10 < value.i < 20) && 2 <= TruncRem(value.i, 10) <= 4
    ensures r == Other <==>
      !(none && value.IsZero()) && (value.F? || (!(10 < value.i < 20) && TruncRem(value.i, 10) !in {1, 2, 3, 4}))
    ensures value.I? && value.i >= 0 && !(none && value.i == 0) && !(10 < value.i < 20) ==>
              (r == Other <==> value.i % 10 !in {1, 2, 3, 4})
  {
    if none && value.IsZero() then Rule.None
    else if value.F? then Other
    else if 10 < value.i < 20 then Many
    else
      var ending := TruncRem(value.i, 10);
      if ending == 1 then One
      else if ending >= 2 && ending <= 4 then Few
      else Other
  }

  /** The code as written gives FEW for 25 and for -1, ONE for 111 and 21,
      MANY for 11; the intended condition gives OTHER for 25. */
  lemma Examples()
    ensures CardinalRule(I(11), false) == Many
    ensures CardinalRule(I(21), false) == One
    ensures CardinalRule(I(23), false) == Few
    ensures CardinalRule(I(25), false) == Few
    ensures CardinalRule(I(111), false) == One
    ensures CardinalRule(I(-1), false) == Few
    ensures CardinalRule(I(0), false) == Few
    ensures CardinalRuleIntended(I(25), false) == Other
  {
  }
}
