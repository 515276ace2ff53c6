/** English rules (src/Locale/en.php), used by en and, through inheritance,
    by en_AU, en_CA, en_UK and en_US. */
module En {
  import opened Wrappers
  import opened Rules
  import opened PhpStrings
  import opened Lists
  import opened AbstractLocale

  function Conjunction(style: ListStyle): string {
    match style
    case And => "and"
    case Or => "or"
  }

  /** `formatList`: one item alone, two around the bare conjunction, three or
      more comma-separated with a comma before the conjunction too. */
  method FormatList(items: seq<string>, style: ListStyle) returns (list: string)
    ensures |items| == 0 ==> list == ""
    ensures |items| == 1 ==> list == items[0]
    ensures |items| == 2 ==> list == items[0] + " " + Conjunction(style) + " " + items[1]
    ensures |items| >= 3 ==> list == ListText(items, ", ", ", " + Conjunction(style) + " ")
  {
    if |items| == 1 {
      return items[0];
    }
    var word := Conjunction(style);
    if |items| == 2 {
      return items[0] + " " + word + " " + items[1];
    }
    list := Accumulate(items, ", ", ", " + word + " ");
  }

  /** Three items with AND read "a, b, and c". */
  lemma ThreeItems()
    ensures ListText(["a", "b", "c"], ", ", ", " + Conjunction(And) + " ") == "a, b, and c"
  {
    assert ["a", "b", "c"][..2] == ["a", "b"];
    assert ["a", "b"][..1] == ["a"];
  }

  /** `getCardinalRule`: `none` only for a flagged zero, `one` only for the
      integers 1 and -1 (`abs` keeps a float a float, so 1.0 is `other`). */
  function CardinalRule(value: Num, none: bool): (r: Rule)
    ensures r == Rule.None <==> none && value.IsZero()
    ensures r == One <==> !(none && value.IsZero()) && (value == I(1) || value == I(-1))
    ensures r == Rule.None || r == One || r == Other
  {
    if none && value.IsZero() then Rule.None
    else
      match value
      case I(n) => if (if n < 0 then -n else n) == 1 then One else Other
      case F(_) => Other
  }

  /** `possesive` (sic): `'` after a final s or S, `'s` otherwise, the empty
      string included. */
  function Possessive(value: string): (r: string)
    ensures |r| > |value| && r[..|value|] == value
    ensures r[|value|..] == "'" <==> |value| > 0 && Lower(value[|value| - 1]) == 's'
    ensures r[|value|..] == "'s" <==> !(|value| > 0 && Lower(value[|value| - 1]) == 's')
  {
    if |value| > 0 && Lower(value[|value| - 1]) == 's' then value + "'"
    else value + "'s"
  }

  /** `en::transform`: the whole method `possesive` is handled here, every
      other method by the shared dispatch. */
  function Transform(l: Locale, fmt: Formatter, value: string, methodName: string): (r: Result<string, Error>)
    ensures methodName == "possesive" ==> r == Ok(Possessive(value))
    ensures methodName != "possesive" ==> r == BaseTransform(l, fmt, value, methodName)
  {
    if methodName == "possesive" then Ok(Possessive(value))
    else BaseTransform(l, fmt, value, methodName)
  }

  lemma PossessiveExamples()
    ensures Possessive("James") == "James'"
    ensures Possessive("Dogs") == "Dogs'"
    ensures Possessive("John") == "John's"
    ensures Possessive("") == "'s"
  {
  }
}
