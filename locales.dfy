/** The locale classes of src/Locale/: the constructor defaults of each
    implemented class, and the calls that go to the class's own language
    rules (`transform`, `getCardinalRule`, `getRangeRule`, `formatList`). */
module Locales {
  import opened Wrappers
  import opened Rules
  import opened PhpStrings
  import opened AbstractLocale
  import En
  import Fr
  import Ru
  import Ja
  import Template
  import opened Lists

  /** The class file for a canonical code (`en_CA`), with the locale its
      constructor builds when given no arguments. en_UK.php declares its
      class under the name `en_CA`; the entry uses the defaults written in
      that file. */
  function Implementation(canonical: string): (r: Option<Locale>)
    ensures r.Some? ==> ReplaceChar(r.value.code, '-', '_') == canonical
    ensures r.Some? && r.value.codeShort.Some? ==> r.value.codeShort.value in {"en", "fr"}
  {
    match canonical
    case "en" => Some(Locale(En, "en", "English", Option.None, Option.None))
    case "en_AU" => Some(Locale(En, "en-AU", "English Australia", Some("en"), Some("English")))
    case "en_CA" => Some(Locale(En, "en-CA", "English Canada", Some("en"), Some("English")))
    case "en_UK" => Some(Locale(En, "en-UK", "English United Kingdom", Some("en"), Some("English")))
    case "en_US" => Some(Locale(En, "en-US", "English United States", Some("en"), Some("English")))
    case "fr" => Some(Locale(Fr, "fr", "Français", Option.None, Option.None))
    case "fr_CA" => Some(Locale(Fr, "fr-CA", "Français Canada", Some("fr"), Some("Français")))
    case "ja" => Some(Locale(Ja, "ja", "日本語", Option.None, Option.None))
    case "ru" => Some(Locale(Ru, "ru", "русский", Option.None, Option.None))
    case _ => Option.None
  }

  /** A regional class names a short code whose own class exists, has no
      short code of its own and speaks the same language: the cascade in
      `addLocale` stops after one step. */
  lemma ShortCodeImplemented(canonical: string)
    requires Implementation(canonical).Some? && Implementation(canonical).value.codeShort.Some?
    ensures Implementation(Implementation(canonical).value.codeShort.value).Some?
    ensures Implementation(Implementation(canonical).value.codeShort.value).value.codeShort.None?
    ensures Implementation(Implementation(canonical).value.codeShort.value).value.lang == Implementation(canonical).value.lang
  {
  }

  /** `$locale->transform(value, method)`: the English override first for
      the en family, the shared dispatch for the others. */
  function Transform(l: Locale, fmt: Formatter, value: string, methodName: string): (r: Result<string, Error>)
    ensures l.lang == En && methodName == "possesive" ==> r == Ok(En.Possessive(value))
    ensures !(l.lang == En && methodName == "possesive") ==> r == BaseTransform(l, fmt, value, methodName)
  {
    match l.lang
    case En => En.Transform(l, fmt, value, methodName)
    case _ => BaseTransform(l, fmt, value, methodName)
  }

  /** The transform a message of locale `l` is expanded with. */
  function LocaleTransform(l: Locale, fmt: Formatter): Template.Transform {
    (a, m) => Transform(l, fmt, a, m)
  }

  /** The formatter never writes a `{`. */
  ghost predicate BraceFreeFormatter(fmt: Formatter) {
    forall c, k, v :: '{' !in fmt(c, k, v)
  }

  /** With a formatter that writes no `{`, a locale's transform of a
      brace-free value is brace-free: what the directive scan needs to
      finish. */
  lemma TransformKeepsBraceFree(l: Locale, fmt: Formatter)
    requires BraceFreeFormatter(fmt)
    ensures Template.KeepsBraceFree(LocaleTransform(l, fmt))
  {
    forall a, m | '{' !in a && Transform(l, fmt, a, m).Ok?
      ensures '{' !in Transform(l, fmt, a, m).value
    {
      if l.lang == En && m == "possesive" {
        var r := En.Possessive(a);
        assert r == a + "'" || r == a + "'s";
      }
    }
  }

  /** `getCardinalRule` of the locale's language; Russian with the
      corrected range test of its last branch. */
  function CardinalRule(l: Locale, value: Num, none: bool): (r: Rule)
    ensures r == Rule.None <==> none && value.IsZero()
    ensures l.lang == En ==> r == En.CardinalRule(value, none)
    ensures l.lang == Fr ==> r == Fr.CardinalRule(value, none)
    ensures l.lang == Ru ==> r == Ru.CardinalRuleIntended(value, none)
    ensures l.lang == Ja ==> r == Ja.CardinalRule(value, none)
  {
    match l.lang
    case En => En.CardinalRule(value, none)
    case Fr => Fr.CardinalRule(value, none)
    case Ru => Ru.CardinalRuleIntended(value, none)
    case Ja => Ja.CardinalRule(value, none)
  }

  /** The resource-message branch of formatLength, formatMass and
      formatSize as written: the rule from `getCardinalRule` indexes the
      message map. en, fr and ja return the rule's name; ru returns the
      `Rule` enum itself, and an enum as an array offset is a TypeError. */
  function UnitText(l: Locale, messages: map<string, string>, value: Num, formatted: string): (r: Result<string, Error>)
    ensures r.Err? <==> l.lang == Ru
    ensures r.Err? ==> r.error == TypeError
    ensures r.Ok? ==> r.value == UnitMessage(messages, Name(CardinalRule(l, value, false)), formatted)
  {
    if l.lang == Ru then Err(TypeError)
    else Ok(UnitMessage(messages, Name(CardinalRule(l, value, false)), formatted))
  }

  /** The same branch with the rule's name as the key in every language. */
  function UnitTextByName(l: Locale, messages: map<string, string>, value: Num, formatted: string): (r: string)
    ensures Name(CardinalRule(l, value, false)) in messages ==>
      r == ReplaceAll(messages[Name(CardinalRule(l, value, false))], "{0}", formatted)
    ensures Name(CardinalRule(l, value, false)) !in messages && "other" in messages ==>
      r == ReplaceAll(messages["other"], "{0}", formatted)
    ensures Name(CardinalRule(l, value, false)) !in messages && "other" !in messages ==> r == formatted
  {
    UnitMessage(messages, Name(CardinalRule(l, value, false)), formatted)
  }

  /** Russian unit texts: as written every one fails; with the rule's name
      the `few` message serves endings 2, 3 and 4 outside 11..19, and `many` the
      teens. */
  lemma RussianUnitText(l: Locale, messages: map<string, string>, n: int, formatted: string)
    requires l.lang == Ru
    ensures UnitText(l, messages, I(n), formatted) == Err(TypeError)
    ensures "few" in messages && n >= 0 && 2 <= n % 10 <= 4 && !(10 < n < 20) ==>
      UnitTextByName(l, messages, I(n), formatted) == ReplaceAll(messages["few"], "{0}", formatted)
    ensures "many" in messages && 10 < n < 20 ==>
      UnitTextByName(l, messages, I(n), formatted) == ReplaceAll(messages["many"], "{0}", formatted)
  {
  }

  /** `getRangeRule`: `other` for en and ja; fr and ru call `getNumberRule`,
      which no class defines, so the call fails. */
  function RangeRule(l: Locale, startValue: Num, endValue: Num): (r: Result<Rule, Error>)
    ensures r.Ok? <==> l.lang == En || l.lang == Ja
    ensures r.Ok? ==> r.value == Other
    ensures r.Err? ==> r.error == UndefinedMethod("getNumberRule")
  {
    match l.lang
    case En => Ok(Other)
    case Ja => Ok(Other)
    case _ => Err(UndefinedMethod("getNumberRule"))
  }

  /** The word `formatList` puts before the last item. */
  function LanguageConjunction(lang: Lang, style: ListStyle): string {
    match lang
    case En => En.Conjunction(style)
    case Fr => Fr.Conjunction(style)
    case Ru => Ru.Conjunction(style)
    case Ja => Ja.Conjunction(style)
  }

  /** `formatList` of the locale's language. */
  method FormatList(l: Locale, items: seq<string>, style: ListStyle) returns (list: string)
    ensures |items| == 0 ==> list == ""
    ensures |items| == 1 ==> list == items[0]
    ensures |items| == 2 && (l.lang == En || l.lang == Fr || l.lang == Ru) ==>
      list == items[0] + " " + LanguageConjunction(l.lang, style) + " " + items[1]
    ensures |items| == 2 && l.lang == Ja ==> list == items[0] + Ja.Conjunction(style) + items[1]
    ensures |items| >= 3 && l.lang == En ==> list == ListText(items, ", ", ", " + En.Conjunction(style) + " ")
    ensures |items| >= 3 && (l.lang == Fr || l.lang == Ru) ==>
      list == ListText(items, ", ", " " + LanguageConjunction(l.lang, style) + " ")
    ensures |items| >= 3 && l.lang == Ja ==> list == ListText(items, "、", Ja.LastSeparator(style))
  {
    match l.lang
    case En => list := En.FormatList(items, style);
    case Fr => list := Fr.FormatList(items, style);
    case Ru => list := Ru.FormatList(items, style);
    case Ja => list := Ja.FormatList(items, style);
  }
}
