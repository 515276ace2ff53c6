/** The behaviour every locale shares (src/AbstractLocale.php): its codes,
    plural selection from a message template, the `transform` dispatch onto
    the number formatters, the guards on `decimals`, and the fallback choice
    of a unit message. */
module AbstractLocale {
  import opened Wrappers
  import opened Rules
  import opened PhpStrings
  import opened Lists

  /** The language family whose rules a locale class uses: en_AU, en_CA,
      en_UK and en_US extend `en`, fr_CA extends `fr`. */
  datatype Lang = En | Fr | Ru | Ja

  /** A locale object: the constructor arguments of its class. */
  datatype Locale = Locale(
    lang: Lang,
    code: string,
    name: string,
    codeShort: Option<string>,
    nameShort: Option<string>)
  {
    /** `getCodeShort()`: the short code, or the code itself when none. */
    function CodeShort(): (s: string)
      ensures codeShort.None? ==> s == code
      ensures codeShort.Some? ==> s == codeShort.value
    {
      codeShort.GetOr(code)
    }

    /** `getLocaleCodes()`: the codes message lookups try, own code first. */
    function LocaleCodes(): (codes: seq<string>)
      ensures 1 <= |codes| <= 2 && codes[0] == code
      ensures |codes| == 1 <==> CodeShort() == code
      ensures |codes| == 2 ==> codes[1] == CodeShort() && codes[0] != codes[1]
    {
      if code == CodeShort() then [code] else [code, CodeShort()]
    }
  }

  /** A message as the source stores it: plain text, or plural variants
      keyed by rule name. */
  datatype Message = Plain(text: string) | Plural(variants: map<string, string>)

  /** `pluralize`: plain text as it is; otherwise the variant named after
      the rule, else the `other` variant, else UnexpectedValue. */
  function Pluralize(t: Message, rule: Rule): (r: Result<string, Error>)
    ensures t.Plain? ==> r == Ok(t.text)
    ensures t.Plural? && Name(rule) in t.variants ==> r == Ok(t.variants[Name(rule)])
    ensures t.Plural? && Name(rule) !in t.variants && "other" in t.variants ==>
              r == Ok(t.variants["other"])
    ensures r.Err? <==> t.Plural? && Name(rule) !in t.variants && "other" !in t.variants
    ensures r.Err? ==> r.error == UnexpectedValue
  {
    match t
    case Plain(s) => Ok(s)
    case Plural(m) =>
      if Name(rule) in m then Ok(m[Name(rule)])
      else if "other" in m then Ok(m["other"])
      else Err(UnexpectedValue)
  }

  /** A plural map with an `other` entry can be pluralised for every rule,
      and the `other` rule always picks that entry. */
  lemma PluralizeWithOther(m: map<string, string>, rule: Rule)
    requires "other" in m
    ensures Pluralize(Plural(m), rule).Ok?
    ensures Pluralize(Plural(m), Other) == Ok(m["other"])
  {
  }

  /** What a locale asks of the ICU number formatter, with the number of
      fraction digits where it sets one. */
  datatype FormatCall =
    | Integer
    | Decimal(decimals: Option<nat>)
    | Percent(decimals: Option<nat>)
    | Ordinal
    | Spellout(decimals: Option<nat>)
    | Duration

  /** The ICU NumberFormatter, left uninterpreted: locale code, call and the
      argument text (its `intval`/`floatval` conversion included). */
  type Formatter = (string, FormatCall, string) -> string

  /** The `decimals` guard shared by the three formatters below. */
  function CheckDecimals(decimals: Option<int>): (r: Result<Option<nat>, Error>)
    ensures r.Err? <==> decimals.Some? && decimals.value < 0
    ensures r.Err? ==> r.error == InvalidArgument
    ensures r.Ok? ==> (r.value.Some? <==> decimals.Some?)
    ensures r.Ok? && decimals.Some? ==> r.value.value == decimals.value
  {
    match decimals
    case None => Ok(Option.None)
    case Some(d) => if d < 0 then Err(InvalidArgument) else Ok(Some(d))
  }

  /** `formatDecimal`: negative decimals are refused. */
  function FormatDecimal(l: Locale, fmt: Formatter, value: string, decimals: Option<int>): (r: Result<string, Error>)
    ensures r.Err? <==> decimals.Some? && decimals.value < 0
    ensures r.Err? ==> r.error == InvalidArgument
    ensures decimals.None? ==> r == Ok(fmt(l.code, Decimal(Option.None), value))
    ensures decimals.Some? && decimals.value >= 0 ==> r == Ok(fmt(l.code, Decimal(Some(decimals.value)), value))
  {
    match CheckDecimals(decimals)
    case Err(e) => Err(e)
    case Ok(d) => Ok(fmt(l.code, Decimal(d), value))
  }

  /** `formatPercent`: negative decimals are refused. */
  function FormatPercent(l: Locale, fmt: Formatter, value: string, decimals: Option<int>): (r: Result<string, Error>)
    ensures r.Err? <==> decimals.Some? && decimals.value < 0
    ensures r.Err? ==> r.error == InvalidArgument
    ensures decimals.None? ==> r == Ok(fmt(l.code, Percent(Option.None), value))
    ensures decimals.Some? && decimals.value >= 0 ==> r == Ok(fmt(l.code, Percent(Some(decimals.value)), value))
  {
    match CheckDecimals(decimals)
    case Err(e) => Err(e)
    case Ok(d) => Ok(fmt(l.code, Percent(d), value))
  }

  /** `formatSpellout`: negative decimals are refused before rounding. */
  function FormatSpellout(l: Locale, fmt: Formatter, value: string, decimals: Option<int>): (r: Result<string, Error>)
    ensures r.Err? <==> decimals.Some? && decimals.value < 0
    ensures r.Err? ==> r.error == InvalidArgument
    ensures decimals.None? ==> r == Ok(fmt(l.code, Spellout(Option.None), value))
    ensures decimals.Some? && decimals.value >= 0 ==> r == Ok(fmt(l.code, Spellout(Some(decimals.value)), value))
  {
    match CheckDecimals(decimals)
    case Err(e) => Err(e)
    case Ok(d) => Ok(fmt(l.code, Spellout(d), value))
  }

  /** The selector of a transform methodName: the text before its first `:`. */
  function Selector(methodName: string): string {
    Split(methodName, ':')[0]
  }

  /** The selectors `transform` hands to a formatter. */
  const Selectors: set<string> := {"integer", "decimal", "percent", "ordinal", "spellout", "duration"}

  /** `$method[1] ?? default`, coerced to the formatter's `?int` parameter. */
  function DecimalsArg(parts: seq<string>, default: int): (r: Result<int, Error>)
    ensures |parts| <= 1 ==> r == Ok(default)
    ensures |parts| > 1 ==> (r.Err? <==> !IsIntLiteral(parts[1]))
    ensures |parts| > 1 && r.Ok? ==> r == Ok(ParseInt(parts[1]).value)
    ensures r.Err? ==> r.error == TypeError
  {
    if |parts| <= 1 then Ok(default)
    else match ParseInt(parts[1])
      case None => Err(TypeError)
      case Some(d) => Ok(d)
  }

  /** The call `decimal` or `percent` makes with `digits` fraction digits. */
  function Counted(selector: string, digits: nat): FormatCall {
    if selector == "decimal" then Decimal(Some(digits)) else Percent(Some(digits))
  }

  /** `$method[1] ?? 2` for `decimal`, `?? 0` for `percent`. */
  function DefaultDigits(selector: string): nat {
    if selector == "decimal" then 2 else 0
  }

  /** `AbstractLocale::transform`: dispatch on the selector. `decimal` and
      `percent` take their fraction digits from the text after the first
      `:` (2 and 0 when there is none); only those two can fail. */
  function BaseTransform(l: Locale, fmt: Formatter, value: string, methodName: string): (r: Result<string, Error>)
    ensures Selector(methodName) !in Selectors ==> r == Ok(value)
    ensures Selector(methodName) == "integer" ==> r == Ok(fmt(l.code, Integer, value))
    ensures Selector(methodName) == "ordinal" ==> r == Ok(fmt(l.code, Ordinal, value))
    ensures Selector(methodName) == "spellout" ==> r == Ok(fmt(l.code, Spellout(Option.None), value))
    ensures Selector(methodName) == "duration" ==> r == Ok(fmt(l.code, Duration, value))
    ensures var parts := Split(methodName, ':');
      (parts[0] == "decimal" || parts[0] == "percent") ==>
        (|parts| == 1 ==> r == Ok(fmt(l.code, Counted(parts[0], DefaultDigits(parts[0])), value))) &&
        (|parts| > 1 && ParseInt(parts[1]).None? ==> r == Err(TypeError)) &&
        (|parts| > 1 && ParseInt(parts[1]).Some? && ParseInt(parts[1]).value < 0 ==> r == Err(InvalidArgument)) &&
        (|parts| > 1 && ParseInt(parts[1]).Some? && ParseInt(parts[1]).value >= 0 ==>
           r == Ok(fmt(l.code, Counted(parts[0], ParseInt(parts[1]).value), value)))
    ensures r.Err? ==> Selector(methodName) == "decimal" || Selector(methodName) == "percent"
  {
    var parts := Split(methodName, ':');
    match parts[0]
    case "integer" => Ok(fmt(l.code, Integer, value))
    case "decimal" =>
      (match DecimalsArg(parts, 2)
       case Err(e) => Err(e)
       case Ok(d) => FormatDecimal(l, fmt, value, Some(d)))
    case "percent" =>
      (match DecimalsArg(parts, 0)
       case Err(e) => Err(e)
       case Ok(d) => FormatPercent(l, fmt, value, Some(d)))
    case "ordinal" => Ok(fmt(l.code, Ordinal, value))
    case "spellout" => FormatSpellout(l, fmt, value, Option.None)
    case "duration" => Ok(fmt(l.code, Duration, value))
    case _ => Ok(value)
  }

  /** Unknown selectors leave the value as it is, whatever follows the
      first `:`; a method without `:` is its own selector. */
  lemma UnknownSelectorUnchanged(l: Locale, fmt: Formatter, value: string, methodName: string)
    requires Selector(methodName) !in Selectors
    ensures BaseTransform(l, fmt, value, methodName) == Ok(value)
  {
  }

  /** Bare `decimal` formats with 2 fraction digits. */
  lemma DecimalDefault(l: Locale, fmt: Formatter, value: string)
    ensures BaseTransform(l, fmt, value, "decimal") == Ok(fmt(l.code, Decimal(Some(2)), value))
  {
    SplitNoSep("decimal", ':');
  }

  /** Bare `percent` formats with 0 fraction digits. */
  lemma PercentDefault(l: Locale, fmt: Formatter, value: string)
    ensures BaseTransform(l, fmt, value, "percent") == Ok(fmt(l.code, Percent(Some(0)), value))
  {
    SplitNoSep("percent", ':');
  }

  /** An explicit negative count reaches the guard and is refused. */
  lemma NegativeDecimalsRefused(l: Locale, fmt: Formatter, value: string)
    ensures BaseTransform(l, fmt, value, "decimal:-1") == Err(InvalidArgument)
  {
    SplitDecimalMinusOne();
    ParseMinusOne();
    assert DecimalsArg(["decimal", "-1"], 2) == Ok(-1);
  }

  lemma SplitDecimalMinusOne()
    ensures Split("decimal:-1", ':') == ["decimal", "-1"]
  {
    assert "decimal:-1" == "decimal" + [':'] + "-1";
    SplitAt("decimal", "-1", ':');
    SplitNoSep("-1", ':');
  }

  lemma ParseMinusOne()
    ensures ParseInt("-1") == Some(-1)
  {
    assert IsIntLiteral("-1") by {
      assert Magnitude("-1") == "1";
      assert IsDigit('1');
    }
    assert DigitsValue("1") == 1 by { assert "1"[..0] == ""; }
  }

  /** A count that is not an integer literal, here an empty one, is a
      TypeError. */
  lemma EmptyDecimalsTypeError(l: Locale, fmt: Formatter, value: string)
    ensures BaseTransform(l, fmt, value, "percent:") == Err(TypeError)
  {
    SplitPercentEmpty();
    assert DecimalsArg(["percent", ""], 0) == Err(TypeError);
  }

  lemma SplitPercentEmpty()
    ensures Split("percent:", ':') == ["percent", ""]
  {
    assert "percent:" == "percent" + [':'] + "";
    SplitAt("percent", "", ':');
  }

  /** `$messages[$rule] ?? $messages['other'] ?? '{0}'` */
  function ChosenMessage(messages: map<string, string>, ruleName: string): (m: string)
    ensures ruleName in messages ==> m == messages[ruleName]
    ensures ruleName !in messages && "other" in messages ==> m == messages["other"]
    ensures ruleName !in messages && "other" !in messages ==> m == "{0}"
  {
    if ruleName in messages then messages[ruleName]
    else if "other" in messages then messages["other"]
    else "{0}"
  }

  /** The unit text of formatLength, formatMass and formatSize once the
      message is chosen: every `{0}` replaced by the formatted value. */
  function UnitMessage(messages: map<string, string>, ruleName: string, formatted: string): (r: string)
    ensures ruleName in messages ==> r == ReplaceAll(messages[ruleName], "{0}", formatted)
    ensures ruleName !in messages && "other" in messages ==> r == ReplaceAll(messages["other"], "{0}", formatted)
    ensures ruleName !in messages && "other" !in messages ==> r == formatted
    ensures ruleName in messages && !Occurs(messages[ruleName], "{0}") ==> r == messages[ruleName]
    ensures ruleName !in messages && "other" in messages && !Occurs(messages["other"], "{0}") ==>
              r == messages["other"]
  {
    var message := ChosenMessage(messages, ruleName);
    if message == "{0}" then
      ReplaceAllHead("{0}", "", formatted);
      assert "{0}" + "" == "{0}" && formatted + "" == formatted;
      assert StartsAt(message, "{0}", 0);
      ReplaceAll(message, "{0}", formatted)
    else if !Occurs(message, "{0}") then
      ReplaceAllAbsent(message, "{0}", formatted);
      ReplaceAll(message, "{0}", formatted)
    else
      ReplaceAll(message, "{0}", formatted)
  }

  /** A message made of `{`-free pieces with `{0}` between them reads as the
      pieces with the formatted value between them; with a formatted value
      free of `{` no placeholder is left. */
  lemma UnitMessageFilled(messages: map<string, string>, ruleName: string, pieces: seq<string>, formatted: string)
    requires |pieces| >= 1 && forall i :: 0 <= i < |pieces| ==> '{' !in pieces[i]
    requires ChosenMessage(messages, ruleName) == Interleave(pieces, "{0}")
    ensures UnitMessage(messages, ruleName, formatted) == Interleave(pieces, formatted)
    ensures '{' !in formatted ==> !Occurs(UnitMessage(messages, ruleName, formatted), "{0}")
  {
    ReplaceAllInterleave(pieces, "{0}", formatted);
    if '{' !in formatted {
      InterleaveAvoids(pieces, formatted, '{');
    }
  }
}
