/** The locale registry and message lookup of `I18n` (src/I18n.php): locale
    codes are validated and canonicalised, locales are stored under their
    lower-case hyphenated code together with their short-code locale, the
    default codes are kept in order without duplicates, and `get` pluralises
    a message and expands its placeholders. */
module Registry {
  import opened Wrappers
  import opened Rules
  import opened PhpStrings
  import opened AbstractLocale
  import opened Locales
  import opened KeyOrder
  import Template

  predicate IsCodeChar(c: char) {
    'a' <= c <= 'z' || 'A' <= c <= 'Z' || c == '_' || c == '-'
  }

  /** The pattern `\A[a-zA-Z_-]+\z`. */
  predicate ValidCode(code: string) {
    |code| > 0 && forall i :: 0 <= i < |code| ==> IsCodeChar(code[i])
  }

  /** `str_replace('_', '-', strtolower(code))`: the key a locale is stored
      and looked up under. */
  function Normalize(code: string): (r: string)
    ensures |r| == |code|
    ensures '_' !in r && !HasUpper(r)
    ensures forall i :: 0 <= i < |code| ==> r[i] == (if code[i] == '_' then '-' else Lower(code[i]))
  {
    var r := ReplaceChar(LowerStr(code), '_', '-');
    assert forall i :: 0 <= i < |r| ==> r[i] != '_' && !('A' <= r[i] <= 'Z');
    r
  }

  /** Two codes share a key exactly when they have the same length and
      agree at every position up to ASCII case, `-` and `_` being one
      separator: `EN_ca` and `en-ca` share a key, `en` and `fr` do not. */
  lemma SameKey(a: string, b: string)
    ensures Normalize(a) == Normalize(b) <==>
      |a| == |b| && forall i :: 0 <= i < |a| ==>
        Lower(a[i]) == Lower(b[i]) || ((a[i] == '-' || a[i] == '_') && (b[i] == '-' || b[i] == '_'))
  {
    var na, nb := Normalize(a), Normalize(b);
    if na == nb {
      forall i | 0 <= i < |a|
        ensures Lower(a[i]) == Lower(b[i]) || ((a[i] == '-' || a[i] == '_') && (b[i] == '-' || b[i] == '_'))
      {
        assert na[i] == nb[i];
      }
    }
    if |a| == |b| && forall i :: 0 <= i < |a| ==>
        Lower(a[i]) == Lower(b[i]) || ((a[i] == '-' || a[i] == '_') && (b[i] == '-' || b[i] == '_')) {
      forall i | 0 <= i < |a| ensures na[i] == nb[i] {
      }
      assert na == nb;
    }
  }

  /** Normalising twice changes nothing more. */
  lemma NormalizeIdempotent(code: string)
    ensures Normalize(Normalize(code)) == Normalize(code)
  {
    var n := Normalize(code);
    forall i | 0 <= i < |n| ensures Normalize(n)[i] == n[i] {
      assert LowerStr(n)[i] == Lower(n[i]);
    }
  }

  /** The separator a code is spelled with does not matter to its key. */
  lemma NormalizeSeparator(code: string)
    ensures Normalize(ReplaceChar(code, '-', '_')) == Normalize(code)
  {
    var h := ReplaceChar(code, '-', '_');
    forall i | 0 <= i < |code| ensures Normalize(h)[i] == Normalize(code)[i] {
      assert LowerStr(h)[i] == Lower(h[i]);
      assert LowerStr(code)[i] == Lower(code[i]);
    }
  }

  /** The segments of a code with the second one upper-cased. */
  function Recase(parts: seq<string>): seq<string> {
    if |parts| > 1 then parts[1 := UpperStr(parts[1])] else parts
  }

  /** The class name `initializeLocale` derives: `-` becomes `_`, and the
      second segment only is upper-cased. Canonicalisation changes only
      case and separators, so the key is unchanged: `en-ca`, `en_CA` and
      `EN-CA` share the key `en-ca`. */
  function Canonical(code: string): (r: string)
    ensures Normalize(r) == Normalize(code)
  {
    RecaseKeepsKey(code);
    Join(Recase(Split(ReplaceChar(code, '-', '_'), '_')), '_')
  }

  lemma RecaseKeepsKey(code: string)
    ensures Normalize(Join(Recase(Split(ReplaceChar(code, '-', '_'), '_')), '_')) == Normalize(code)
  {
    var h := ReplaceChar(code, '-', '_');
    var parts := Split(h, '_');
    var parts' := Recase(parts);
    forall i | 0 <= i < |parts| ensures LowerStr(parts'[i]) == LowerStr(parts[i]) {
      if i == 1 {
        LowerUpper(parts[1]);
      }
    }
    LowerJoin(parts', parts, '_');
    JoinSplit(h, '_');
    assert LowerStr(Join(parts', '_')) == LowerStr(h);
    NormalizeSeparator(code);
  }

  lemma CanonicalExamples()
    ensures Canonical("en-ca") == "en_CA"
    ensures Canonical("en") == "en"
    ensures Canonical("fr") == "fr"
  {
    CanonicalRegional();
    CanonicalShort("en");
    CanonicalShort("fr");
  }

  lemma CanonicalRegional()
    ensures Canonical("en-ca") == "en_CA"
  {
    assert ReplaceChar("en-ca", '-', '_') == "en" + ['_'] + "ca";
    SplitAt("en", "ca", '_');
    SplitNoSep("ca", '_');
    var parts := Split(ReplaceChar("en-ca", '-', '_'), '_');
    assert parts == ["en", "ca"];
    assert UpperStr("ca") == "CA";
    assert Recase(parts) == ["en", "CA"];
    assert Join(["en", "CA"], '_') == "en" + ['_'] + "CA";
  }

  lemma CanonicalShort(c: string)
    requires c == "en" || c == "fr"
    ensures Canonical(c) == c
  {
    assert ReplaceChar(c, '-', '_') == c;
    SplitNoSep(c, '_');
  }

  /** `initializeLocale`: an invalid code is refused, a code without a
      class is not found, otherwise the class's default locale. */
  function InitializeLocale(code: string): (r: Result<Locale, Error>)
    ensures r.Err? && r.error == InvalidArgument <==> !ValidCode(code)
    ensures ValidCode(code) ==> (r.Err? <==> Implementation(Canonical(code)).None?)
    ensures ValidCode(code) && r.Err? ==> r.error == LocaleNotFound(Canonical(code))
    ensures r.Ok? ==> Normalize(r.value.code) == Normalize(code)
  {
    if !ValidCode(code) then Err(InvalidArgument)
    else
      match Implementation(Canonical(code))
      case None => Err(LocaleNotFound(Canonical(code)))
      case Some(l) =>
        NormalizeSeparator(l.code);
        Ok(l)
  }

  /** The first segment keeps its case: `EN-ca` names the class `EN_CA`,
      which does not exist. */
  lemma UpperCaseLanguageNotFound()
    ensures InitializeLocale("EN") == Err(LocaleNotFound("EN"))
  {
    assert ReplaceChar("EN", '-', '_') == "EN";
    SplitNoSep("EN", '_');
    assert Canonical("EN") == "EN";
  }

  /** `initializeLocale` as the file is written: `LocaleNotFoundException`
      lives in `Pyncer\I18n\Exception`, but `I18n.php` imports no such
      name, so PHP looks for `Pyncer\I18n\LocaleNotFoundException`, finds
      no class, and the `throw` itself fails with an `Error`. */
  function InitializeLocaleAsWritten(code: string): (r: Result<Locale, Error>)
    ensures InitializeLocale(code).Ok? ==> r == InitializeLocale(code)
    ensures r.Err? && r.error == InvalidArgument <==> !ValidCode(code)
    ensures ValidCode(code) && r.Err? ==> r.error == UndefinedClass("Pyncer\\I18n\\LocaleNotFoundException")
  {
    match InitializeLocale(code)
    case Err(LocaleNotFound(_)) => Err(UndefinedClass("Pyncer\\I18n\\LocaleNotFoundException"))
    case other => other
  }

  /** A valid code without a class: the intended `LocaleNotFoundException`
      naming the class, and what the file as written throws instead. */
  lemma MissingClassError(code: string)
    requires ValidCode(code) && Implementation(Canonical(code)).None?
    ensures InitializeLocale(code) == Err(LocaleNotFound(Canonical(code)))
    ensures InitializeLocaleAsWritten(code) == Err(UndefinedClass("Pyncer\\I18n\\LocaleNotFoundException"))
  {
  }

  predicate Distinct(s: seq<string>) {
    forall i, j :: 0 <= i < j < |s| ==> s[i] != s[j]
  }

  /** `array_search` */
  function IndexOf(s: seq<string>, x: string): (r: Option<nat>)
    ensures r.None? <==> x !in s
    ensures r.Some? ==> r.value < |s| && s[r.value] == x
    ensures r.Some? ==> forall j :: 0 <= j < r.value ==> s[j] != x
  {
    if s == [] then Option.None
    else if s[0] == x then Some(0)
    else
      match IndexOf(s[1..], x)
      case None => Option.None
      case Some(i) => Some(i + 1)
  }

  /** The default-code update: the earlier occurrence, if any, is removed
      and the code appended. */
  function MoveToEnd(s: seq<string>, x: string): (r: seq<string>)
    ensures |r| > 0 && r[|r| - 1] == x
    ensures forall y :: y in r <==> y in s || y == x
    ensures x !in s ==> r == s + [x]
    ensures Distinct(s) ==> Distinct(r)
    ensures Distinct(s) ==> forall j :: 0 <= j < |r| - 1 ==> r[j] != x
  {
    match IndexOf(s, x)
    case None => s + [x]
    case Some(i) =>
      RemoveAt(s, i, s[..i] + s[i + 1..] + [x]);
      s[..i] + s[i + 1..] + [x]
  }

  /** Removing the entry at `i` and appending it keeps every other entry,
      in order, and no duplicates appear. */
  lemma RemoveAt(s: seq<string>, i: nat, r: seq<string>)
    requires i < |s| && r == s[..i] + s[i + 1..] + [s[i]]
    ensures forall y :: y in r <==> y in s
    ensures Distinct(s) ==> Distinct(r)
    ensures Distinct(s) ==> forall j :: 0 <= j < |r| - 1 ==> r[j] != s[i]
  {
    assert s == s[..i] + [s[i]] + s[i + 1..];
    assert forall j :: 0 <= j < |r| - 1 ==> r[j] == (if j < i then s[j] else s[j + 1]);
  }

  /** A code already at the end of the list stays second to last when
      another code is moved behind it. */
  lemma MoveToEndKeepsLast(s: seq<string>, a: string, b: string)
    requires |s| > 0 && s[|s| - 1] == a && a != b
    ensures |MoveToEnd(s, b)| >= 2
    ensures MoveToEnd(s, b)[|MoveToEnd(s, b)| - 2] == a
  {
    var r := MoveToEnd(s, b);
    match IndexOf(s, b)
    case None =>
    case Some(i) =>
      assert i < |s| - 1;
      assert r == s[..i] + s[i + 1..] + [b];
  }

  /** What `I18n` holds: locales by key, default codes, and the keys that
      have a message sourcer. */
  datatype State = State(locales: map<string, Locale>, defaults: seq<string>, sourcers: seq<string>)

  /** The registry invariant: every locale is stored under the key of its
      own code, every default code has a registered locale, the default
      list and the sourcer list have no duplicates, and there is exactly
      one sourcer per stored key. */
  ghost predicate Consistent(st: State) {
    (forall k :: k in st.locales ==> k == Normalize(st.locales[k].code)) &&
    (forall d :: d in st.defaults ==> Normalize(d) in st.locales) &&
    Distinct(st.defaults) &&
    Distinct(st.sourcers) &&
    (forall k :: k in st.locales <==> k in st.sourcers)
  }

  /** One `addLocale` call without its short-code cascade
      (src/I18n.php:57-80). */
  function Register(st: State, l: Locale, isDefault: bool): (r: State)
    ensures r.locales == st.locales[Normalize(l.code) := l]
  {
    var key := Normalize(l.code);
    State(
      st.locales[key := l],
      if isDefault then MoveToEnd(st.defaults, l.code) else st.defaults,
      if key in st.sourcers then st.sourcers else st.sourcers + [key])
  }

  /** Registering keeps the registry consistent. */
  lemma RegisterConsistent(st: State, l: Locale, isDefault: bool)
    requires Consistent(st)
    ensures Consistent(Register(st, l, isDefault))
  {
    var r := Register(st, l, isDefault);
    NormalizeIdempotent(l.code);
    var key := Normalize(l.code);
    assert forall k :: k in r.locales ==> k == Normalize(r.locales[k].code) by {
      forall k | k in r.locales ensures k == Normalize(r.locales[k].code) {
        if k != key {
          assert k in st.locales;
        }
      }
    }
    if key !in st.sourcers {
      assert forall i :: 0 <= i < |st.sourcers| ==> st.sourcers[i] != key by {
        forall i | 0 <= i < |st.sourcers| ensures st.sourcers[i] != key {
          assert st.sourcers[i] in st.sourcers;
        }
      }
    }
  }

  /** Whether `addLocale(code)` cascades to a short code. */
  function Cascade(code: string): nat {
    match InitializeLocale(code)
    case Ok(l) => if l.CodeShort() != l.code then 1 else 0
    case Err(_) => 0
  }

  /** The short code of a regional locale initialises, and does not cascade
      further. */
  lemma ShortCodeStops(code: string)
    requires InitializeLocale(code).Ok?
    requires InitializeLocale(code).value.CodeShort() != InitializeLocale(code).value.code
    ensures InitializeLocale(InitializeLocale(code).value.CodeShort()).Ok?
    ensures Cascade(InitializeLocale(code).value.CodeShort()) == 0
  {
    var l := InitializeLocale(code).value;
    ShortCodeImplemented(Canonical(code));
    ShortCodeInitialises(l.CodeShort());
  }

  /** `en` and `fr`, the only short codes, initialise to locales whose
      code is the short code itself. */
  lemma ShortCodeInitialises(c: string)
    requires c == "en" || c == "fr"
    ensures InitializeLocale(c).Ok? && InitializeLocale(c).value.code == c
    ensures Cascade(c) == 0
  {
    CanonicalShort(c);
    assert ValidCode(c);
  }

  /** `addLocale`, the short-code cascade included (src/I18n.php:50-87). It
      fails exactly when `initializeLocale` does, with its error: the short
      code of an implemented class always initialises. */
  function Add(st: State, code: string, isDefault: bool): (r: Result<State, Error>)
    ensures r.Err? <==> InitializeLocale(code).Err?
    ensures r.Err? ==> r.error == InitializeLocale(code).error
    decreases Cascade(code)
  {
    match InitializeLocale(code)
    case Err(e) => Err(e)
    case Ok(l) =>
      var st1 := Register(st, l, isDefault);
      if l.CodeShort() != l.code then
        ShortCodeStops(code);
        Add(st1, l.CodeShort(), isDefault)
      else Ok(st1)
  }

  /** The cascade of a regional code: its own registration, then that of
      its short code, whose locale carries the short code as its code. */
  lemma AddCascade(st: State, code: string, isDefault: bool)
    requires InitializeLocale(code).Ok?
    requires InitializeLocale(code).value.CodeShort() != InitializeLocale(code).value.code
    ensures InitializeLocale(InitializeLocale(code).value.CodeShort()).Ok?
    ensures InitializeLocale(InitializeLocale(code).value.CodeShort()).value.code == InitializeLocale(code).value.CodeShort()
    ensures Add(st, code, isDefault) ==
      Ok(Register(Register(st, InitializeLocale(code).value, isDefault),
                  InitializeLocale(InitializeLocale(code).value.CodeShort()).value, isDefault))
  {
    ShortCodeStops(code);
    ShortCodeInitialises(InitializeLocale(code).value.CodeShort());
  }

  /** After `addLocale(code)` every spelling of the code that differs only
      in case or separator is known to `hasLocale`, so are the short code
      and every key known before. */
  lemma AddRegisters(st: State, code: string, isDefault: bool)
    requires Add(st, code, isDefault).Ok?
    ensures forall c :: Normalize(c) == Normalize(code) ==> Normalize(c) in Add(st, code, isDefault).value.locales
    ensures Normalize(InitializeLocale(code).value.CodeShort()) in Add(st, code, isDefault).value.locales
    ensures st.locales.Keys <= Add(st, code, isDefault).value.locales.Keys
  {
    var l := InitializeLocale(code).value;
    var st1 := Register(st, l, isDefault);
    if l.CodeShort() != l.code {
      ShortCodeStops(code);
      var s := InitializeLocale(l.CodeShort()).value;
      assert Add(st, code, isDefault) == Ok(Register(st1, s, isDefault));
    }
  }

  /** `addLocale` keeps the registry consistent. */
  lemma AddConsistent(st: State, code: string, isDefault: bool)
    requires Consistent(st) && Add(st, code, isDefault).Ok?
    ensures Consistent(Add(st, code, isDefault).value)
  {
    var l := InitializeLocale(code).value;
    RegisterConsistent(st, l, isDefault);
    if l.CodeShort() != l.code {
      ShortCodeStops(code);
      var s := InitializeLocale(l.CodeShort()).value;
      RegisterConsistent(Register(st, l, isDefault), s, isDefault);
      assert Add(st, code, isDefault) == Ok(Register(Register(st, l, isDefault), s, isDefault));
    }
  }

  /** Without `isDefault` the default list is left alone. */
  lemma AddNotDefault(st: State, code: string)
    requires Add(st, code, false).Ok?
    ensures Add(st, code, false).value.defaults == st.defaults
  {
    var l := InitializeLocale(code).value;
    if l.CodeShort() != l.code {
      ShortCodeStops(code);
      var s := InitializeLocale(l.CodeShort()).value;
      assert Add(st, code, false) == Ok(Register(Register(st, l, false), s, false));
    }
  }

  /** With `isDefault` a locale without a short code ends the default list;
      it appears there once when the list had no duplicates. */
  lemma AddDefaultPlain(st: State, code: string)
    requires Consistent(st) && Add(st, code, true).Ok?
    requires InitializeLocale(code).value.CodeShort() == InitializeLocale(code).value.code
    ensures var d := Add(st, code, true).value.defaults;
      |d| >= 1 && d[|d| - 1] == InitializeLocale(code).value.code &&
      forall j :: 0 <= j < |d| - 1 ==> d[j] != InitializeLocale(code).value.code
  {
  }

  /** Moving `a` and then `b` to the end of a duplicate-free list ends it
      with `a, b`, neither appearing earlier. */
  lemma MoveTwoToEnd(s: seq<string>, a: string, b: string)
    requires Distinct(s) && a != b
    ensures var d := MoveToEnd(MoveToEnd(s, a), b);
      |d| >= 2 && d[|d| - 2] == a && d[|d| - 1] == b &&
      forall j :: 0 <= j < |d| - 2 ==> d[j] != a && d[j] != b
  {
    var t := MoveToEnd(s, a);
    MoveToEndKeepsLast(t, a, b);
  }

  /** With `isDefault` a regional locale puts its code and then its short
      code at the end of the default list, each once. */
  lemma AddDefaultRegional(st: State, code: string)
    requires Consistent(st) && Add(st, code, true).Ok?
    requires InitializeLocale(code).value.CodeShort() != InitializeLocale(code).value.code
    ensures var d := Add(st, code, true).value.defaults;
      |d| >= 2 && d[|d| - 2] == InitializeLocale(code).value.code &&
      d[|d| - 1] == InitializeLocale(code).value.CodeShort() &&
      forall j :: 0 <= j < |d| - 2 ==>
        d[j] != InitializeLocale(code).value.code && d[j] != InitializeLocale(code).value.CodeShort()
  {
    var l := InitializeLocale(code).value;
    AddCascade(st, code, true);
    var s := InitializeLocale(l.CodeShort()).value;
    var d := Add(st, code, true).value.defaults;
    assert d == MoveToEnd(MoveToEnd(st.defaults, l.code), s.code);
    MoveTwoToEnd(st.defaults, l.code, s.code);
  }

  /** A sourcer is added at most once per key: adding a locale whose keys
      are already registered leaves the sourcers alone. */
  lemma AddSourcersOnce(st: State, code: string, isDefault: bool)
    requires Add(st, code, isDefault).Ok?
    requires Consistent(st) && Normalize(code) in st.locales
    requires Normalize(InitializeLocale(code).value.CodeShort()) in st.locales
    ensures Add(st, code, isDefault).value.sourcers == st.sourcers
  {
    var l := InitializeLocale(code).value;
    var st1 := Register(st, l, isDefault);
    if l.CodeShort() != l.code {
      ShortCodeStops(code);
      var s := InitializeLocale(l.CodeShort()).value;
      assert Add(st, code, isDefault) == Ok(Register(st1, s, isDefault));
    }
  }

  /** A stored key has no upper-case letter. */
  predicate HasUpper(code: string) {
    exists i | 0 <= i < |code| :: 'A' <= code[i] <= 'Z'
  }

  /** The locale codes handed to the message lookup, normalised as
      `hasLocale` does. */
  function NormalizeAll(codes: seq<string>): (keys: seq<string>)
    ensures |keys| == |codes|
    ensures forall i :: 0 <= i < |codes| ==> keys[i] == Normalize(codes[i])
  {
    seq(|codes|, i requires 0 <= i < |codes| => Normalize(codes[i]))
  }

  /** The message sources, left abstract: for a key, the normalised locale
      codes and the source names, the stored message and the name of the
      sourcer (a normalised locale code) that had it, or nothing. */
  type Fetch = (string, seq<string>, Option<seq<string>>) -> Option<(Message, string)>

  /** Sorting the arguments keeps their values brace-free. */
  lemma SortKeepsBraceFree(args: Args)
    requires Template.BraceFreeArgs(args)
    ensures Template.BraceFreeArgs(SortDescending(args))
  {
    var r := SortDescending(args);
    forall i | 0 <= i < |r| ensures '{' !in r[i].1 {
      assert r[i] in multiset(r);
      var j :| 0 <= j < |args| && args[j] == r[i];
    }
  }

  /** A permutation has the same members. */
  lemma SameMembers(args: Args, sorted: Args)
    requires multiset(sorted) == multiset(args)
    ensures forall e :: e in args <==> e in sorted
  {
    forall e ensures e in args <==> e in sorted {
      assert e in args <==> e in multiset(args);
      assert e in sorted <==> e in multiset(sorted);
    }
  }

  /** A text holding no `{name` for any argument comes through the
      per-name loop over the sorted arguments unchanged. */
  lemma SortedUntouched(value: string, args: Args, locale: Locale, fmt: Formatter)
    requires Template.BraceFreeArgs(args) && BraceFreeFormatter(fmt)
    requires forall i :: 0 <= i < |args| ==> !Occurs(value, "{" + args[i].0)
    ensures Template.BraceFreeArgs(SortDescending(args)) && Template.KeepsBraceFree(LocaleTransform(locale, fmt))
    ensures Template.Substitute(value, SortDescending(args), LocaleTransform(locale, fmt)) == Ok(value)
  {
    var sorted := SortDescending(args);
    SortKeepsBraceFree(args);
    TransformKeepsBraceFree(locale, fmt);
    forall i | 0 <= i < |sorted| ensures !Occurs(value, "{" + sorted[i].0) {
      assert sorted[i] in multiset(sorted);
      var j :| 0 <= j < |args| && args[j] == sorted[i];
    }
    Template.SubstituteUntouched(value, sorted, LocaleTransform(locale, fmt));
  }

  class I18n {
    var locales: map<string, Locale>
    var defaultLocaleCodes: seq<string>
    /** The locale keys a `LocaleSourcer` was added for, in order. */
    var sourcerNames: seq<string>

    function Snapshot(): State
      reads this
    {
      State(locales, defaultLocaleCodes, sourcerNames)
    }

    ghost predicate Valid()
      reads this
    {
      Consistent(Snapshot())
    }

    constructor ()
      ensures Valid()
      ensures locales == map[] && defaultLocaleCodes == [] && sourcerNames == []
    {
      locales := map[];
      defaultLocaleCodes := [];
      sourcerNames := [];
    }

    /** `hasLocale`: any spelling of a stored code. */
    predicate HasLocale(code: string)
      reads this
      ensures HasLocale(code) <==> GetLocale(Normalize(code)).Some?
    {
      Normalize(code) in locales
    }

    /** `getLocale`: the code is used as the key as it is. */
    function GetLocale(code: string): (r: Option<Locale>)
      reads this
      ensures r.Some? <==> code in locales
      ensures r.Some? ==> r.value == locales[code]
    {
      if code in locales then Some(locales[code]) else Option.None
    }

    /** A registered locale is found under every spelling of its code by
        `hasLocale`, and by `getLocale` only under its key. */
    lemma HasLocaleAnySpelling(a: string, b: string)
      requires Normalize(a) == Normalize(b)
      ensures HasLocale(a) <==> HasLocale(b)
      ensures HasLocale(a) <==> GetLocale(Normalize(a)).Some?
    {
    }

    /** The body of `addLocale` before the cascade (src/I18n.php:57-80):
        the locale stored under its key, a sourcer added for a new key,
        and the code moved to the end of the default list. */
    method Store(locale: Locale, isDefault: bool)
      modifies this
      ensures Snapshot() == Register(old(Snapshot()), locale, isDefault)
    {
      var key := Normalize(locale.code);
      locales := locales[key := locale];
      if key !in sourcerNames {
        sourcerNames := sourcerNames + [key];
      }
      if isDefault {
        var index := IndexOf(defaultLocaleCodes, locale.code);
        if index.Some? {
          defaultLocaleCodes := defaultLocaleCodes[..index.value] + defaultLocaleCodes[index.value + 1..];
        }
        defaultLocaleCodes := defaultLocaleCodes + [locale.code];
      }
    }

    /** `addLocale` (src/I18n.php:50-87). */
    method AddLocale(code: string, isDefault: bool) returns (r: Result<(), Error>)
      modifies this
      ensures r.Err? <==> InitializeLocale(code).Err?
      ensures r.Err? ==> r.error == InitializeLocale(code).error && Snapshot() == old(Snapshot())
      ensures r.Ok? ==> Add(old(Snapshot()), code, isDefault) == Ok(Snapshot())
      ensures old(Valid()) ==> Valid()
      ensures r.Ok? ==> forall c :: Normalize(c) == Normalize(code) ==> HasLocale(c)
      decreases Cascade(code)
    {
      var init := InitializeLocale(code);
      if init.Err? {
        return Err(init.error);
      }
      var locale := init.value;
      ghost var before := Snapshot();
      Store(locale, isDefault);
      if Consistent(before) {
        RegisterConsistent(before, locale, isDefault);
      }
      AddRegisters(before, code, isDefault);
      if locale.CodeShort() != locale.code {
        ShortCodeStops(code);
        r := AddLocale(locale.CodeShort(), isDefault);
        if Consistent(before) {
          AddConsistent(before, code, isDefault);
        }
        return;
      }
      r := Ok(());
    }

    /** `getDefaultLocale` as written: the first default code is used as
        the key unchanged. */
    function GetDefaultLocale(): (r: Result<Option<Locale>, Error>)
      reads this
      ensures r.Err? <==> defaultLocaleCodes == []
      ensures r.Err? ==> r.error == UnexpectedValue
      ensures Valid() && defaultLocaleCodes != [] ==>
        (r.value.Some? <==> Normalize(defaultLocaleCodes[0]) == defaultLocaleCodes[0])
      ensures Valid() && r.Ok? && r.value.Some? ==> Normalize(r.value.value.code) == defaultLocaleCodes[0]
    {
      if defaultLocaleCodes == [] then Err(UnexpectedValue)
      else
        var d := defaultLocaleCodes[0];
        assert Valid() && d in locales ==> Normalize(d) == d by {
          if Valid() && d in locales {
            NormalizeIdempotent(locales[d].code);
          }
        }
        Ok(GetLocale(d))
    }

    /** Default codes are stored as the locale spells them (`en-CA`), keys
        in lower case (`en-ca`): a regional default is never found. */
    lemma RegionalDefaultIsNull()
      requires Valid() && defaultLocaleCodes != [] && HasUpper(defaultLocaleCodes[0])
      ensures GetDefaultLocale() == Ok(Option.None)
    {
    }

    /** `getDefaultLocale` with the first default code normalised, as
        `hasLocale` does. */
    function GetDefaultLocaleByKey(): (r: Result<Option<Locale>, Error>)
      reads this
      ensures r.Err? <==> defaultLocaleCodes == []
      ensures r.Err? ==> r.error == UnexpectedValue
    {
      if defaultLocaleCodes == [] then Err(UnexpectedValue)
      else Ok(GetLocale(Normalize(defaultLocaleCodes[0])))
    }

    /** Every default code has its locale registered, so the normalised
        lookup always finds one. */
    lemma DefaultLocaleByKeyFound()
      requires Valid() && defaultLocaleCodes != []
      ensures GetDefaultLocaleByKey().Ok? && GetDefaultLocaleByKey().value.Some?
      ensures Normalize(GetDefaultLocaleByKey().value.value.code) == Normalize(defaultLocaleCodes[0])
    {
      assert defaultLocaleCodes[0] in defaultLocaleCodes;
      var k := Normalize(defaultLocaleCodes[0]);
      NormalizeIdempotent(locales[k].code);
    }

    /** The lookup `get` makes first: the stored message and the name of
        the sourcer that had it. */
    function Found(key: string, localeCodes: Option<seq<string>>, sourceNames: Option<seq<string>>, fetch: Fetch): Option<(Message, string)>
      reads this
    {
      fetch(key, NormalizeAll(localeCodes.GetOr(defaultLocaleCodes)), sourceNames)
    }

    /** `get` (src/I18n.php:147-219), with the departures listed in the
        documentation: the spliced text is the transformed argument, the
        result is the expanded message, and the locale codes are
        normalised. A missed lookup is null and only a missed lookup; a
        sourcer without a registered locale is the call on null; a plural
        choice that fails is the result; without arguments the pluralised
        text comes back as it is. */
    function Resolve(key: string, rule: Rule, args: Args, localeCodes: Option<seq<string>>,
                     sourceNames: Option<seq<string>>, fetch: Fetch, fmt: Formatter): (r: Result<Option<string>, Error>)
      reads this
      requires Template.BraceFreeArgs(args) && BraceFreeFormatter(fmt)
      ensures var found := Found(key, localeCodes, sourceNames, fetch);
        (found.None? <==> r == Ok(Option.None)) &&
        (found.Some? && found.value.1 !in locales ==> r == Err(NullLocale)) &&
        (found.Some? && found.value.1 in locales && Pluralize(found.value.0, rule).Err? ==>
          r == Err(Pluralize(found.value.0, rule).error)) &&
        (found.Some? && found.value.1 in locales && Pluralize(found.value.0, rule).Ok? && args == [] ==>
          r == Ok(Some(Pluralize(found.value.0, rule).value)))
    {
      match Found(key, localeCodes, sourceNames, fetch)
      case None => Ok(Option.None)
      case Some(found) =>
        match GetLocale(found.1)
        case None => Err(NullLocale)
        case Some(locale) =>
          match Pluralize(found.0, rule)
          case Err(e) => Err(e)
          case Ok(value) =>
            if args == [] then Ok(Some(value))
            else
              SortKeepsBraceFree(args);
              TransformKeepsBraceFree(locale, fmt);
              match Template.Substitute(value, SortDescending(args), LocaleTransform(locale, fmt))
              case Err(e) => Err(e)
              case Ok(text) => Ok(Some(text))
    }

    /** A message made of well-formed pieces reads, after `get`, as its
        pieces with the arguments in: each placeholder and each unescaped
        directive with an argument replaced, everything else as written.
        With unique argument names the descending sort does not change
        the result. */
    lemma ResolvePieces(key: string, rule: Rule, args: Args, localeCodes: Option<seq<string>>,
                        sourceNames: Option<seq<string>>, fetch: Fetch, fmt: Formatter, qs: seq<Template.Piece>)
      requires Template.BraceFreeArgs(args) && BraceFreeFormatter(fmt)
      requires Template.ArgsOk(args) && Template.UniqueNames(args)
      requires Found(key, localeCodes, sourceNames, fetch).Some?
      requires Found(key, localeCodes, sourceNames, fetch).value.1 in locales
      requires Pluralize(Found(key, localeCodes, sourceNames, fetch).value.0, rule) == Ok(Template.Render(qs))
      requires Template.AllOk(qs)
      requires Template.ResultsOk(qs, args, LocaleTransform(locales[Found(key, localeCodes, sourceNames, fetch).value.1], fmt))
      ensures Resolve(key, rule, args, localeCodes, sourceNames, fetch, fmt) ==
        Ok(Some(Template.Output(qs, args, LocaleTransform(locales[Found(key, localeCodes, sourceNames, fetch).value.1], fmt))))
    {
      var found := Found(key, localeCodes, sourceNames, fetch).value;
      var xf := LocaleTransform(locales[found.1], fmt);
      TransformKeepsBraceFree(locales[found.1], fmt);
      if args == [] {
        Template.RenderIsOutput(qs, xf);
      } else {
        var sorted := SortDescending(args);
        SortKeepsBraceFree(args);
        SameMembers(args, sorted);
        Template.ReorderedArgs(args, sorted, qs, xf);
        Template.SubstitutePieces(qs, sorted, xf);
      }
    }

    /** A message in which no argument name follows a `{` comes back as
        pluralised. */
    lemma ResolveUntouched(key: string, rule: Rule, args: Args, localeCodes: Option<seq<string>>,
                           sourceNames: Option<seq<string>>, fetch: Fetch, fmt: Formatter)
      requires Template.BraceFreeArgs(args) && BraceFreeFormatter(fmt)
      requires fetch(key, NormalizeAll(localeCodes.GetOr(defaultLocaleCodes)), sourceNames).Some?
      requires fetch(key, NormalizeAll(localeCodes.GetOr(defaultLocaleCodes)), sourceNames).value.1 in locales
      requires Pluralize(fetch(key, NormalizeAll(localeCodes.GetOr(defaultLocaleCodes)), sourceNames).value.0, rule).Ok?
      requires forall i :: 0 <= i < |args| ==>
        !Occurs(Pluralize(fetch(key, NormalizeAll(localeCodes.GetOr(defaultLocaleCodes)), sourceNames).value.0, rule).value,
                "{" + args[i].0)
      ensures Resolve(key, rule, args, localeCodes, sourceNames, fetch, fmt) ==
        Ok(Some(Pluralize(fetch(key, NormalizeAll(localeCodes.GetOr(defaultLocaleCodes)), sourceNames).value.0, rule).value))
    {
      var found := Found(key, localeCodes, sourceNames, fetch).value;
      if args != [] {
        SortedUntouched(Pluralize(found.0, rule).value, args, locales[found.1], fmt);
      }
    }

    /** `get`: the lookup, the plural choice, then for each argument name in
        descending order the plain replacement and the directive scan. */
    method Get(key: string, rule: Rule, args: Args, localeCodes: Option<seq<string>>,
               sourceNames: Option<seq<string>>, fetch: Fetch, fmt: Formatter) returns (r: Result<Option<string>, Error>)
      requires Template.BraceFreeArgs(args) && BraceFreeFormatter(fmt)
      ensures r == Resolve(key, rule, args, localeCodes, sourceNames, fetch, fmt)
    {
      var codes := localeCodes.GetOr(defaultLocaleCodes);
      var found := fetch(key, NormalizeAll(codes), sourceNames);
      if found.None? {
        return Ok(Option.None);
      }
      var (message, sourcerName) := found.value;
      var locale := GetLocale(sourcerName);
      if locale.None? {
        return Err(NullLocale);
      }
      var plural := Pluralize(message, rule);
      if plural.Err? {
        return Err(plural.error);
      }
      var value := plural.value;
      if args == [] {
        return Ok(Some(value));
      }
      var sorted := SortDescending(args);
      SortKeepsBraceFree(args);
      var xf := LocaleTransform(locale.value, fmt);
      TransformKeepsBraceFree(locale.value, fmt);
      var text := Template.SubstituteAll(value, sorted, xf);
      if text.Err? {
        return Err(text.error);
      }
      return Ok(Some(text.value));
    }
  }
}
