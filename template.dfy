/** The placeholder engine of `I18n::get` (src/I18n.php:173-216): argument
    keys in descending order; for each key every `{key}` is replaced by the
    argument, then `{key:method}` directives are scanned left to right and
    each unescaped one is replaced by the argument transformed by `method`. */
module Template {
  import opened Wrappers
  import opened PhpStrings

  /** `$locale->transform(argument, method)` of the locale that owns the
      message. */
  type Transform = (string, string) -> Result<string, Error>

  /** Transforms that never introduce a `{` into a text that had none. The
      engine rescans spliced text, so without this the scan can run forever
      (see "Left out"). */
  ghost predicate KeepsBraceFree(xf: Transform) {
    forall a, m :: '{' !in a && xf(a, m).Ok? ==> '{' !in xf(a, m).value
  }

  function Token(key: string): string {
    "{" + key + ":"
  }

  /** The escape test at src/I18n.php:192-197: one backslash before the brace
      escapes it unless that backslash is itself preceded by one. */
  predicate Escaped(value: string, p: nat)
    requires p < |value|
  {
    p > 0 && value[p - 1] == '\\' && (p == 1 || value[p - 2] != '\\')
  }

  /** The method text as the code computes it: from just after the colon,
      `pos2 - offset - 1` characters. */
  function DirectiveMethod(value: string, p: nat, p2: nat, key: string): (m: string)
    requires p + 2 + |key| <= |value|
    ensures p + 2 + |key| < p2 <= |value| ==> m == value[p + 2 + |key|..p2 - 1]
  {
    var offset := p + 2 + |key|;
    Substr(value, offset, p2 - offset - 1)
  }

  /** The method text the comment at src/I18n.php:183 describes: everything
      between the colon and the closing brace. */
  function IntendedMethod(value: string, p: nat, p2: nat, key: string): (m: string)
    requires StartsAt(value, Token(key), p) && p + |Token(key)| <= p2 < |value| && value[p2] == '}'
    ensures value[p..p2 + 1] == Token(key) + m + "}"
  {
    var m := value[p + 2 + |key|..p2];
    assert value[p..p2 + 1] == value[p..p + |Token(key)|] + m + [value[p2]];
    m
  }

  /** The code's arithmetic drops the last character of the method:
      `{item:possesive}` asks for `possesiv`. */
  lemma MethodLosesLastCharacter(value: string, p: nat, p2: nat, key: string)
    requires StartsAt(value, Token(key), p) && p + |Token(key)| < p2 < |value| && value[p2] == '}'
    ensures |IntendedMethod(value, p, p2, key)| == |DirectiveMethod(value, p, p2, key)| + 1
    ensures DirectiveMethod(value, p, p2, key) ==
      IntendedMethod(value, p, p2, key)[..|IntendedMethod(value, p, p2, key)| - 1]
  {
  }

  /** One pass of the `while (true)` body. */
  datatype Step = Done(text: string) | Failed(error: Error) | Next(value: string, pos: nat)

  function StepAt(value: string, pos: nat, key: string, arg: string, xf: Transform): (s: Step)
    requires pos <= |value|
    ensures s.Done? ==> s.text == value
    ensures s.Next? ==> pos < s.pos
  {
    match StrPos(value, Token(key), pos)
    case None => Done(value)
    case Some(p) =>
      if Escaped(value, p) then Next(value, p + 1)
      else
        match StrPos(value, "}", p)
        case None => Done(value)
        case Some(p2) =>
          match xf(arg, DirectiveMethod(value, p, p2, key))
          case Err(e) => Failed(e)
          case Ok(t) => Next(value[..p] + t + value[p2 + 1..], p + 1)
  }

  /** The number of `{` at or after `pos`: every step removes one. */
  function Measure(value: string, pos: nat): nat {
    if pos <= |value| then multiset(value[pos..])['{'] else 0
  }

  lemma MeasureSplit(value: string, i: nat, j: nat)
    requires i <= j <= |value|
    ensures Measure(value, i) == multiset(value[i..j])['{'] + Measure(value, j)
  {
    assert value[i..] == value[i..j] + value[j..];
  }

  lemma MeasureAtBrace(value: string, p: nat)
    requires p < |value| && value[p] == '{'
    ensures Measure(value, p) == 1 + Measure(value, p + 1)
  {
    assert value[p..] == [value[p]] + value[p + 1..];
  }

  /** After a splice of brace-free text `t` at `p` the braces left to scan
      are those after the closing brace. */
  lemma MeasureAfterSplice(value: string, p: nat, p2: nat, t: string)
    requires p < p2 < |value| && '{' !in t
    ensures Measure(value[..p] + t + value[p2 + 1..], p + 1) <= Measure(value, p2 + 1)
  {
    var rest := value[p2 + 1..];
    var v := value[..p] + t + rest;
    assert Measure(value, p2 + 1) == multiset(rest)['{'];
    if p + 1 <= |v| {
      if |t| >= 1 {
        assert v[p + 1..] == t[1..] + rest;
        assert '{' !in t[1..];
        assert multiset(t[1..])['{'] == 0;
        assert multiset(v[p + 1..]) == multiset(t[1..]) + multiset(rest);
      } else {
        assert v[p + 1..] == rest[1..];
        assert rest == [rest[0]] + rest[1..];
        assert multiset(rest) == multiset{rest[0]} + multiset(rest[1..]);
      }
    }
  }

  /** Replacing `value[p..p2]`, which starts with a `{`, by brace-free text
      and resuming after `p` leaves fewer `{` than scanning from `p`. */
  lemma SpliceDecreases(value: string, p: nat, p2: nat, t: string)
    requires p < p2 < |value| && value[p] == '{' && '{' !in t
    ensures Measure(value[..p] + t + value[p2 + 1..], p + 1) < Measure(value, p)
  {
    MeasureAfterSplice(value, p, p2, t);
    MeasureSplit(value, p + 1, p2 + 1);
    MeasureAtBrace(value, p);
  }

  lemma TokenStartsWithBrace(value: string, key: string, p: nat)
    requires StartsAt(value, Token(key), p)
    ensures p < |value| && value[p] == '{'
  {
    assert value[p..p + |Token(key)|][0] == '{';
  }

  lemma ClosingBrace(value: string, p2: nat)
    requires StartsAt(value, "}", p2)
    ensures p2 < |value| && value[p2] == '}'
  {
    assert value[p2..p2 + 1][0] == '}';
  }

  lemma StepDecreases(value: string, pos: nat, key: string, arg: string, xf: Transform)
    requires pos <= |value| && '{' !in arg && KeepsBraceFree(xf)
    requires StepAt(value, pos, key, arg, xf).Next?
    ensures Measure(StepAt(value, pos, key, arg, xf).value, StepAt(value, pos, key, arg, xf).pos) < Measure(value, pos)
  {
    var p := StrPos(value, Token(key), pos).value;
    TokenStartsWithBrace(value, key, p);
    MeasureSplit(value, pos, p);
    if Escaped(value, p) {
      assert StepAt(value, pos, key, arg, xf) == Next(value, p + 1);
      MeasureAtBrace(value, p);
    } else {
      var p2 := StrPos(value, "}", p).value;
      ClosingBrace(value, p2);
      var t := xf(arg, DirectiveMethod(value, p, p2, key)).value;
      assert StepAt(value, pos, key, arg, xf) == Next(value[..p] + t + value[p2 + 1..], p + 1);
      SpliceDecreases(value, p, p2, t);
    }
  }

  /** The scan never touches the text before its starting offset. */
  lemma StepKeepsPrefix(value: string, pos: nat, key: string, arg: string, xf: Transform)
    requires pos <= |value| && StepAt(value, pos, key, arg, xf).Next?
    ensures pos <= |StepAt(value, pos, key, arg, xf).value|
    ensures StepAt(value, pos, key, arg, xf).value[..pos] == value[..pos]
  {
    var p := StrPos(value, Token(key), pos).value;
    if !Escaped(value, p) {
      var p2 := StrPos(value, "}", p).value;
      var t := xf(arg, DirectiveMethod(value, p, p2, key)).value;
      var v := value[..p] + t + value[p2 + 1..];
      assert StepAt(value, pos, key, arg, xf).value == v;
      assert v[..pos] == value[..p][..pos];
    }
  }

  /** The directive scan for one key from offset `pos`. An offset past the
      end is PHP's ValueError from `strpos`. */
  function Expand(value: string, pos: nat, key: string, arg: string, xf: Transform): (r: Result<string, Error>)
    requires '{' !in arg && KeepsBraceFree(xf)
    ensures pos > |value| ==> r == Err(ValueError)
    decreases Measure(value, pos)
  {
    if pos > |value| then Err(ValueError)
    else
      match StepAt(value, pos, key, arg, xf)
      case Done(t) => Ok(t)
      case Failed(e) => Err(e)
      case Next(v, p) =>
        StepDecreases(value, pos, key, arg, xf);
        Expand(v, p, key, arg, xf)
  }

  lemma {:induction false} ExpandKeepsPrefix(value: string, pos: nat, key: string, arg: string, xf: Transform)
    requires '{' !in arg && KeepsBraceFree(xf)
    requires Expand(value, pos, key, arg, xf).Ok?
    ensures pos <= |value|
    ensures |Expand(value, pos, key, arg, xf).value| >= pos
    ensures Expand(value, pos, key, arg, xf).value[..pos] == value[..pos]
    decreases Measure(value, pos)
  {
    var s := StepAt(value, pos, key, arg, xf);
    if s.Next? {
      StepDecreases(value, pos, key, arg, xf);
      assert Expand(value, pos, key, arg, xf) == Expand(s.value, s.pos, key, arg, xf);
      ExpandKeepsPrefix(s.value, s.pos, key, arg, xf);
      StepKeepsPrefix(value, pos, key, arg, xf);
      var r := Expand(s.value, s.pos, key, arg, xf).value;
      assert r[..pos] == r[..s.pos][..pos];
      assert s.value[..pos] == s.value[..s.pos][..pos];
    }
  }

  /** The five ways one pass of the loop ends, each as an equation on
      `Expand`. */
  lemma ExpandNoMatch(value: string, pos: nat, key: string, arg: string, xf: Transform)
    requires '{' !in arg && KeepsBraceFree(xf) && pos <= |value|
    requires StrPos(value, Token(key), pos).None?
    ensures Expand(value, pos, key, arg, xf) == Ok(value)
  {
  }

  lemma ExpandEscaped(value: string, pos: nat, key: string, arg: string, xf: Transform, p: nat)
    requires '{' !in arg && KeepsBraceFree(xf) && pos <= |value|
    requires StrPos(value, Token(key), pos) == Some(p) && p < |value| && Escaped(value, p)
    ensures Expand(value, pos, key, arg, xf) == Expand(value, p + 1, key, arg, xf)
    ensures Measure(value, p + 1) < Measure(value, pos)
  {
    StepDecreases(value, pos, key, arg, xf);
  }

  lemma ExpandUnclosed(value: string, pos: nat, key: string, arg: string, xf: Transform, p: nat)
    requires '{' !in arg && KeepsBraceFree(xf) && pos <= |value|
    requires StrPos(value, Token(key), pos) == Some(p) && p < |value| && !Escaped(value, p)
    requires StrPos(value, "}", p).None?
    ensures Expand(value, pos, key, arg, xf) == Ok(value)
  {
  }

  lemma ExpandFails(value: string, pos: nat, key: string, arg: string, xf: Transform, p: nat, p2: nat)
    requires '{' !in arg && KeepsBraceFree(xf) && pos <= |value|
    requires StrPos(value, Token(key), pos) == Some(p) && p < |value| && !Escaped(value, p)
    requires StrPos(value, "}", p) == Some(p2)
    requires xf(arg, DirectiveMethod(value, p, p2, key)).Err?
    ensures Expand(value, pos, key, arg, xf) == Err(xf(arg, DirectiveMethod(value, p, p2, key)).error)
  {
  }

  lemma ExpandSplice(value: string, pos: nat, key: string, arg: string, xf: Transform, p: nat, p2: nat, t: string)
    requires '{' !in arg && KeepsBraceFree(xf) && pos <= |value|
    requires StrPos(value, Token(key), pos) == Some(p) && p < |value| && !Escaped(value, p)
    requires StrPos(value, "}", p) == Some(p2)
    requires xf(arg, DirectiveMethod(value, p, p2, key)) == Ok(t)
    ensures Expand(value, pos, key, arg, xf) == Expand(value[..p] + t + value[p2 + 1..], p + 1, key, arg, xf)
    ensures Measure(value[..p] + t + value[p2 + 1..], p + 1) < Measure(value, pos)
  {
    var v := value[..p] + t + value[p2 + 1..];
    assert StepAt(value, pos, key, arg, xf) == Next(v, p + 1);
    TokenStartsWithBrace(value, key, p);
    ClosingBrace(value, p2);
    MeasureSplit(value, pos, p);
    SpliceDecreases(value, p, p2, t);
  }

  /** The `while (true)` loop of src/I18n.php:185-215, with the splice of
      `transform(arg, method)` over `[pos, pos2]`. */
  method ExpandDirectives(value0: string, key: string, arg: string, xf: Transform) returns (r: Result<string, Error>)
    requires '{' !in arg && KeepsBraceFree(xf)
    ensures r == Expand(value0, 0, key, arg, xf)
  {
    var value := value0;
    var pos: nat := 0;
    while true
      invariant Expand(value, pos, key, arg, xf) == Expand(value0, 0, key, arg, xf)
      decreases Measure(value, pos)
    {
      if pos > |value| {
        return Err(ValueError);
      }
      var found := StrPos(value, Token(key), pos);
      if found.None? {
        ExpandNoMatch(value, pos, key, arg, xf);
        return Ok(value);
      }
      var p := found.value;
      TokenStartsWithBrace(value, key, p);
      if p > 0 && value[p - 1] == '\\' {
        if p == 1 || value[p - 2] != '\\' {
          ExpandEscaped(value, pos, key, arg, xf, p);
          pos := p + 1;
          continue;
        }
      }
      var close := StrPos(value, "}", p);
      if close.None? {
        ExpandUnclosed(value, pos, key, arg, xf, p);
        return Ok(value);
      }
      var p2 := close.value;
      assert |Token(key)| == 2 + |key|;
      var t := xf(arg, DirectiveMethod(value, p, p2, key));
      if t.Err? {
        ExpandFails(value, pos, key, arg, xf, p, p2);
        return Err(t.error);
      }
      ExpandSplice(value, pos, key, arg, xf, p, p2, t.value);
      value := value[..p] + t.value + value[p2 + 1..];
      pos := p + 1;
    }
  }

  /** Every argument value is free of `{`. */
  ghost predicate BraceFreeArgs(args: seq<(string, string)>) {
    forall i :: 0 <= i < |args| ==> '{' !in args[i].1
  }

  /** The `foreach` over the (already sorted) arguments: `{key}` replaced
      everywhere, then the directives of that key expanded. Without
      arguments, or without any `{`, the message comes back as it is. */
  function Substitute(value: string, args: seq<(string, string)>, xf: Transform): (r: Result<string, Error>)
    requires BraceFreeArgs(args) && KeepsBraceFree(xf)
    ensures args == [] ==> r == Ok(value)
    ensures '{' !in value ==> r == Ok(value)
    decreases |args|
  {
    if args == [] then Ok(value)
    else
      var (key, arg) := args[0];
      BraceFreeUntouched(value, key, arg, xf);
      match Expand(ReplaceAll(value, "{" + key + "}", arg), 0, key, arg, xf)
      case Err(e) => Err(e)
      case Ok(v) => Substitute(v, args[1..], xf)
  }

  /** One round of the `foreach`, seen from outside. */
  lemma SubstituteStep(value: string, args: seq<(string, string)>, xf: Transform, v: string)
    requires BraceFreeArgs(args) && KeepsBraceFree(xf) && args != []
    requires Expand(ReplaceAll(value, "{" + args[0].0 + "}", args[0].1), 0, args[0].0, args[0].1, xf) == Ok(v)
    ensures Substitute(value, args, xf) == Substitute(v, args[1..], xf)
  {
  }

  /** A directive scan that fails ends the whole loop with its error. */
  lemma SubstituteFails(value: string, args: seq<(string, string)>, xf: Transform, e: Error)
    requires BraceFreeArgs(args) && KeepsBraceFree(xf) && args != []
    requires Expand(ReplaceAll(value, "{" + args[0].0 + "}", args[0].1), 0, args[0].0, args[0].1, xf) == Err(e)
    ensures Substitute(value, args, xf) == Err(e)
  {
  }

  /** The `foreach` of src/I18n.php:176-216 over the sorted arguments: the
      plain replacement of `{key}`, then the directive scan of that key. */
  method SubstituteAll(value0: string, args: seq<(string, string)>, xf: Transform) returns (r: Result<string, Error>)
    requires BraceFreeArgs(args) && KeepsBraceFree(xf)
    ensures r == Substitute(value0, args, xf)
  {
    var value := value0;
    for i := 0 to |args|
      invariant Substitute(value, args[i..], xf) == Substitute(value0, args, xf)
    {
      var (name, arg) := args[i];
      var expanded := ExpandDirectives(ReplaceAll(value, "{" + name + "}", arg), name, arg, xf);
      if expanded.Err? {
        SubstituteFails(value, args[i..], xf, expanded.error);
        return Err(expanded.error);
      }
      SubstituteStep(value, args[i..], xf, expanded.value);
      assert args[i..][1..] == args[i + 1..];
      value := expanded.value;
    }
    return Ok(value);
  }

  lemma BraceFreeUntouched(value: string, key: string, arg: string, xf: Transform)
    requires '{' !in arg && KeepsBraceFree(xf)
    ensures '{' !in value ==> ReplaceAll(value, "{" + key + "}", arg) == value
    ensures '{' !in value ==> Expand(value, 0, key, arg, xf) == Ok(value)
  {
    if '{' !in value {
      ReplaceAllSkip(value, "", "{" + key + "}", arg);
      assert value + "" == value;
      NoBraceNoToken(value, key);
      ExpandAbsent(value, key, arg, xf);
    }
  }

  lemma OccursPrefix(s: string, p: string, q: string)
    requires Occurs(s, p + q)
    ensures Occurs(s, p)
  {
    var i :| 0 <= i <= |s| && StartsAt(s, p + q, i);
    assert s[i..i + |p|] == (p + q)[..|p|];
    assert StartsAt(s, p, i);
  }

  /** A text without `{key:` is returned by the scan as it is. */
  lemma ExpandAbsent(value: string, key: string, arg: string, xf: Transform)
    requires '{' !in arg && KeepsBraceFree(xf)
    requires !Occurs(value, Token(key))
    ensures Expand(value, 0, key, arg, xf) == Ok(value)
  {
    assert forall i | 0 <= i <= |value| :: !StartsAt(value, Token(key), i);
    assert StrPos(value, Token(key), 0).None?;
    assert StepAt(value, 0, key, arg, xf) == Done(value);
  }

  /** Text containing no `{k` for any argument name `k` comes back
      unchanged. */
  lemma {:induction false} SubstituteUntouched(value: string, args: seq<(string, string)>, xf: Transform)
    requires BraceFreeArgs(args) && KeepsBraceFree(xf)
    requires forall i :: 0 <= i < |args| ==> !Occurs(value, "{" + args[i].0)
    ensures Substitute(value, args, xf) == Ok(value)
    decreases |args|
  {
    if args != [] {
      var (key, arg) := args[0];
      assert !Occurs(value, "{" + key);
      if Occurs(value, "{" + key + "}") {
        OccursPrefix(value, "{" + key, "}");
      }
      ReplaceAllAbsent(value, "{" + key + "}", arg);
      if Occurs(value, Token(key)) {
        OccursPrefix(value, "{" + key, ":");
      }
      ExpandAbsent(value, key, arg, xf);
      SubstituteUntouched(value, args[1..], xf);
    }
  }

  /** A text without `{` holds no directive. */
  lemma NoBraceNoToken(value: string, key: string)
    requires '{' !in value
    ensures !Occurs(value, Token(key))
  {
    forall i | 0 <= i < |value| ensures !StartsAt(value, Token(key), i) {
      assert value[i] in value;
      assert value[i] != Token(key)[0];
    }
  }

  // ---------------------------------------------------------------------
  // Single directives, in any surrounding text
  // ---------------------------------------------------------------------

  /** A text whose last character is a backslash. */
  predicate EndsInBackslash(s: string) {
    |s| > 0 && s[|s| - 1] == '\\'
  }

  /** Text ending so that a `{` right after it is escaped: one backslash,
      not two. */
  predicate EscapesNext(a: string) {
    EndsInBackslash(a) && (|a| == 1 || a[|a| - 2] != '\\')
  }

  /** The escape test at a join: only the text before the brace matters. */
  lemma EscapedAtJoin(a: string, b: string)
    requires |b| > 0
    ensures Escaped(a + b, |a|) <==> EscapesNext(a)
  {
    if |a| > 0 {
      assert (a + b)[|a| - 1] == a[|a| - 1];
    }
    if |a| > 1 {
      assert (a + b)[|a| - 2] == a[|a| - 2];
    }
  }

  /** `{name`, a character `c`, then `tail`: how placeholders `{name}` and
      directives `{name:method}` begin. */
  function Braced(name: string, c: char, tail: string): string {
    "{" + name + [c] + tail
  }

  /** A name that reads unambiguously inside `{name}` and `{name:method}`. */
  predicate NameOk(n: string) {
    '{' !in n && '}' !in n && ':' !in n
  }

  /** A mismatch at offset `i` of the pattern rules out an occurrence at `at`. */
  lemma MismatchAt(s: string, pat: string, at: nat, i: nat)
    requires i < |pat| && at + i < |s| && s[at + i] != pat[i]
    ensures !StartsAt(s, pat, at)
  {
    assert at + |pat| > |s| || s[at..at + |pat|][i] != pat[i];
  }

  lemma NoBraceNoStart(s: string, pat: string, i: nat)
    requires |pat| > 0 && pat[0] == '{' && i < |s| && s[i] != '{'
    ensures !StartsAt(s, pat, i)
  {
    MismatchAt(s, pat, i, 0);
  }

  lemma StartsAtShift(x: string, y: string, pat: string, i: nat)
    ensures StartsAt(x + y, pat, |x| + i) <==> StartsAt(y, pat, i)
  {
    if |x| + i + |pat| <= |x + y| {
      assert (x + y)[|x| + i..|x| + i + |pat|] == y[i..i + |pat|];
    }
  }

  /** `{j` then `c` begins `{k` then `d` only when the names and the
      characters agree: a key never matches inside a longer or shorter
      name. */
  lemma NameMismatch(j: string, c: char, rest: string, k: string, d: char)
    requires NameOk(j) && NameOk(k) && (c == '}' || c == ':') && (d == '}' || d == ':')
    requires j != k || c != d
    ensures !StartsAt(Braced(j, c, rest), "{" + k + [d], 0)
  {
    var s := Braced(j, c, rest);
    var pat := "{" + k + [d];
    if |k| < |j| {
      assert s[1 + |k|] == j[|k|] && j[|k|] in j;
      MismatchAt(s, pat, 0, 1 + |k|);
    } else if |k| > |j| {
      assert pat[1 + |j|] == k[|j|] && k[|j|] in k;
      MismatchAt(s, pat, 0, 1 + |j|);
    } else if j != k {
      var t :| 0 <= t < |k| && j[t] != k[t];
      assert s[1 + t] == j[t] && pat[1 + t] == k[t];
      MismatchAt(s, pat, 0, 1 + t);
    } else {
      MismatchAt(s, pat, 0, 1 + |k|);
    }
  }

  /** After its opening brace a braced piece holds no further `{`. */
  lemma BraceOnlyAtStart(n: string, c: char, tail: string)
    requires '{' !in n && c != '{' && '{' !in tail
    ensures forall i :: 1 <= i < |Braced(n, c, tail)| ==> Braced(n, c, tail)[i] != '{'
  {
    var x := Braced(n, c, tail);
    forall i | 1 <= i < |x| ensures x[i] != '{' {
      if i <= |n| {
        assert x[i] == n[i - 1] && n[i - 1] in n;
      } else if i > |n| + 1 {
        assert x[i] == tail[i - |n| - 2] && tail[i - |n| - 2] in tail;
      }
    }
  }

  /** In `{n:m}` the only `}` is the last character. */
  lemma DirectiveCloses(n: string, m: string)
    requires '}' !in n && '}' !in m
    ensures forall i :: 0 <= i < |Braced(n, ':', m + "}")| - 1 ==> Braced(n, ':', m + "}")[i] != '}'
  {
    var x := Braced(n, ':', m + "}");
    forall i | 0 <= i < |x| - 1 ensures x[i] != '}' {
      if 1 <= i <= |n| {
        assert x[i] == n[i - 1] && n[i - 1] in n;
      } else if i > |n| + 1 {
        assert x[i] == m[i - |n| - 2] && m[i - |n| - 2] in m;
      }
    }
  }

  /** No `{key:` starts in `value` at an offset in `[from, to)`. */
  ghost predicate NoTokenBetween(value: string, key: string, from: nat, to: nat) {
    forall i :: from <= i < to ==> !StartsAt(value, Token(key), i)
  }

  /** A scan that finds no `{key:` returns the text unchanged. */
  lemma ExpandNoToken(value: string, pos: nat, key: string, arg: string, xf: Transform)
    requires '{' !in arg && KeepsBraceFree(xf)
    requires pos <= |value| && NoTokenBetween(value, key, pos, |value|)
    ensures Expand(value, pos, key, arg, xf) == Ok(value)
  {
    assert StrPos(value, Token(key), pos).None?;
    assert StepAt(value, pos, key, arg, xf) == Done(value);
  }

  /** A brace-free stretch of text holds no `{key:`. */
  lemma BraceFreeNoToken(value: string, key: string, from: nat, to: nat)
    requires from <= to <= |value|
    requires forall i :: from <= i < to ==> value[i] != '{'
    ensures NoTokenBetween(value, key, from, to)
  {
    forall i | from <= i < to ensures !StartsAt(value, Token(key), i) {
      NoBraceNoStart(value, Token(key), i);
    }
  }

  /** The method the code cuts out of a directive written with `m`: all but
      its last character. */
  function Cut(m: string): string {
    if |m| == 0 then m else m[..|m| - 1]
  }

  /** One pass that finds an unescaped directive closed at `p2`. */
  lemma StepSplices(value: string, pos: nat, key: string, arg: string, xf: Transform, p: nat, p2: nat, t: string)
    requires pos <= |value| && StrPos(value, Token(key), pos) == Some(p) && !Escaped(value, p)
    requires StrPos(value, "}", p) == Some(p2)
    requires xf(arg, DirectiveMethod(value, p, p2, key)) == Ok(t)
    ensures StepAt(value, pos, key, arg, xf) == Next(value[..p] + t + value[p2 + 1..], p + 1)
  {
  }

  /** One pass that finds an escaped directive. */
  lemma StepSkips(value: string, pos: nat, key: string, arg: string, xf: Transform, p: nat)
    requires pos <= |value| && StrPos(value, Token(key), pos) == Some(p) && Escaped(value, p)
    ensures StepAt(value, pos, key, arg, xf) == Next(value, p + 1)
  {
  }

  /** The `{key:` of a directive that follows `a` is found at `|a|`. */
  lemma TokenFound(a: string, pos: nat, key: string, m: string, rest: string)
    requires pos <= |a|
    requires NoTokenBetween(a + Braced(key, ':', m) + rest, key, pos, |a|)
    ensures StrPos(a + Braced(key, ':', m) + rest, Token(key), pos) == Some(|a|)
  {
    var value := a + Braced(key, ':', m) + rest;
    assert value[|a|..|a| + |Token(key)|] == Token(key);
    StrPosFirst(value, Token(key), pos, |a|);
  }

  /** The first `}` from a directive's start is its own closing brace. */
  lemma ClosingFound(a: string, key: string, m: string, rest: string)
    requires '}' !in key && '}' !in m
    ensures StrPos(a + Braced(key, ':', m + "}") + rest, "}", |a|) ==
      Some(|a| + |Braced(key, ':', m + "}")| - 1)
  {
    var d := Braced(key, ':', m + "}");
    var value := a + d + rest;
    var p2 := |a| + |d| - 1;
    DirectiveCloses(key, m);
    forall i | |a| <= i < p2 ensures !StartsAt(value, "}", i) {
      assert value[i] == d[i - |a|];
      MismatchAt(value, "}", i, 0);
    }
    assert value[p2..p2 + 1] == "}";
    StrPosFirst(value, "}", |a|, p2);
  }

  /** The code's method for a directive `{key:m}` is `m` less its last
      character. */
  lemma MethodFound(a: string, key: string, m: string, rest: string)
    requires |m| > 0
    ensures DirectiveMethod(a + Braced(key, ':', m + "}") + rest, |a|, |a| + |Braced(key, ':', m + "}")| - 1, key) == Cut(m)
  {
    var value := a + Braced(key, ':', m + "}") + rest;
    var offset := |a| + 2 + |key|;
    assert value[offset..offset + |m| - 1] == Cut(m);
  }

  lemma AroundDirective(a: string, d: string, rest: string)
    requires |d| > 0
    ensures (a + d + rest)[..|a|] == a && (a + d + rest)[|a| + |d|..] == rest
  {
  }

  /** One pass at an unescaped `{key:m}` that follows `a`, with no other
      `{key:` before it from `pos` on: the transform of the argument for
      `Cut(m)` replaces the directive and the scan resumes one character
      after the directive's start. */
  lemma DirectiveStep(a: string, pos: nat, key: string, m: string, rest: string, arg: string, xf: Transform, t: string)
    requires NameOk(key) && '}' !in m && |m| > 0
    requires pos <= |a| && !EscapesNext(a)
    requires NoTokenBetween(a + Braced(key, ':', m + "}") + rest, key, pos, |a|)
    requires xf(arg, Cut(m)) == Ok(t)
    ensures StepAt(a + Braced(key, ':', m + "}") + rest, pos, key, arg, xf) == Next(a + t + rest, |a| + 1)
  {
    var d := Braced(key, ':', m + "}");
    var value := a + d + rest;
    TokenFound(a, pos, key, m + "}", rest);
    assert value == a + (d + rest);
    EscapedAtJoin(a, d + rest);
    ClosingFound(a, key, m, rest);
    MethodFound(a, key, m, rest);
    StepSplices(value, pos, key, arg, xf, |a|, |a| + |d| - 1, t);
    AroundDirective(a, d, rest);
  }

  /** One pass at an escaped `\{key:m}` after `a`: the text stays and the
      scan resumes one character after the brace. */
  lemma EscapedStep(a: string, pos: nat, key: string, m: string, rest: string, arg: string, xf: Transform)
    requires pos <= |a| && EscapesNext(a)
    requires NoTokenBetween(a + Braced(key, ':', m + "}") + rest, key, pos, |a|)
    ensures StepAt(a + Braced(key, ':', m + "}") + rest, pos, key, arg, xf) ==
      Next(a + Braced(key, ':', m + "}") + rest, |a| + 1)
  {
    var d := Braced(key, ':', m + "}");
    var value := a + d + rest;
    TokenFound(a, pos, key, m + "}", rest);
    assert value == a + (d + rest);
    EscapedAtJoin(a, d + rest);
    StepSkips(value, pos, key, arg, xf, |a|);
  }

  /** A stretch of brace-free text holds no `{key:`. */
  lemma SpanNoToken(x: string, y: string, z: string, key: string)
    requires '{' !in y
    ensures NoTokenBetween(x + y + z, key, |x|, |x| + |y|)
  {
    var v := x + y + z;
    forall i | |x| <= i < |x| + |y| ensures v[i] != '{' {
      assert v[i] == y[i - |x|] && y[i - |x|] in y;
    }
    BraceFreeNoToken(v, key, |x|, |x| + |y|);
  }

  /** After `a`, brace-free text holds no `{key:`. */
  lemma TailNoToken(a: string, t: string, b: string, key: string)
    requires '{' !in t && '{' !in b
    ensures NoTokenBetween(a + t + b, key, |a|, |a + t + b|)
  {
    var v := a + t + b;
    forall i | |a| <= i < |v| ensures v[i] != '{' {
      if i < |a| + |t| {
        assert v[i] == t[i - |a|] && t[i - |a|] in t;
      } else {
        assert v[i] == b[i - |a| - |t|] && b[i - |a| - |t|] in b;
      }
    }
    BraceFreeNoToken(v, key, |a|, |v|);
  }

  /** The scan after one pass continues where that pass left it. */
  lemma ExpandThrough(value: string, pos: nat, key: string, arg: string, xf: Transform, v: string, p: nat)
    requires '{' !in arg && KeepsBraceFree(xf)
    requires pos <= |value| && StepAt(value, pos, key, arg, xf) == Next(v, p)
    ensures Expand(value, pos, key, arg, xf) == Expand(v, p, key, arg, xf)
  {
  }

  /** A pass after which no `{key:` is left: the text it produced, or
      `strpos`'s ValueError when it left the offset past the end. */
  lemma ExpandAfterStep(value: string, pos: nat, key: string, arg: string, xf: Transform, v: string, p: nat)
    requires '{' !in arg && KeepsBraceFree(xf)
    requires pos <= |value| && StepAt(value, pos, key, arg, xf) == Next(v, p)
    requires p <= |v| ==> NoTokenBetween(v, key, p, |v|)
    ensures Expand(value, pos, key, arg, xf) == if p > |v| then Err(ValueError) else Ok(v)
  {
    ExpandThrough(value, pos, key, arg, xf, v, p);
    if p <= |v| {
      ExpandNoToken(v, p, key, arg, xf);
    }
  }

  /** A single unescaped directive `{key:m}` in brace-free text is replaced
      by the transform of the argument for `m` less its last character;
      when that leaves the scan offset past the end of the text (an empty
      result with nothing after it), `strpos` throws. */
  lemma DirectiveReplaced(a: string, key: string, m: string, b: string, arg: string, xf: Transform, t: string)
    requires '{' !in arg && KeepsBraceFree(xf) && NameOk(key)
    requires '{' !in a && '{' !in b && '}' !in m && |m| > 0 && !EscapesNext(a)
    requires xf(arg, Cut(m)) == Ok(t)
    ensures Expand(a + Braced(key, ':', m + "}") + b, 0, key, arg, xf) ==
      if |t| + |b| == 0 then Err(ValueError) else Ok(a + t + b)
  {
    var d := Braced(key, ':', m + "}");
    SpanNoToken("", a, d + b, key);
    assert "" + a + (d + b) == a + d + b;
    DirectiveStep(a, 0, key, m, b, arg, xf, t);
    assert '{' !in t;
    TailNoToken(a, t, b, key);
    ExpandAfterStep(a + d + b, 0, key, arg, xf, a + t + b, |a| + 1);
  }

  /** A directive after a single backslash, in brace-free text, is left as
      it is. */
  lemma EscapedDirectiveKept(a: string, key: string, m: string, b: string, arg: string, xf: Transform)
    requires '{' !in arg && KeepsBraceFree(xf) && NameOk(key)
    requires '{' !in a && '{' !in b && '{' !in m && EscapesNext(a)
    ensures Expand(a + Braced(key, ':', m + "}") + b, 0, key, arg, xf) ==
      Ok(a + Braced(key, ':', m + "}") + b)
  {
    var d := Braced(key, ':', m + "}");
    SpanNoToken("", a, d + b, key);
    assert "" + a + (d + b) == a + d + b;
    EscapedStep(a, 0, key, m, b, arg, xf);
    AfterBrace(a, key, m, b);
    SuffixNoToken(a + d, b, key);
    JoinNoToken(a + d + b, key, |a| + 1, |a + d|, |a + d + b|);
    ExpandAfterStep(a + d + b, 0, key, arg, xf, a + d + b, |a| + 1);
  }

  /** Past its opening brace a directive holds no `{`. */
  lemma AfterBrace(a: string, key: string, m: string, b: string)
    requires '{' !in key && '{' !in m
    ensures NoTokenBetween(a + Braced(key, ':', m + "}") + b, key, |a| + 1, |a| + |Braced(key, ':', m + "}")|)
  {
    var d := Braced(key, ':', m + "}");
    BraceOnlyAtStart(key, ':', m + "}");
    assert '{' !in d[1..];
    SpanNoToken(a + [d[0]], d[1..], b, key);
    assert a + [d[0]] + d[1..] == a + d;
  }

  lemma SuffixNoToken(x: string, y: string, key: string)
    requires '{' !in y
    ensures NoTokenBetween(x + y, key, |x|, |x + y|)
  {
    forall i | |x| <= i < |x + y| ensures (x + y)[i] != '{' {
      assert (x + y)[i] == y[i - |x|] && y[i - |x|] in y;
    }
    BraceFreeNoToken(x + y, key, |x|, |x + y|);
  }

  /** A placeholder `{key}` reads as the argument wherever it stands: a
      backslash in front does not protect it, only directives honour the
      escape. */
  lemma PlaceholderReplaced(a: string, key: string, b: string, arg: string, xf: Transform)
    requires '{' !in a && '{' !in b && '{' !in arg && KeepsBraceFree(xf)
    ensures Substitute(a + "{" + key + "}" + b, [(key, arg)], xf) == Ok(a + arg + b)
  {
    var v := a + arg + b;
    HoleReplaced(a, key, b, arg);
    assert '{' !in v;
    NoBraceNoToken(v, key);
    ExpandAbsent(v, key, arg, xf);
    SubstituteStep(a + "{" + key + "}" + b, [(key, arg)], xf, v);
    assert [(key, arg)][1..] == [];
  }

  /** `str_replace` makes one pass and does not rescan what it wrote, so
      a placeholder can survive it, even with a brace-free argument. */
  lemma PlaceholderCanRemain()
    ensures ReplaceAll("{{k}k}", "{k}", "") == "{k}"
  {
    var s := "{{k}k}";
    assert s[..3][1] == '{' && "{k}"[1] == 'k';
    assert s[1..] == "{k}k}" && s[1..][..3] == "{k}";
    assert s[1..][3..] == "k}";
    assert ReplaceAll("k}", "{k}", "") == "k}";
    assert ReplaceAll(s[1..], "{k}", "") == "k}";
    assert [s[0]] + "k}" == "{k}";
  }

  lemma HoleReplaced(a: string, key: string, b: string, arg: string)
    requires '{' !in a && '{' !in b
    ensures ReplaceAll(a + "{" + key + "}" + b, "{" + key + "}", arg) == a + arg + b
  {
    var pat := "{" + key + "}";
    assert a + "{" + key + "}" + b == a + (pat + b);
    ReplaceAllSkip(a, pat + b, pat, arg);
    ReplaceAllHead(pat, b, arg);
    ReplaceAllSkip(b, "", pat, arg);
    assert b + "" == b && ReplaceAll("", pat, arg) == "";
  }

  // ---------------------------------------------------------------------
  // Whole messages
  // ---------------------------------------------------------------------

  /** A message cut into pieces: literal text, placeholders `{name}`,
      directives `{name:method}` and escaped directives `\{name:method}`. */
  datatype Piece = Text(text: string) | Hole(name: string) | Dir(name: string, how: string) | Esc(name: string, how: string)

  function PieceText(q: Piece): string {
    match q
    case Text(s) => s
    case Hole(n) => Braced(n, '}', "")
    case Dir(n, m) => Braced(n, ':', m + "}")
    case Esc(n, m) => "\\" + Braced(n, ':', m + "}")
  }

  /** The message text the pieces spell. */
  function Render(qs: seq<Piece>): string
    decreases |qs|
  {
    if qs == [] then "" else PieceText(qs[0]) + Render(qs[1..])
  }

  /** Pieces that read back unambiguously: literal text with no `{` and no
      trailing backslash (which would escape what follows), names without
      `{`, `}` or `:`, methods without braces, directive methods of at
      least one character. */
  predicate PieceOk(q: Piece) {
    match q
    case Text(s) => '{' !in s && !EndsInBackslash(s)
    case Hole(n) => NameOk(n)
    case Dir(n, m) => NameOk(n) && |m| > 0 && '{' !in m && '}' !in m
    case Esc(n, m) => NameOk(n) && '{' !in m && '}' !in m
  }

  ghost predicate AllOk(qs: seq<Piece>) {
    forall i :: 0 <= i < |qs| ==> PieceOk(qs[i])
  }

  /** `$args[$name]`, the first argument of that name. */
  function Lookup(args: seq<(string, string)>, name: string): (r: Option<string>)
    ensures r.Some? ==> (name, r.value) in args
    ensures r.None? ==> forall i :: 0 <= i < |args| ==> args[i].0 != name
    decreases |args|
  {
    if args == [] then None
    else if args[0].0 == name then Some(args[0].1)
    else Lookup(args[1..], name)
  }

  /** A transform result that can be spliced without changing how the
      rest reads: it succeeds, is not empty, and does not end in a
      backslash. */
  predicate Spliceable(r: Result<string, Error>) {
    r.Ok? && |r.value| > 0 && !EndsInBackslash(r.value)
  }

  function TextOf(r: Result<string, Error>): string {
    if r.Ok? then r.value else ""
  }

  /** Argument names that read unambiguously, values that do not end in a
      backslash. */
  ghost predicate ArgsOk(args: seq<(string, string)>) {
    forall e :: e in args ==> NameOk(e.0) && !EndsInBackslash(e.1)
  }

  /** Every directive with an argument transforms to spliceable text. */
  ghost predicate ResultsOk(qs: seq<Piece>, args: seq<(string, string)>, xf: Transform) {
    forall i :: 0 <= i < |qs| && qs[i].Dir? && Lookup(args, qs[i].name).Some? ==>
      Spliceable(xf(Lookup(args, qs[i].name).value, Cut(qs[i].how)))
  }

  /** What a piece reads as once the arguments are in: a placeholder with an
      argument reads as the argument, a directive with an argument as the
      argument transformed by its (cut) method; everything else as it is
      written. */
  function PieceOut(q: Piece, args: seq<(string, string)>, xf: Transform): string {
    match q
    case Text(s) => s
    case Hole(n) => if Lookup(args, n).Some? then Lookup(args, n).value else PieceText(q)
    case Dir(n, m) =>
      if Lookup(args, n).Some? then TextOf(xf(Lookup(args, n).value, Cut(m))) else PieceText(q)
    case Esc(_, _) => PieceText(q)
  }

  function Output(qs: seq<Piece>, args: seq<(string, string)>, xf: Transform): string
    decreases |qs|
  {
    if qs == [] then "" else PieceOut(qs[0], args, xf) + Output(qs[1..], args, xf)
  }

  /** The `str_replace` of one placeholder, piece by piece. */
  function FillPiece(q: Piece, key: string, arg: string): Piece {
    if q == Hole(key) then Text(arg) else q
  }

  function Fill(qs: seq<Piece>, key: string, arg: string): (r: seq<Piece>)
    ensures |r| == |qs|
  {
    seq(|qs|, i requires 0 <= i < |qs| => FillPiece(qs[i], key, arg))
  }

  /** The directive scan of one key, piece by piece. */
  function ApplyPiece(q: Piece, key: string, arg: string, xf: Transform): Piece {
    if q.Dir? && q.name == key then Text(TextOf(xf(arg, Cut(q.how)))) else q
  }

  function Apply(qs: seq<Piece>, key: string, arg: string, xf: Transform): (r: seq<Piece>)
    ensures |r| == |qs|
  {
    seq(|qs|, i requires 0 <= i < |qs| => ApplyPiece(qs[i], key, arg, xf))
  }

  lemma FillCons(qs: seq<Piece>, key: string, arg: string)
    requires qs != []
    ensures Render(Fill(qs, key, arg)) == PieceText(FillPiece(qs[0], key, arg)) + Render(Fill(qs[1..], key, arg))
  {
    assert Fill(qs, key, arg)[1..] == Fill(qs[1..], key, arg);
  }

  lemma ApplyCons(qs: seq<Piece>, key: string, arg: string, xf: Transform)
    requires qs != []
    ensures Render(Apply(qs, key, arg, xf)) == PieceText(ApplyPiece(qs[0], key, arg, xf)) + Render(Apply(qs[1..], key, arg, xf))
  {
    assert Apply(qs, key, arg, xf)[1..] == Apply(qs[1..], key, arg, xf);
  }

  lemma {:induction false} OutputAgrees(xs: seq<Piece>, ys: seq<Piece>, argsX: seq<(string, string)>, argsY: seq<(string, string)>, xf: Transform)
    requires |xs| == |ys|
    requires forall i :: 0 <= i < |xs| ==> PieceOut(xs[i], argsX, xf) == PieceOut(ys[i], argsY, xf)
    ensures Output(xs, argsX, xf) == Output(ys, argsY, xf)
    decreases |xs|
  {
    if xs != [] {
      OutputAgrees(xs[1..], ys[1..], argsX, argsY, xf);
    }
  }

  lemma {:induction false} RenderIsOutput(qs: seq<Piece>, xf: Transform)
    ensures Output(qs, [], xf) == Render(qs)
    decreases |qs|
  {
    if qs != [] {
      RenderIsOutput(qs[1..], xf);
    }
  }

  /** `str_replace("{key}", arg, ...)` over a message: only the
      placeholders of that key change. */
  lemma {:induction false} FillPieces(qs: seq<Piece>, key: string, arg: string)
    requires NameOk(key) && AllOk(qs)
    ensures ReplaceAll(Render(qs), "{" + key + "}", arg) == Render(Fill(qs, key, arg))
    decreases |qs|
  {
    if qs != [] {
      FillPieces(qs[1..], key, arg);
      FillHead(qs[0], Render(qs[1..]), key, arg);
      FillCons(qs, key, arg);
    }
  }

  /** The replacement over one piece and what follows it. */
  lemma FillHead(q: Piece, rest: string, key: string, arg: string)
    requires NameOk(key) && PieceOk(q)
    ensures ReplaceAll(PieceText(q) + rest, "{" + key + "}", arg) ==
      PieceText(FillPiece(q, key, arg)) + ReplaceAll(rest, "{" + key + "}", arg)
  {
    var pat := "{" + key + "}";
    match q
    case Text(s) =>
      ReplaceAllSkip(s, rest, pat, arg);
    case Hole(n) =>
      if n == key {
        assert PieceText(q) == pat;
        ReplaceAllHead(pat, rest, arg);
      } else {
        BracedSkip(n, '}', "", rest, key, arg);
      }
    case Dir(n, m) =>
      BracedSkip(n, ':', m + "}", rest, key, arg);
    case Esc(n, m) =>
      EscapedSkip(n, m, rest, key, arg);
  }

  lemma EscapedSkip(n: string, m: string, rest: string, key: string, arg: string)
    requires NameOk(n) && NameOk(key) && '{' !in m
    ensures ReplaceAll(PieceText(Esc(n, m)) + rest, "{" + key + "}", arg) ==
      PieceText(Esc(n, m)) + ReplaceAll(rest, "{" + key + "}", arg)
  {
    var pat := "{" + key + "}";
    var y := Braced(n, ':', m + "}");
    BracedSkip(n, ':', m + "}", rest, key, arg);
    ReplaceAllSkip("\\", y + rest, pat, arg);
    Assoc("\\", y, rest);
    Assoc("\\", y, ReplaceAll(rest, pat, arg));
  }

  lemma BracedSkip(n: string, c: char, tail: string, rest: string, key: string, arg: string)
    requires NameOk(n) && NameOk(key) && (c == '}' || c == ':') && '{' !in tail
    requires n != key || c != '}'
    ensures ReplaceAll(Braced(n, c, tail) + rest, "{" + key + "}", arg) ==
      Braced(n, c, tail) + ReplaceAll(rest, "{" + key + "}", arg)
  {
    var body := n + [c] + tail;
    assert Braced(n, c, tail) == "{" + body;
    assert Braced(n, c, tail + rest) == "{" + body + rest;
    NameMismatch(n, c, tail + rest, key, '}');
    BraceHeadSkip(body, rest, "{" + key + "}", arg);
  }

  /** A `{` at which the pattern does not start, followed by brace-free
      text, is copied as it is. */
  lemma BraceHeadSkip(body: string, rest: string, pat: string, rep: string)
    requires |pat| > 0 && pat[0] == '{' && '{' !in body
    requires !StartsAt("{" + body + rest, pat, 0)
    ensures ReplaceAll("{" + body + rest, pat, rep) == "{" + body + ReplaceAll(rest, pat, rep)
  {
    var s := "{" + body + rest;
    ReplaceAllNoMatchHead(s, pat, rep);
    assert s[1..] == body + rest;
    ReplaceAllSkip(body, rest, pat, rep);
    Assoc("{", body, ReplaceAll(rest, pat, rep));
  }

  /** No piece other than a directive of `key` holds a `{key:`. */
  lemma PieceNoToken(q: Piece, rest: string, key: string)
    requires NameOk(key) && PieceOk(q)
    requires !((q.Dir? || q.Esc?) && q.name == key)
    ensures NoTokenBetween(PieceText(q) + rest, key, 0, |PieceText(q)|)
  {
    var x := PieceText(q);
    match q
    case Text(s) =>
      forall i | 0 <= i < |s| ensures (s + rest)[i] != '{' {
        assert (s + rest)[i] == s[i] && s[i] in s;
      }
      BraceFreeNoToken(s + rest, key, 0, |s|);
    case Hole(n) =>
      BracedNoToken(n, '}', "", rest, key);
    case Dir(n, m) =>
      BracedNoToken(n, ':', m + "}", rest, key);
    case Esc(n, m) =>
      var y := Braced(n, ':', m + "}");
      BracedNoToken(n, ':', m + "}", rest, key);
      assert x + rest == "\\" + (y + rest);
      forall i | 0 <= i < |x| ensures !StartsAt(x + rest, Token(key), i) {
        if i == 0 {
          NoBraceNoStart(x + rest, Token(key), 0);
        } else {
          StartsAtShift("\\", y + rest, Token(key), i - 1);
        }
      }
  }

  lemma BracedNoToken(n: string, c: char, tail: string, rest: string, key: string)
    requires NameOk(n) && NameOk(key) && (c == '}' || c == ':') && '{' !in tail
    requires n != key || c != ':'
    ensures NoTokenBetween(Braced(n, c, tail) + rest, key, 0, |Braced(n, c, tail)|)
  {
    var x := Braced(n, c, tail);
    BraceOnlyAtStart(n, c, tail);
    forall i | 0 <= i < |x| ensures !StartsAt(x + rest, Token(key), i) {
      if i == 0 {
        assert x + rest == Braced(n, c, tail + rest);
        assert Token(key) == "{" + key + [':'];
        NameMismatch(n, c, tail + rest, key, ':');
      } else {
        assert (x + rest)[i] == x[i];
        NoBraceNoStart(x + rest, Token(key), i);
      }
    }
  }

  /** Directives of `key` transform to spliceable text. */
  ghost predicate KeyResultsOk(qs: seq<Piece>, key: string, arg: string, xf: Transform) {
    forall i :: 0 <= i < |qs| && qs[i].Dir? && qs[i].name == key ==> Spliceable(xf(arg, Cut(qs[i].how)))
  }

  lemma Assoc(x: string, y: string, z: string)
    ensures x + y + z == x + (y + z)
  {
  }

  lemma Regroup(w: string, x: string, y: string, z: string)
    ensures w + (x + y + z) == w + x + y + z
    ensures w + (x + y) + z == w + x + y + z
  {
  }

  /** The no-`{key:` ranges of a text join up. */
  lemma JoinNoToken(value: string, key: string, i: nat, j: nat, k: nat)
    requires NoTokenBetween(value, key, i, j) && NoTokenBetween(value, key, j, k)
    ensures NoTokenBetween(value, key, i, k)
  {
  }

  lemma ShiftNoToken(x: string, y: string, key: string, i: nat, j: nat)
    requires NoTokenBetween(y, key, i, j)
    ensures NoTokenBetween(x + y, key, |x| + i, |x| + j)
  {
    forall k | |x| + i <= k < |x| + j ensures !StartsAt(x + y, Token(key), k) {
      StartsAtShift(x, y, Token(key), k - |x|);
    }
  }

  /** A well-formed piece never leaves a trailing backslash behind. */
  lemma AppendPiece(x: string, q: Piece)
    requires PieceOk(q) && !EndsInBackslash(x)
    ensures !EndsInBackslash(x + PieceText(q))
  {
    var y := PieceText(q);
    if |y| > 0 {
      assert (x + y)[|x + y| - 1] == y[|y| - 1];
      match q
      case Text(_) =>
      case Hole(n) => assert y[|y| - 1] == '}';
      case Dir(n, m) => assert y[|y| - 1] == '}';
      case Esc(n, m) => assert y[|y| - 1] == '}';
    } else {
      assert x + y == x;
    }
  }

  lemma TailOk(qs: seq<Piece>, key: string, arg: string, xf: Transform)
    requires qs != [] && AllOk(qs) && KeyResultsOk(qs, key, arg, xf)
    ensures AllOk(qs[1..]) && KeyResultsOk(qs[1..], key, arg, xf) && PieceOk(qs[0])
  {
    assert forall i :: 1 <= i < |qs| ==> qs[1..][i - 1] == qs[i];
  }

  /** The scan of one key over the rest of a message, after the part `done`
      in which no `{key:` is left from `pos` on. */
  lemma {:induction false} ScanPieces(done: string, pos: nat, qs: seq<Piece>, key: string, arg: string, xf: Transform)
    requires '{' !in arg && KeepsBraceFree(xf) && NameOk(key)
    requires pos <= |done| && !EndsInBackslash(done)
    requires NoTokenBetween(done + Render(qs), key, pos, |done|)
    requires AllOk(qs) && KeyResultsOk(qs, key, arg, xf)
    ensures Expand(done + Render(qs), pos, key, arg, xf) == Ok(done + Render(Apply(qs, key, arg, xf)))
    decreases |qs|, 2
  {
    if qs == [] {
      assert done + Render(qs) == done;
      ExpandNoToken(done, pos, key, arg, xf);
    } else if qs[0].Dir? && qs[0].name == key {
      ScanDirective(done, pos, qs, key, arg, xf);
    } else if qs[0].Esc? && qs[0].name == key {
      ScanEscaped(done, pos, qs, key, arg, xf);
    } else {
      ScanOther(done, pos, qs, key, arg, xf);
    }
  }

  lemma {:induction false} ScanDirective(done: string, pos: nat, qs: seq<Piece>, key: string, arg: string, xf: Transform)
    requires '{' !in arg && KeepsBraceFree(xf) && NameOk(key)
    requires pos <= |done| && !EndsInBackslash(done)
    requires NoTokenBetween(done + Render(qs), key, pos, |done|)
    requires AllOk(qs) && KeyResultsOk(qs, key, arg, xf)
    requires |qs| > 0 && qs[0].Dir? && qs[0].name == key
    ensures Expand(done + Render(qs), pos, key, arg, xf) == Ok(done + Render(Apply(qs, key, arg, xf)))
    decreases |qs|, 0
  {
    var m := qs[0].how;
    var rest := qs[1..];
    var R := Render(rest);
    var d := Braced(key, ':', m + "}");
    TailOk(qs, key, arg, xf);
    assert Spliceable(xf(arg, Cut(m)));
    var t := xf(arg, Cut(m)).value;
    assert '{' !in t;
    Assoc(done, d, R);
    DirectiveStep(done, pos, key, m, R, arg, xf, t);
    ExpandThrough(done + d + R, pos, key, arg, xf, done + t + R, |done| + 1);
    SpanNoToken(done, t, R, key);
    ScanPieces(done + t, |done| + 1, rest, key, arg, xf);
    ApplyCons(qs, key, arg, xf);
    Assoc(done, t, Render(Apply(rest, key, arg, xf)));
  }

  /** Past an escaped directive of `key`: the scan skips it and resumes
      after its `{`, with no `{key:` left inside it. */
  lemma EscapedAdvance(done: string, pos: nat, key: string, m: string, R: string, arg: string, xf: Transform)
    requires '{' !in arg && KeepsBraceFree(xf) && NameOk(key) && '{' !in m
    requires pos <= |done| && !EndsInBackslash(done)
    requires NoTokenBetween(done + ("\\" + Braced(key, ':', m + "}")) + R, key, pos, |done|)
    ensures Expand(done + ("\\" + Braced(key, ':', m + "}")) + R, pos, key, arg, xf) ==
      Expand(done + ("\\" + Braced(key, ':', m + "}")) + R, |done| + 2, key, arg, xf)
    ensures NoTokenBetween(done + ("\\" + Braced(key, ':', m + "}")) + R, key, |done| + 2,
      |done| + 1 + |Braced(key, ':', m + "}")|)
  {
    var d := Braced(key, ':', m + "}");
    var a := done + "\\";
    Regroup(done, "\\", d, R);
    var value := a + d + R;
    assert value[|done|] == '\\';
    NoBraceNoStart(value, Token(key), |done|);
    JoinNoToken(value, key, pos, |done|, |a|);
    EscapedStep(a, pos, key, m, R, arg, xf);
    ExpandThrough(value, pos, key, arg, xf, value, |a| + 1);
    AfterBrace(a, key, m, R);
  }

  lemma {:induction false} ScanEscaped(done: string, pos: nat, qs: seq<Piece>, key: string, arg: string, xf: Transform)
    requires '{' !in arg && KeepsBraceFree(xf) && NameOk(key)
    requires pos <= |done| && !EndsInBackslash(done)
    requires NoTokenBetween(done + Render(qs), key, pos, |done|)
    requires AllOk(qs) && KeyResultsOk(qs, key, arg, xf)
    requires |qs| > 0 && qs[0].Esc? && qs[0].name == key
    ensures Expand(done + Render(qs), pos, key, arg, xf) == Ok(done + Render(Apply(qs, key, arg, xf)))
    decreases |qs|, 0
  {
    var rest := qs[1..];
    var R := Render(rest);
    var x := PieceText(qs[0]);
    TailOk(qs, key, arg, xf);
    Assoc(done, x, R);
    EscapedAdvance(done, pos, key, qs[0].how, R, arg, xf);
    AppendPiece(done, qs[0]);
    ScanPieces(done + x, |done| + 2, rest, key, arg, xf);
    ApplyCons(qs, key, arg, xf);
    Assoc(done, x, Render(Apply(rest, key, arg, xf)));
  }

  lemma {:induction false} ScanOther(done: string, pos: nat, qs: seq<Piece>, key: string, arg: string, xf: Transform)
    requires '{' !in arg && KeepsBraceFree(xf) && NameOk(key)
    requires pos <= |done| && !EndsInBackslash(done)
    requires NoTokenBetween(done + Render(qs), key, pos, |done|)
    requires AllOk(qs) && KeyResultsOk(qs, key, arg, xf)
    requires |qs| > 0 && !((qs[0].Dir? || qs[0].Esc?) && qs[0].name == key)
    ensures Expand(done + Render(qs), pos, key, arg, xf) == Ok(done + Render(Apply(qs, key, arg, xf)))
    decreases |qs|, 0
  {
    var q := qs[0];
    var rest := qs[1..];
    var R := Render(rest);
    var x := PieceText(q);
    TailOk(qs, key, arg, xf);
    Assoc(done, x, R);
    PieceNoToken(q, R, key);
    ShiftNoToken(done, x + R, key, 0, |x|);
    JoinNoToken(done + Render(qs), key, pos, |done|, |done + x|);
    AppendPiece(done, q);
    ScanPieces(done + x, pos, rest, key, arg, xf);
    ApplyCons(qs, key, arg, xf);
    Assoc(done, x, Render(Apply(rest, key, arg, xf)));
  }

  /** The directive scan of one key over a whole message. */
  lemma ExpandPieces(qs: seq<Piece>, key: string, arg: string, xf: Transform)
    requires '{' !in arg && KeepsBraceFree(xf) && NameOk(key)
    requires AllOk(qs) && KeyResultsOk(qs, key, arg, xf)
    ensures Expand(Render(qs), 0, key, arg, xf) == Ok(Render(Apply(qs, key, arg, xf)))
  {
    assert "" + Render(qs) == Render(qs);
    ScanPieces("", 0, qs, key, arg, xf);
    assert "" + Render(Apply(qs, key, arg, xf)) == Render(Apply(qs, key, arg, xf));
  }

  /** The whole `foreach` over the arguments: every placeholder and every
      unescaped directive that has an argument reads as that argument
      (transformed, for a directive), and everything else reads as
      written. Arguments need not have distinct names: the first one of a
      name wins. */
  lemma {:induction false} SubstitutePieces(qs: seq<Piece>, args: seq<(string, string)>, xf: Transform)
    requires BraceFreeArgs(args) && ArgsOk(args) && KeepsBraceFree(xf)
    requires AllOk(qs) && ResultsOk(qs, args, xf)
    ensures Substitute(Render(qs), args, xf) == Ok(Output(qs, args, xf))
    decreases |args|
  {
    if args == [] {
      RenderIsOutput(qs, xf);
    } else {
      var key := args[0].0;
      var arg := args[0].1;
      FirstArgument(args);
      FillPieces(qs, key, arg);
      FilledOk(qs, args, xf);
      ExpandPieces(Fill(qs, key, arg), key, arg, xf);
      var next := Apply(Fill(qs, key, arg), key, arg, xf);
      SubstituteStep(Render(qs), args, xf, Render(next));
      PassedOk(qs, args, xf);
      SubstitutePieces(next, args[1..], xf);
      PassedOutput(qs, args, xf);
    }
  }

  lemma FirstArgument(args: seq<(string, string)>)
    requires args != [] && BraceFreeArgs(args) && ArgsOk(args)
    ensures '{' !in args[0].1 && NameOk(args[0].0)
    ensures BraceFreeArgs(args[1..]) && ArgsOk(args[1..])
  {
    assert args[0] in args;
    forall e | e in args[1..] ensures e in args {
    }
  }

  /** After the placeholders of the first argument are filled in, its
      directives all transform to spliceable text. */
  lemma FilledOk(qs: seq<Piece>, args: seq<(string, string)>, xf: Transform)
    requires args != [] && ArgsOk(args) && BraceFreeArgs(args)
    requires AllOk(qs) && ResultsOk(qs, args, xf)
    ensures AllOk(Fill(qs, args[0].0, args[0].1))
    ensures KeyResultsOk(Fill(qs, args[0].0, args[0].1), args[0].0, args[0].1, xf)
  {
    var filled := Fill(qs, args[0].0, args[0].1);
    assert args[0] in args;
    forall i | 0 <= i < |filled| && filled[i].Dir? && filled[i].name == args[0].0
      ensures Spliceable(xf(args[0].1, Cut(filled[i].how)))
    {
      assert filled[i] == qs[i];
    }
  }

  /** After one round the remaining arguments meet the same conditions. */
  lemma PassedOk(qs: seq<Piece>, args: seq<(string, string)>, xf: Transform)
    requires args != [] && ArgsOk(args) && BraceFreeArgs(args) && KeepsBraceFree(xf)
    requires AllOk(qs) && ResultsOk(qs, args, xf)
    ensures AllOk(Apply(Fill(qs, args[0].0, args[0].1), args[0].0, args[0].1, xf))
    ensures ResultsOk(Apply(Fill(qs, args[0].0, args[0].1), args[0].0, args[0].1, xf), args[1..], xf)
  {
    var key := args[0].0;
    var arg := args[0].1;
    var filled := Fill(qs, key, arg);
    var next := Apply(filled, key, arg, xf);
    assert args[0] in args;
    forall i | 0 <= i < |next| ensures PieceOk(next[i]) {
      if filled[i].Dir? && filled[i].name == key {
        assert filled[i] == qs[i];
      }
    }
    forall i | 0 <= i < |next| && next[i].Dir? && Lookup(args[1..], next[i].name).Some?
      ensures Spliceable(xf(Lookup(args[1..], next[i].name).value, Cut(next[i].how)))
    {
      assert next[i] == qs[i];
    }
  }

  /** One round changes the pieces but not what they finally read as. */
  lemma PassedOutput(qs: seq<Piece>, args: seq<(string, string)>, xf: Transform)
    requires args != [] && AllOk(qs) && ResultsOk(qs, args, xf)
    ensures Output(Apply(Fill(qs, args[0].0, args[0].1), args[0].0, args[0].1, xf), args[1..], xf) == Output(qs, args, xf)
  {
    var key := args[0].0;
    var arg := args[0].1;
    var next := Apply(Fill(qs, key, arg), key, arg, xf);
    forall i | 0 <= i < |qs| ensures PieceOut(next[i], args[1..], xf) == PieceOut(qs[i], args, xf) {
    }
    OutputAgrees(next, qs, args[1..], args, xf);
  }

  /** No two different arguments share a name, as with the keys of a PHP
      array. */
  ghost predicate UniqueNames(args: seq<(string, string)>) {
    forall e, f :: e in args && f in args && e.0 == f.0 ==> e == f
  }

  lemma {:induction false} LookupFindsMember(args: seq<(string, string)>, name: string, v: string)
    requires (name, v) in args
    ensures Lookup(args, name).Some?
    decreases |args|
  {
    if args[0].0 != name {
      assert (name, v) in args[1..];
      LookupFindsMember(args[1..], name, v);
    }
  }

  /** With unique names the order of the arguments does not matter to a
      lookup. */
  lemma LookupAgrees(args: seq<(string, string)>, other: seq<(string, string)>, name: string)
    requires forall e :: e in args <==> e in other
    requires UniqueNames(args)
    ensures Lookup(args, name) == Lookup(other, name)
  {
    var a := Lookup(args, name);
    var b := Lookup(other, name);
    if a.Some? {
      LookupFindsMember(other, name, a.value);
    }
    if b.Some? {
      LookupFindsMember(args, name, b.value);
    }
    if a.Some? && b.Some? {
      assert (name, b.value) in args;
    }
  }

  /** Reordering arguments with unique names changes neither the conditions
      nor what the message reads as. */
  lemma ReorderedArgs(args: seq<(string, string)>, other: seq<(string, string)>, qs: seq<Piece>, xf: Transform)
    requires forall e :: e in args <==> e in other
    requires UniqueNames(args) && ArgsOk(args) && ResultsOk(qs, args, xf)
    ensures ArgsOk(other) && ResultsOk(qs, other, xf)
    ensures Output(qs, other, xf) == Output(qs, args, xf)
  {
    forall i | 0 <= i < |qs| ensures PieceOut(qs[i], other, xf) == PieceOut(qs[i], args, xf) {
      if !qs[i].Text? {
        LookupAgrees(args, other, qs[i].name);
      }
    }
    forall i | 0 <= i < |qs| && qs[i].Dir? ensures Lookup(other, qs[i].name) == Lookup(args, qs[i].name) {
      LookupAgrees(args, other, qs[i].name);
    }
    OutputAgrees(qs, qs, other, args, xf);
  }
}
