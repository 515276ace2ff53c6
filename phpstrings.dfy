/** The handful of PHP string and number built-ins the modelled code relies
    on, with their PHP 8 semantics written out: ASCII-only `strtolower` and
    `strtoupper`, `str_replace`, `strpos`, `substr` with a non-negative start,
    `explode`/`implode` on one character, `intval` on floats and the
    truncating `%` operator. */
module PhpStrings {
  import opened Wrappers
  import opened Lists

  function Lower(c: char): char {
    if 'A' <= c <= 'Z' then (c as int + 32) as char else c
  }

  function Upper(c: char): char {
    if 'a' <= c <= 'z' then (c as int - 32) as char else c
  }

  /** `strtolower` */
  function LowerStr(s: string): (r: string)
    ensures |r| == |s|
    ensures forall i :: 0 <= i < |s| ==> r[i] == Lower(s[i])
  {
    seq(|s|, i requires 0 <= i < |s| => Lower(s[i]))
  }

  /** `strtoupper` */
  function UpperStr(s: string): (r: string)
    ensures |r| == |s|
    ensures forall i :: 0 <= i < |s| ==> r[i] == Upper(s[i])
  {
    seq(|s|, i requires 0 <= i < |s| => Upper(s[i]))
  }

  /** Lower-casing forgets an earlier upper-casing. */
  lemma LowerUpper(s: string)
    ensures LowerStr(UpperStr(s)) == LowerStr(s)
  {
    forall i | 0 <= i < |s| ensures Lower(Upper(s[i])) == Lower(s[i]) {
    }
  }

  lemma LowerStrConcat(a: string, b: string)
    ensures LowerStr(a + b) == LowerStr(a) + LowerStr(b)
  {
  }

  /** `str_replace` of a single character by another */
  function ReplaceChar(s: string, from: char, to: char): (r: string)
    ensures |r| == |s|
    ensures forall i :: 0 <= i < |s| ==> r[i] == if s[i] == from then to else s[i]
  {
    seq(|s|, i requires 0 <= i < |s| => if s[i] == from then to else s[i])
  }

  /** `pat` occurs in `s` starting at index `i`. */
  predicate StartsAt(s: string, pat: string, i: int) {
    0 <= i && i + |pat| <= |s| && s[i..i + |pat|] == pat
  }

  predicate Occurs(s: string, pat: string) {
    exists i | 0 <= i <= |s| :: StartsAt(s, pat, i)
  }

  /** `str_replace(pat, rep, s)`: every occurrence of `pat`, scanned from the
      left and never overlapping, is replaced by `rep`. */
  function ReplaceAll(s: string, pat: string, rep: string): string
    requires |pat| > 0
    decreases |s|
  {
    if |s| < |pat| then s
    else if s[..|pat|] == pat then rep + ReplaceAll(s[|pat|..], pat, rep)
    else [s[0]] + ReplaceAll(s[1..], pat, rep)
  }

  /** A text in which the pattern does not occur is left as it is. */
  lemma {:induction false} ReplaceAllAbsent(s: string, pat: string, rep: string)
    requires |pat| > 0 && !Occurs(s, pat)
    ensures ReplaceAll(s, pat, rep) == s
    decreases |s|
  {
    if |s| >= |pat| {
      assert !StartsAt(s, pat, 0);
      assert s[..|pat|] != pat;
      forall i | true ensures !StartsAt(s[1..], pat, i) {
        if StartsAt(s[1..], pat, i) {
          assert s[1..][i..i + |pat|] == s[i + 1..i + 1 + |pat|];
          assert StartsAt(s, pat, i + 1);
        }
      }
      ReplaceAllAbsent(s[1..], pat, rep);
    }
  }

  /** Text that cannot start an occurrence is copied through. */
  lemma {:induction false} ReplaceAllSkip(a: string, b: string, pat: string, rep: string)
    requires |pat| > 0 && pat[0] !in a
    ensures ReplaceAll(a + b, pat, rep) == a + ReplaceAll(b, pat, rep)
    decreases |a|
  {
    if |a| == 0 {
      assert a + b == b;
    } else {
      var s := a + b;
      assert a[0] in a;
      if |s| >= |pat| {
        assert s[..|pat|][0] == a[0];
      }
      assert ReplaceAll(s, pat, rep) == [a[0]] + ReplaceAll(s[1..], pat, rep);
      assert s[1..] == a[1..] + b;
      ReplaceAllSkip(a[1..], b, pat, rep);
      assert [a[0]] + (a[1..] + ReplaceAll(b, pat, rep)) == a + ReplaceAll(b, pat, rep);
    }
  }

  /** An occurrence at the front is replaced and the scan resumes after it. */
  lemma ReplaceAllHead(pat: string, b: string, rep: string)
    requires |pat| > 0
    ensures ReplaceAll(pat + b, pat, rep) == rep + ReplaceAll(b, pat, rep)
  {
    var s := pat + b;
    assert s[..|pat|] == pat;
    assert s[|pat|..] == b;
    assert ReplaceAll(s, pat, rep) == rep + ReplaceAll(s[|pat|..], pat, rep);
  }

  /** A text that does not start with the pattern keeps its first
      character and the scan moves one character on. */
  lemma ReplaceAllNoMatchHead(s: string, pat: string, rep: string)
    requires |pat| > 0 && |s| > 0 && !StartsAt(s, pat, 0)
    ensures ReplaceAll(s, pat, rep) == [s[0]] + ReplaceAll(s[1..], pat, rep)
  {
    if |s| < |pat| {
      assert ReplaceAll(s[1..], pat, rep) == s[1..];
      assert s == [s[0]] + s[1..];
    }
  }

  /** Pieces that cannot start an occurrence, joined by the pattern: every
      joint is replaced and nothing else changes. */
  lemma {:induction false} ReplaceAllInterleave(pieces: seq<string>, pat: string, rep: string)
    requires |pat| > 0 && |pieces| >= 1
    requires forall i :: 0 <= i < |pieces| ==> pat[0] !in pieces[i]
    ensures ReplaceAll(Interleave(pieces, pat), pat, rep) == Interleave(pieces, rep)
    decreases |pieces|
  {
    var x := pieces[0];
    if |pieces| == 1 {
      ReplaceAllSkip(x, "", pat, rep);
      assert x + "" == x;
    } else {
      var rest := Interleave(pieces[1..], pat);
      assert Interleave(pieces, pat) == x + (pat + rest);
      ReplaceAllSkip(x, pat + rest, pat, rep);
      ReplaceAllHead(pat, rest, rep);
      ReplaceAllInterleave(pieces[1..], pat, rep);
      assert Interleave(pieces, rep) == x + (rep + Interleave(pieces[1..], rep));
    }
  }

  /** `strpos(s, pat, from)`: the first occurrence at or after `from`. */
  function StrPos(s: string, pat: string, from: nat): (r: Option<nat>)
    requires |pat| > 0 && from <= |s|
    ensures r.Some? ==> from <= r.value && StartsAt(s, pat, r.value)
    ensures r.Some? ==> forall i :: from <= i < r.value ==> !StartsAt(s, pat, i)
    ensures r.None? ==> forall i :: from <= i ==> !StartsAt(s, pat, i)
    decreases |s| - from
  {
    if from + |pat| > |s| then None
    else if s[from..from + |pat|] == pat then Some(from)
    else StrPos(s, pat, from + 1)
  }

  /** An occurrence with none before it is the one `strpos` finds. */
  lemma StrPosFirst(s: string, pat: string, from: nat, p: nat)
    requires |pat| > 0 && from <= p && StartsAt(s, pat, p)
    requires forall i :: from <= i < p ==> !StartsAt(s, pat, i)
    ensures StrPos(s, pat, from) == Some(p)
  {
    var r := StrPos(s, pat, from);
    assert r.Some?;
    assert !(r.value < p);
    assert !(p < r.value);
  }

  /** `substr(s, start, len)` for a start inside the string: a negative
      length leaves that many characters off the end. */
  function Substr(s: string, start: nat, len: int): string
    requires start <= |s|
  {
    if len >= 0 then
      s[start..if start + len <= |s| then start + len else |s|]
    else if |s| + len <= start then []
    else s[start..|s| + len]
  }

  /** `explode(sep, s)` for a one-character separator. */
  function Split(s: string, sep: char): (parts: seq<string>)
    ensures |parts| >= 1
    ensures forall i :: 0 <= i < |parts| ==> sep !in parts[i]
    decreases |s|
  {
    if |s| == 0 then [""]
    else
      var rest := Split(s[1..], sep);
      if s[0] == sep then [""] + rest
      else [[s[0]] + rest[0]] + rest[1..]
  }

  /** A text without the separator is a single part. */
  lemma {:induction false} SplitNoSep(s: string, sep: char)
    requires sep !in s
    ensures Split(s, sep) == [s]
    decreases |s|
  {
    if |s| > 0 {
      SplitNoSep(s[1..], sep);
      assert [s[0]] + s[1..] == s;
    }
  }

  /** The first separator ends the first part. */
  lemma {:induction false} SplitAt(a: string, b: string, sep: char)
    requires sep !in a
    ensures Split(a + [sep] + b, sep) == [a] + Split(b, sep)
    decreases |a|
  {
    if |a| == 0 {
      assert a + [sep] + b == [sep] + b;
      assert ([sep] + b)[1..] == b;
    } else {
      assert (a + [sep] + b)[1..] == a[1..] + [sep] + b;
      SplitAt(a[1..], b, sep);
      assert [a[0]] + a[1..] == a;
    }
  }

  /** `implode(sep, parts)` */
  function Join(parts: seq<string>, sep: char): string
    requires |parts| >= 1
  {
    if |parts| == 1 then parts[0] else parts[0] + [sep] + Join(parts[1..], sep)
  }

  /** Joining parts that agree up to case gives texts that agree up to
      case. */
  lemma {:induction false} LowerJoin(p: seq<string>, q: seq<string>, sep: char)
    requires |p| == |q| >= 1
    requires forall i :: 0 <= i < |p| ==> LowerStr(p[i]) == LowerStr(q[i])
    ensures LowerStr(Join(p, sep)) == LowerStr(Join(q, sep))
    decreases |p|
  {
    if |p| > 1 {
      LowerJoin(p[1..], q[1..], sep);
      LowerStrConcat(p[0] + [sep], Join(p[1..], sep));
      LowerStrConcat(q[0] + [sep], Join(q[1..], sep));
      LowerStrConcat(p[0], [sep]);
      LowerStrConcat(q[0], [sep]);
    }
  }

  /** Splitting loses nothing: joining the parts gives the text back. */
  lemma {:induction false} JoinSplit(s: string, sep: char)
    ensures Join(Split(s, sep), sep) == s
    decreases |s|
  {
    if |s| > 0 {
      JoinSplit(s[1..], sep);
      var rest := Split(s[1..], sep);
      if s[0] != sep && |rest| > 1 {
        assert ([[s[0]] + rest[0]] + rest[1..])[1..] == rest[1..];
      }
      if s[0] == sep {
        assert ([""] + rest)[1..] == rest;
      }
    }
  }

  predicate IsDigit(c: char) {
    '0' as int <= c as int <= '9' as int
  }

  predicate AllDigits(s: string) {
    forall i :: 0 <= i < |s| ==> IsDigit(s[i])
  }

  function DigitsValue(s: string): nat
    requires AllDigits(s)
  {
    if |s| == 0 then 0
    else
      assert IsDigit(s[|s| - 1]);
      DigitsValue(s[..|s| - 1]) * 10 + (s[|s| - 1] as int - '0' as int) as nat
  }

  /** The digits of an integer literal, without its sign. */
  function Magnitude(s: string): string {
    if |s| > 0 && s[0] == '-' then s[1..] else s
  }

  predicate IsIntLiteral(s: string) {
    |Magnitude(s)| > 0 && AllDigits(Magnitude(s))
  }

  /** PHP's coercion of a string argument to an `int` parameter, for the
      plain decimal spelling `-?[0-9]+`; anything else is refused. */
  function ParseInt(s: string): (r: Option<int>)
    ensures r.Some? <==> IsIntLiteral(s)
    ensures r.Some? ==> (r.value < 0 <==> s[0] == '-' && DigitsValue(Magnitude(s)) != 0)
  {
    if !IsIntLiteral(s) then None
    else if s[0] == '-' then Some(-(DigitsValue(Magnitude(s)) as int))
    else Some(DigitsValue(Magnitude(s)))
  }

  /** PHP's `%`: the remainder takes the sign of the dividend. */
  function TruncRem(a: int, b: nat): (r: int)
    requires b > 0
    ensures -(b as int) < r < b
    ensures a >= 0 ==> r >= 0
    ensures a <= 0 ==> r <= 0
  {
    if a >= 0 then a % b else -((-a) % b)
  }

  /** `intval` of a float: truncation toward zero. */
  function Trunc(x: real): (r: int)
    ensures x >= 0.0 ==> 0.0 <= r as real <= x < r as real + 1.0
    ensures x < 0.0 ==> r as real - 1.0 < x <= r as real <= 0.0
  {
    if x >= 0.0 then x.Floor else -((-x).Floor)
  }
}
