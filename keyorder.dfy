/** `rsort($keys)` on the argument names (src/I18n.php:173-174): PHP's byte
    order on strings, highest first. */
module KeyOrder {

  /** `strcmp(a, b) < 0`: byte-wise lexicographic order, a proper prefix
      before the longer string. */
  predicate Below(a: string, b: string)
    decreases |a|
  {
    if |a| == 0 then |b| > 0
    else if |b| == 0 then false
    else if a[0] == b[0] then Below(a[1..], b[1..])
    else a[0] < b[0]
  }

  lemma {:induction false} BelowIrreflexive(a: string)
    ensures !Below(a, a)
    decreases |a|
  {
    if |a| > 0 { BelowIrreflexive(a[1..]); }
  }

  lemma {:induction false} BelowTotal(a: string, b: string)
    ensures a == b || Below(a, b) || Below(b, a)
    decreases |a|
  {
    if |a| > 0 && |b| > 0 && a[0] == b[0] {
      BelowTotal(a[1..], b[1..]);
      if a[1..] == b[1..] {
        assert a == [a[0]] + a[1..] && b == [b[0]] + b[1..];
      }
    }
  }

  lemma {:induction false} BelowAsymmetric(a: string, b: string)
    requires Below(a, b)
    ensures !Below(b, a)
    decreases |a|
  {
    if |a| > 0 && |b| > 0 && a[0] == b[0] {
      BelowAsymmetric(a[1..], b[1..]);
    }
  }

  lemma {:induction false} BelowTransitive(a: string, b: string, c: string)
    requires Below(a, b) && Below(b, c)
    ensures Below(a, c)
    decreases |a|
  {
    if |a| > 0 && |b| > 0 && |c| > 0 && a[0] == b[0] && b[0] == c[0] {
      BelowTransitive(a[1..], b[1..], c[1..]);
    }
  }

  /** "Not below" (at least as high) is transitive too. */
  lemma NotBelowTransitive(a: string, b: string, c: string)
    requires !Below(a, b) && !Below(b, c)
    ensures !Below(a, c)
  {
    if Below(a, c) {
      BelowTotal(a, b);
      BelowTotal(b, c);
      if a == b {
      } else if b == c {
      } else {
        BelowTransitive(b, a, c);
      }
    }
  }

  /** A proper prefix sorts before the longer name. */
  lemma {:induction false} PrefixBelow(a: string, b: string)
    requires |a| < |b| && b[..|a|] == a
    ensures Below(a, b)
    decreases |a|
  {
    if |a| > 0 {
      assert b[1..][..|a| - 1] == a[1..];
      PrefixBelow(a[1..], b[1..]);
    }
  }

  /** Arguments as PHP keeps them: name and value, in insertion order. */
  type Args = seq<(string, string)>

  ghost predicate Descending(s: Args) {
    forall i, j :: 0 <= i < j < |s| ==> !Below(s[i].0, s[j].0)
  }

  /** A head that no later name is above keeps the list descending. */
  lemma ConsDescending(h: (string, string), t: Args)
    requires Descending(t)
    requires forall j :: 0 <= j < |t| ==> !Below(h.0, t[j].0)
    ensures Descending([h] + t)
  {
    var r := [h] + t;
    forall i, j | 0 <= i < j < |r| ensures !Below(r[i].0, r[j].0) {
      if i > 0 {
        assert r[i] == t[i - 1] && r[j] == t[j - 1];
      } else {
        assert r[j] == t[j - 1];
      }
    }
  }

  /** A name not below the head of a descending list is below none of it. */
  lemma AboveHead(x: (string, string), s: Args)
    requires Descending(s) && s != [] && !Below(x.0, s[0].0)
    ensures forall j :: 0 <= j < |s| ==> !Below(x.0, s[j].0)
  {
    forall j | 0 <= j < |s| ensures !Below(x.0, s[j].0) {
      if j > 0 {
        NotBelowTransitive(x.0, s[0].0, s[j].0);
      }
    }
  }

  /** After `x`, which is below the head, goes into the tail, the head is
      still below none of the tail. */
  lemma HeadStaysAbove(x: (string, string), s: Args, rest: Args)
    requires Descending(s) && s != [] && Below(x.0, s[0].0)
    requires multiset(rest) == multiset(s[1..]) + multiset{x}
    ensures forall j :: 0 <= j < |rest| ==> !Below(s[0].0, rest[j].0)
  {
    BelowAsymmetric(x.0, s[0].0);
    forall j | 0 <= j < |rest| ensures !Below(s[0].0, rest[j].0) {
      assert rest[j] in multiset(rest);
      if rest[j] != x {
        assert rest[j] in multiset(s[1..]);
        var k :| 0 <= k < |s[1..]| && s[1..][k] == rest[j];
        assert s[k + 1] == rest[j];
      }
    }
  }

  function Insert(x: (string, string), s: Args): (r: Args)
    requires Descending(s)
    ensures multiset(r) == multiset(s) + multiset{x}
    ensures Descending(r)
    decreases |s|
  {
    if s == [] then [x]
    else if !Below(x.0, s[0].0) then
      AboveHead(x, s);
      ConsDescending(x, s);
      [x] + s
    else
      assert Descending(s[1..]);
      var rest := Insert(x, s[1..]);
      HeadStaysAbove(x, s, rest);
      ConsDescending(s[0], rest);
      assert s == [s[0]] + s[1..];
      [s[0]] + rest
  }

  /** `rsort` on the names: the same arguments, highest name first. */
  function SortDescending(s: Args): (r: Args)
    ensures multiset(r) == multiset(s)
    ensures Descending(r)
    decreases |s|
  {
    if s == [] then []
    else
      assert s == [s[0]] + s[1..];
      Insert(s[0], SortDescending(s[1..]))
  }

  /** A name that is a proper prefix of another is processed after it. */
  lemma {:induction false} PrefixProcessedLater(s: Args, i: nat, j: nat)
    requires Descending(s) && i < |s| && j < |s|
    requires |s[i].0| < |s[j].0| && s[j].0[..|s[i].0|] == s[i].0
    ensures j < i
  {
    PrefixBelow(s[i].0, s[j].0);
  }
}
