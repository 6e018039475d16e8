/**
 * The two pieces of SQLite text semantics the store's queries rely on:
 * the BINARY collation behind `ORDER BY name`, and the `LIKE` operator
 * behind the name search (ASCII-only case folding, `%` and `_` as
 * wildcards, no escape character).
 */
module SqliteText {

  // ---------------------------------------------------------------------
  // BINARY collation: code-point order, a proper prefix sorting first
  // ---------------------------------------------------------------------

  /** `a` sorts no later than `b` under the BINARY collation. */
  predicate BinaryLe(a: string, b: string) {
    a == [] || (b != [] && (a[0] < b[0] || (a[0] == b[0] && BinaryLe(a[1..], b[1..]))))
  }

  lemma {:induction false} BinaryLeReflexive(a: string)
    ensures BinaryLe(a, a)
  {
    if a != [] { BinaryLeReflexive(a[1..]); }
  }

  /** Any two names are comparable. */
  lemma {:induction false} BinaryLeTotal(a: string, b: string)
    ensures BinaryLe(a, b) || BinaryLe(b, a)
  {
    if a != [] && b != [] && a[0] == b[0] { BinaryLeTotal(a[1..], b[1..]); }
  }

  lemma {:induction false} BinaryLeTransitive(a: string, b: string, c: string)
    requires BinaryLe(a, b) && BinaryLe(b, c)
    ensures BinaryLe(a, c)
  {
    if a != [] && b != [] && c != [] && a[0] == b[0] == c[0] {
      BinaryLeTransitive(a[1..], b[1..], c[1..]);
    }
  }

  /** Two names that sort no later than each other are the same name. */
  lemma {:induction false} BinaryLeAntisymmetric(a: string, b: string)
    requires BinaryLe(a, b) && BinaryLe(b, a)
    ensures a == b
  {
    if a != [] && b != [] {
      BinaryLeAntisymmetric(a[1..], b[1..]);
      assert a == [a[0]] + a[1..] && b == [b[0]] + b[1..];
    }
  }

  // ---------------------------------------------------------------------
  // LIKE
  // ---------------------------------------------------------------------

  /** SQLite's default LIKE folds case for ASCII letters only. */
  function FoldAscii(c: char): (f: char)
    ensures 'A' <= c <= 'Z' ==> 'a' <= f <= 'z' && f as int == c as int + 32
    ensures !('A' <= c <= 'Z') ==> f == c
  {
    if 'A' <= c <= 'Z' then (c as int + 32) as char else c
  }

  predicate SameFolded(a: char, b: char) { FoldAscii(a) == FoldAscii(b) }

  predicate IsWildcard(c: char) { c == '%' || c == '_' }

  predicate NoWildcards(f: string) { forall i :: 0 <= i < |f| ==> !IsWildcard(f[i]) }

  /** `s LIKE p`: `%` matches any run of characters, `_` any one character, the rest case-folded. */
  predicate Like(p: string, s: string)
    decreases |p| + |s|
  {
    if p == [] then s == []
    else if p[0] == '%' then Like(p[1..], s) || (s != [] && Like(p, s[1..]))
    else if p[0] == '_' then s != [] && Like(p[1..], s[1..])
    else s != [] && SameFolded(p[0], s[0]) && Like(p[1..], s[1..])
  }

  /** `f` is a prefix of `s` up to ASCII case. */
  predicate IsFoldedPrefix(f: string, s: string) {
    |f| <= |s| && forall i :: 0 <= i < |f| ==> SameFolded(f[i], s[i])
  }

  /** `f` occurs in `s` up to ASCII case. */
  ghost predicate ContainsFolded(s: string, f: string) {
    exists k :: 0 <= k <= |s| && IsFoldedPrefix(f, s[k..])
  }

  /** A lone `%` matches everything. */
  lemma {:induction false} PercentMatchesAll(s: string)
    ensures Like("%", s)
  {
    if s != [] { PercentMatchesAll(s[1..]); }
  }

  /** A leading `%` lets the rest of the pattern match any suffix. */
  lemma {:induction false} LeadingPercent(q: string, s: string)
    ensures Like("%" + q, s) <==> exists k :: 0 <= k <= |s| && Like(q, s[k..])
  {
    var p := "%" + q;
    assert p[0] == '%' && p[1..] == q;
    assert s[0..] == s;
    if s != [] {
      LeadingPercent(q, s[1..]);
      if k :| 0 <= k <= |s| && Like(q, s[k..]) {
        if k > 0 { assert s[1..][k - 1..] == s[k..]; }
      }
      forall k | 0 <= k <= |s[1..]| && Like(q, s[1..][k..])
        ensures exists j :: 0 <= j <= |s| && Like(q, s[j..])
      {
        assert s[1..][k..] == s[k + 1..];
      }
    }
  }

  /** A wildcard-free fragment followed by `%` matches exactly the names it prefixes, up to case. */
  lemma {:induction false} LiteralThenPercent(f: string, s: string)
    requires NoWildcards(f)
    ensures Like(f + "%", s) <==> IsFoldedPrefix(f, s)
  {
    if f == [] {
      assert f + "%" == "%";
      PercentMatchesAll(s);
    } else {
      var p := f + "%";
      assert p[0] == f[0] && p[1..] == f[1..] + "%";
      assert !IsWildcard(f[0]);
      if s != [] {
        LiteralThenPercent(f[1..], s[1..]);
        if IsFoldedPrefix(f, s) {
          assert forall i :: 0 <= i < |f| - 1 ==> f[1..][i] == f[i + 1] && s[1..][i] == s[i + 1];
        }
        if IsFoldedPrefix(f[1..], s[1..]) && SameFolded(f[0], s[0]) {
          forall i | 0 <= i < |f| ensures SameFolded(f[i], s[i]) {
            if i > 0 { assert f[1..][i - 1] == f[i] && s[1..][i - 1] == s[i]; }
          }
        }
      }
    }
  }

  /**
   * The store wraps the fragment as `%fragment%`; when the fragment holds no
   * wildcard this matches exactly the names containing it, up to ASCII case.
   */
  lemma LikeContains(f: string, s: string)
    requires NoWildcards(f)
    ensures Like("%" + f + "%", s) <==> ContainsFolded(s, f)
  {
    assert "%" + f + "%" == "%" + (f + "%");
    LeadingPercent(f + "%", s);
    forall k | 0 <= k <= |s| ensures Like(f + "%", s[k..]) <==> IsFoldedPrefix(f, s[k..]) {
      LiteralThenPercent(f, s[k..]);
    }
  }

  /** An empty fragment, `%%`, matches every name. */
  lemma EmptyFragmentMatchesAll(s: string)
    ensures Like("%" + "" + "%", s)
  {
    assert "%" + "" + "%" == "%" + "%";
    LeadingPercent("%", s);
    PercentMatchesAll(s);
    assert s[0..] == s;
  }
}
