/**
 * SQLite's `LIKE` operator as the product search uses it: `%` matches any run
 * of characters, `_` matches exactly one, and every other pattern character
 * matches itself with ASCII letters compared case-insensitively. No escape
 * character is declared, so there is none.
 */
module SqlLike {

  /** ASCII case folding: upper-case letters to lower case, everything else unchanged. */
  function Fold(c: char): (r: char)
    ensures ('A' <= c <= 'Z') ==> r as int == c as int + 32
    ensures !('A' <= c <= 'Z') ==> r == c
    ensures !('A' <= r <= 'Z')
  {
    if 'A' <= c <= 'Z' then (c as int + 32) as char else c
  }

  function FoldAll(s: string): (r: string)
    ensures |r| == |s|
    ensures forall k :: 0 <= k < |s| ==> r[k] == Fold(s[k])
  {
    seq(|s|, k requires 0 <= k < |s| => Fold(s[k]))
  }

  /** `s LIKE p` */
  predicate Like(s: string, p: string)
    decreases |p|, |s|
  {
    if p == [] then s == []
    else if p[0] == '%' then Like(s, p[1..]) || (s != [] && Like(s[1..], p))
    else s != [] && (p[0] == '_' || Fold(p[0]) == Fold(s[0])) && Like(s[1..], p[1..])
  }

  /** The pattern has no wildcard. */
  predicate Literal(q: string) {
    forall k :: 0 <= k < |q| ==> q[k] != '%' && q[k] != '_'
  }

  /** `q` occurs in `s` at `i`, ignoring ASCII case. */
  predicate FoldedAt(s: string, q: string, i: nat) {
    i + |q| <= |s| && FoldAll(s[i..i + |q|]) == FoldAll(q)
  }

  /** `q` occurs somewhere in `s`, ignoring ASCII case. */
  predicate ContainsFolded(s: string, q: string) {
    exists i: nat :: i <= |s| && FoldedAt(s, q, i)
  }

  /** A lone `%` matches every string. */
  lemma {:induction false} LikeAnything(s: string)
    ensures Like(s, "%")
    decreases |s|
  {
    assert "%"[1..] == [];
    if s != [] {
      LikeAnything(s[1..]);
    }
  }

  /** A wildcard-free prefix of the pattern must match the front of the string, letter for letter up to case. */
  lemma {:induction false} LikeLiteralPrefix(s: string, q: string, rest: string)
    requires Literal(q)
    ensures Like(s, q + rest) <==> |q| <= |s| && FoldAll(s[..|q|]) == FoldAll(q) && Like(s[|q|..], rest)
    decreases |q|
  {
    if q == [] {
      assert q + rest == rest;
      assert s[..0] == [] && s[0..] == s;
    } else {
      var p := q + rest;
      assert p[0] == q[0] && p[1..] == q[1..] + rest;
      LikeLiteralPrefix(if s == [] then [] else s[1..], q[1..], rest);
      if s != [] {
        if |q| <= |s| {
          assert s[1..][..|q| - 1] == s[1..|q|];
          assert s[1..][|q| - 1..] == s[|q|..];
          var a, b := FoldAll(s[..|q|]), FoldAll(q);
          assert a == [Fold(s[0])] + FoldAll(s[1..|q|]);
          assert b == [Fold(q[0])] + FoldAll(q[1..]);
        }
      }
    }
  }

  /** A leading `%` lets the rest of the pattern match any suffix. */
  lemma {:induction false} LikeLeadingPercent(s: string, r: string)
    ensures Like(s, "%" + r) <==> exists i :: 0 <= i <= |s| && Like(s[i..], r)
    decreases |s|
  {
    var p := "%" + r;
    assert p[0] == '%' && p[1..] == r;
    if s == [] {
      assert s[0..] == s;
    } else {
      LikeLeadingPercent(s[1..], r);
      if exists i :: 0 <= i <= |s| && Like(s[i..], r) {
        var i :| 0 <= i <= |s| && Like(s[i..], r);
        if i > 0 {
          assert s[1..][i - 1..] == s[i..];
        } else {
          assert s[0..] == s;
        }
      }
      if exists i :: 0 <= i <= |s[1..]| && Like(s[1..][i..], r) {
        var i :| 0 <= i <= |s[1..]| && Like(s[1..][i..], r);
        assert s[1..][i..] == s[i + 1..];
      }
      assert s[0..] == s;
    }
  }

  /** `name LIKE '%q%'` for a wildcard-free `q` is case-insensitive substring search. */
  lemma LikeIsContains(s: string, q: string)
    requires Literal(q)
    ensures Like(s, "%" + q + "%") <==> ContainsFolded(s, q)
  {
    assert "%" + q + "%" == "%" + (q + "%");
    LikeLeadingPercent(s, q + "%");
    if Like(s, "%" + (q + "%")) {
      var i :| 0 <= i <= |s| && Like(s[i..], q + "%");
      LikeLiteralPrefix(s[i..], q, "%");
      assert s[i..][..|q|] == s[i..i + |q|];
      assert FoldedAt(s, q, i);
    }
    if ContainsFolded(s, q) {
      var i: nat :| i <= |s| && FoldedAt(s, q, i);
      LikeLiteralPrefix(s[i..], q, "%");
      assert s[i..][..|q|] == s[i..i + |q|];
      LikeAnything(s[i..][|q|..]);
    }
  }

  /** The pattern `%%` built from an empty query matches every string. */
  lemma EmptyQueryMatchesAll(s: string)
    ensures Like(s, "%" + "" + "%")
  {
    assert "%" + "" + "%" == "%%";
    assert "%%"[1..] == "%";
    LikeAnything(s);
  }
}
