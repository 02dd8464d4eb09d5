/**
 * The handful of Python `str` operations the swarm utilities and the notebook
 * converter rely on: `isspace`, `strip`, `startswith`, `find`, `in`, slicing
 * with Python's clamping rules, `str.join`, `str.split` on one character,
 * `str.replace` of one character, and repetition (`"=" * 60`).
 */
module PyStr {

  /** `c.isspace()`: the characters Python counts as whitespace. */
  predicate IsSpace(c: char) {
    || ('\t' <= c <= '\r')
    || ('\U{1C}' <= c <= ' ')
    || c == '\U{85}' || c == '\U{A0}' || c == '\U{1680}'
    || ('\U{2000}' <= c <= '\U{200A}')
    || c == '\U{2028}' || c == '\U{2029}' || c == '\U{202F}' || c == '\U{205F}' || c == '\U{3000}'
  }

  /** Every character of `s` is whitespace (the empty string included). */
  predicate AllSpace(s: string) {
    forall k :: 0 <= k < |s| ==> IsSpace(s[k])
  }

  /** Number of whitespace characters at the front of `s`. */
  function LeadingSpace(s: string): (n: nat)
    ensures n <= |s|
    ensures forall k :: 0 <= k < n ==> IsSpace(s[k])
    ensures n < |s| ==> !IsSpace(s[n])
  {
    if s != [] && IsSpace(s[0]) then 1 + LeadingSpace(s[1..]) else 0
  }

  /** Number of whitespace characters at the back of `s`. */
  function TrailingSpace(s: string): (n: nat)
    ensures n <= |s|
    ensures forall k :: |s| - n <= k < |s| ==> IsSpace(s[k])
    ensures n < |s| ==> !IsSpace(s[|s| - 1 - n])
  {
    if s != [] && IsSpace(s[|s| - 1]) then 1 + TrailingSpace(s[..|s| - 1]) else 0
  }

  /** `s.strip()`: `s` without its leading and trailing whitespace. */
  function Strip(s: string): (r: string)
    ensures LeadingSpace(s) + |r| <= |s| && r == s[LeadingSpace(s)..LeadingSpace(s) + |r|]
    ensures r == [] || (!IsSpace(r[0]) && !IsSpace(r[|r| - 1]))
    ensures r == [] <==> AllSpace(s)
  {
    var rest := s[LeadingSpace(s)..];
    rest[..|rest| - TrailingSpace(rest)]
  }

  /** `s.startswith(p)` */
  predicate StartsWith(s: string, p: string) {
    |p| <= |s| && s[..|p|] == p
  }

  /** `p` occurs in `s` at index `i`. */
  predicate OccursAt(s: string, p: string, i: int) {
    0 <= i && i + |p| <= |s| && s[i..i + |p|] == p
  }

  /** Index of the first occurrence of `p` in `s` at or after `i`, or -1. */
  function FindFrom(s: string, p: string, i: nat): (r: int)
    requires i <= |s|
    ensures r == -1 || (i <= r && OccursAt(s, p, r))
    ensures r == -1 ==> forall j :: i <= j <= |s| ==> !OccursAt(s, p, j)
    ensures r != -1 ==> forall j :: i <= j < r ==> !OccursAt(s, p, j)
    decreases |s| - i
  {
    if OccursAt(s, p, i) then i
    else if i == |s| then -1
    else FindFrom(s, p, i + 1)
  }

  /** `s.find(p)`: index of the first occurrence of `p`, or -1 when there is none. */
  function Find(s: string, p: string): (r: int)
    ensures r == -1 || OccursAt(s, p, r)
    ensures r == -1 ==> forall j :: 0 <= j <= |s| ==> !OccursAt(s, p, j)
    ensures r != -1 ==> forall j :: 0 <= j < r ==> !OccursAt(s, p, j)
  {
    FindFrom(s, p, 0)
  }

  /** `p in s` for strings: substring containment. */
  predicate Contains(s: string, p: string) {
    Find(s, p) != -1
  }

  /** A Python slice bound resolved against a length: negative counts from the end, then clamped. */
  function SliceBound(n: int, len: nat): (r: nat)
    ensures r <= len
    ensures 0 <= n <= len ==> r == n
    ensures n > len ==> r == len
    ensures n < 0 ==> r == if len + n < 0 then 0 else len + n
  {
    if n < 0 then (if len + n < 0 then 0 else len + n)
    else if n > len then len
    else n
  }

  /** `s[a:b]` with Python's rules: negative bounds count from the end, bounds are clamped, and an empty range gives "". */
  function Slice(s: string, a: int, b: int): (r: string)
    ensures 0 <= a <= b <= |s| ==> r == s[a..b]
    ensures 0 <= b <= a ==> r == []
    ensures 0 <= a <= |s| < b ==> r == s[a..]
  {
    var i, j := SliceBound(a, |s|), SliceBound(b, |s|);
    if i <= j then s[i..j] else []
  }

  /** `sep.join(xs)` */
  function Join(xs: seq<string>, sep: string): string
  {
    if xs == [] then []
    else if |xs| == 1 then xs[0]
    else xs[0] + sep + Join(xs[1..], sep)
  }

  /** Joining two non-empty lists puts one separator between their joins. */
  lemma {:induction false} JoinAppend(xs: seq<string>, ys: seq<string>, sep: string)
    requires xs != [] && ys != []
    ensures Join(xs + ys, sep) == Join(xs, sep) + sep + Join(ys, sep)
  {
    if |xs| == 1 {
      assert (xs + ys)[1..] == ys;
    } else {
      assert (xs + ys)[1..] == xs[1..] + ys;
      JoinAppend(xs[1..], ys, sep);
    }
  }

  /** The join of a list starts with the join of any non-empty prefix of it. */
  lemma JoinPrefix(xs: seq<string>, ys: seq<string>, sep: string)
    requires xs != []
    ensures StartsWith(Join(xs + ys, sep), Join(xs, sep))
  {
    if ys == [] {
      assert xs + ys == xs;
    } else {
      JoinAppend(xs, ys, sep);
      var a := Join(xs, sep);
      assert (a + sep + Join(ys, sep))[..|a|] == a;
    }
  }

  /** `s.split(c)` for a one-character separator: the pieces between separators, at least one. */
  function Split(s: string, c: char): (r: seq<string>)
    ensures |r| >= 1
    ensures forall k :: 0 <= k < |r| ==> c !in r[k]
    ensures Join(r, [c]) == s
    decreases |s|
  {
    var i := Find(s, [c]);
    if i == -1 then
      assert forall k :: 0 <= k < |s| ==> !OccursAt(s, [c], k);
      assert forall k :: 0 <= k < |s| ==> s[k] != c by {
        forall k | 0 <= k < |s| ensures s[k] != c {
          assert !OccursAt(s, [c], k);
          assert s[k..k + 1] == [s[k]];
        }
      }
      [s]
    else
      assert s[i..i + 1] == [c];
      assert forall k :: 0 <= k < i ==> s[k] != c by {
        forall k | 0 <= k < i ensures s[k] != c {
          assert !OccursAt(s, [c], k);
          assert s[k..k + 1] == [s[k]];
        }
      }
      var rest := Split(s[i + 1..], c);
      assert s == s[..i] + [c] + s[i + 1..];
      [s[..i]] + rest
  }

  /** Splitting the join of separator-free pieces gives the pieces back; the empty list comes back as [""]. */
  lemma {:induction false} SplitJoin(xs: seq<string>, c: char)
    requires forall k :: 0 <= k < |xs| ==> c !in xs[k]
    ensures Split(Join(xs, [c]), c) == if xs == [] then [[]] else xs
  {
    if xs == [] {
      assert Find([], [c]) == -1;
    } else if |xs| == 1 {
      assert Join(xs, [c]) == xs[0];
    } else {
      var s := Join(xs, [c]);
      var tail := Join(xs[1..], [c]);
      assert s == xs[0] + [c] + tail;
      var n := |xs[0]|;
      assert OccursAt(s, [c], n);
      forall k | 0 <= k < n ensures !OccursAt(s, [c], k) {
        assert s[k] == xs[0][k];
      }
      assert Find(s, [c]) == n;
      assert s[n + 1..] == tail;
      assert s[..n] == xs[0];
      SplitJoin(xs[1..], c);
    }
  }

  /** The join of pieces with a whitespace separator is all whitespace exactly when every piece is. */
  lemma {:induction false} AllSpaceJoin(xs: seq<string>, sep: string)
    requires AllSpace(sep)
    ensures AllSpace(Join(xs, sep)) <==> forall k :: 0 <= k < |xs| ==> AllSpace(xs[k])
  {
    if |xs| > 1 {
      AllSpaceJoin(xs[1..], sep);
      var j := Join(xs[1..], sep);
      assert Join(xs, sep) == xs[0] + sep + j;
      if AllSpace(Join(xs, sep)) {
        forall k | 0 <= k < |xs| ensures AllSpace(xs[k]) {
          if k == 0 {
            forall i | 0 <= i < |xs[0]| ensures IsSpace(xs[0][i]) {
              assert Join(xs, sep)[i] == xs[0][i];
            }
          } else {
            forall i | 0 <= i < |j| ensures IsSpace(j[i]) {
              assert Join(xs, sep)[|xs[0]| + |sep| + i] == j[i];
            }
            assert xs[k] == xs[1..][k - 1];
          }
        }
      }
      if forall k :: 0 <= k < |xs| ==> AllSpace(xs[k]) {
        assert forall k :: 0 <= k < |xs[1..]| ==> AllSpace(xs[1..][k]) by {
          forall k | 0 <= k < |xs[1..]| ensures AllSpace(xs[1..][k]) {
            assert xs[1..][k] == xs[k + 1];
          }
        }
        assert AllSpace(xs[0]);
      }
    }
  }

  /** `s.replace(a, b)` for single characters. */
  function Replace(s: string, a: char, b: char): (r: string)
    ensures |r| == |s|
    ensures forall k :: 0 <= k < |s| ==> r[k] == if s[k] == a then b else s[k]
  {
    seq(|s|, k requires 0 <= k < |s| => if s[k] == a then b else s[k])
  }

  /** `c * n`: `n` copies of the character `c`. */
  function Repeat(c: char, n: nat): (r: string)
    ensures |r| == n
    ensures forall k :: 0 <= k < n ==> r[k] == c
  {
    seq(n, _ => c)
  }
}
