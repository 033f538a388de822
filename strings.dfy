/** The Python `str` operations the screener relies on: `replace` with an
    empty replacement, `strip` and `join`, each modelled on `seq<char>`
    together with the facts the rest of the model needs.  `Split` is not
    used by the screener; it is here only as the inverse of `Join`, so that
    the page join can be shown to lose nothing. */
module Strings {

  /** `p` is a prefix of `s` (Python `s.startswith(p)`). */
  predicate StartsWith(s: string, p: string) {
    |p| <= |s| && s[..|p|] == p
  }

  /** `p` occurs somewhere in `s` (Python `p in s`). */
  predicate Contains(s: string, p: string)
    decreases |s|
  {
    StartsWith(s, p) || (s != [] && Contains(s[1..], p))
  }

  /** Python `s.replace(p, "")`: scanning left to right, every occurrence of
      `p` that does not overlap an earlier one is dropped.  An empty `p`
      leaves `s` as it is. */
  function RemoveAll(s: string, p: string): (r: string)
    ensures |r| <= |s|
    ensures p == [] ==> r == s
    decreases |s|
  {
    if p == [] || s == [] then s
    else if StartsWith(s, p) then RemoveAll(s[|p|..], p)
    else [s[0]] + RemoveAll(s[1..], p)
  }

  /** Removal only drops characters: the result holds no character more
      often than `s` does. */
  lemma {:induction false} RemoveAllDropsOnly(s: string, p: string)
    ensures multiset(RemoveAll(s, p)) <= multiset(s)
    decreases |s|
  {
    if p != [] && s != [] {
      if StartsWith(s, p) {
        assert s == s[..|p|] + s[|p|..];
        RemoveAllDropsOnly(s[|p|..], p);
      } else {
        assert s == [s[0]] + s[1..];
        RemoveAllDropsOnly(s[1..], p);
      }
    }
  }

  /** A string in which `p` does not occur is left unchanged by `RemoveAll`. */
  lemma {:induction false} RemoveAllAbsent(s: string, p: string)
    requires !Contains(s, p)
    ensures RemoveAll(s, p) == s
    decreases |s|
  {
    if p != [] && s != [] {
      RemoveAllAbsent(s[1..], p);
    }
  }

  /** Occurrence in a prefix or a suffix is occurrence in the whole string. */
  lemma {:induction false} ContainsInPrefix(s: string, j: nat, p: string)
    requires j <= |s| && Contains(s[..j], p)
    ensures Contains(s, p)
    decreases |s|
  {
    if StartsWith(s[..j], p) {
      assert s[..j][..|p|] == s[..|p|];
    } else {
      assert s[..j][1..] == s[1..][..j - 1];
      ContainsInPrefix(s[1..], j - 1, p);
    }
  }

  lemma {:induction false} ContainsInSuffix(s: string, i: nat, p: string)
    requires i <= |s| && Contains(s[i..], p)
    ensures Contains(s, p)
    decreases i
  {
    if i > 0 {
      assert s[i..] == s[1..][i - 1..];
      ContainsInSuffix(s[1..], i - 1, p);
    }
  }

  /** A string occurs in any string built around it. */
  lemma ContainsMiddle(a: string, m: string, b: string)
    ensures Contains(a + m + b, m)
  {
    var s := a + m + b;
    assert s[|a|..][..|m|] == m;
    ContainsInSuffix(s, |a|, m);
  }

  /** A substring of a string free of `p` is free of `p`. */
  lemma AbsentFromSlice(s: string, i: nat, j: nat, p: string)
    requires i <= j <= |s| && !Contains(s, p)
    ensures !Contains(s[i..j], p)
  {
    if Contains(s[i..j], p) {
      assert s[i..j] == s[i..][..j - i];
      ContainsInPrefix(s[i..], j - i, p);
      ContainsInSuffix(s, i, p);
    }
  }

  /** If `q` begins with `p`, a string free of `p` is free of `q`. */
  lemma {:induction false} AbsentExtension(s: string, p: string, q: string)
    requires StartsWith(q, p) && !Contains(s, p)
    ensures !Contains(s, q)
    decreases |s|
  {
    if s != [] {
      AbsentExtension(s[1..], p, q);
    }
  }

  // ---------------------------------------------------------------------
  // Markdown code fences

  /** The closing Markdown code fence. */
  const Fence: string := "```"

  /** A string that does not start with a backtick keeps its first
      character when the fences are removed. */
  lemma RemoveFenceKeepsHead(s: string)
    requires s != [] && s[0] != '`'
    ensures RemoveAll(s, Fence) != [] && RemoveAll(s, Fence)[0] == s[0]
  {
  }

  /** Removing every fence leaves none behind: a left-to-right scan leaves
      at most two backticks of any run of them, and the run stays
      separated from the next one by the character that ended it. */
  lemma {:induction false} RemoveFenceLeavesNone(s: string)
    ensures !Contains(RemoveAll(s, Fence), Fence)
    decreases |s|
  {
    if s == [] {
    } else if StartsWith(s, Fence) {
      RemoveFenceLeavesNone(s[3..]);
    } else {
      var rest := RemoveAll(s[1..], Fence);
      RemoveFenceLeavesNone(s[1..]);
      var r := RemoveAll(s, Fence);
      assert r == [s[0]] + rest;
      assert r[1..] == rest;
      if s[0] == '`' && |s| >= 2 {
        if s[1] != '`' {
          RemoveFenceKeepsHead(s[1..]);
        } else if |s| == 2 {
          assert s[1..] == "`";
          assert rest == "`";
        } else {
          assert s[2] != '`';
          assert !StartsWith(s[1..], Fence);
          assert s[1..][1..] == s[2..];
          RemoveFenceKeepsHead(s[2..]);
          assert rest == [s[1]] + RemoveAll(s[2..], Fence);
        }
      }
      assert !StartsWith(r, Fence);
    }
  }

  // ---------------------------------------------------------------------
  // str.strip()

  /** Python's `str.isspace()` for one character: the characters `strip()`
      with no argument removes. */
  predicate IsSpace(c: char) {
    || ('\t' <= c <= '\r')
    || ('\U{1C}' <= c <= '\U{20}')
    || c == '\U{85}' || c == '\U{A0}' || c == '\U{1680}'
    || ('\U{2000}' <= c <= '\U{200A}')
    || c == '\U{2028}' || c == '\U{2029}' || c == '\U{202F}' || c == '\U{205F}'
    || c == '\U{3000}'
  }

  /** Neither end of `s` is whitespace. */
  predicate Trimmed(s: string) {
    s == [] || (!IsSpace(s[0]) && !IsSpace(s[|s| - 1]))
  }

  /** Python `s.lstrip()`: the suffix left after the leading whitespace. */
  function TrimLeft(s: string): (r: string)
    ensures |r| <= |s| && r == s[|s| - |r|..]
    ensures forall k :: 0 <= k < |s| - |r| ==> IsSpace(s[k])
    ensures r != [] ==> !IsSpace(r[0])
    decreases |s|
  {
    if s != [] && IsSpace(s[0]) then TrimLeft(s[1..]) else s
  }

  /** Python `s.rstrip()`: the prefix left before the trailing whitespace. */
  function TrimRight(s: string): (r: string)
    ensures |r| <= |s| && r == s[..|r|]
    ensures forall k :: |r| <= k < |s| ==> IsSpace(s[k])
    ensures r != [] ==> !IsSpace(r[|r| - 1])
    decreases |s|
  {
    if s != [] && IsSpace(s[|s| - 1]) then TrimRight(s[..|s| - 1]) else s
  }

  /** Python `s.strip()`: `s` without its leading and trailing whitespace. */
  function Trim(s: string): (r: string)
    ensures Trimmed(r)
  {
    var l := TrimLeft(s);
    var r := TrimRight(l);
    assert r != [] ==> r[0] == l[0];
    r
  }

  /** What `strip()` keeps is the slice `s[i..i + |r|]` whose outside is all
      whitespace (and, by `Trim`'s contract, whose ends are not). */
  lemma TrimIsSlice(s: string) returns (i: nat)
    ensures SliceWithSpaceAround(s, i, Trim(s))
  {
    i := |s| - |TrimLeft(s)|;
  }

  /** `r` is `s[i..i + |r|]` and everything around it is whitespace. */
  predicate SliceWithSpaceAround(s: string, i: int, r: string) {
    && 0 <= i && i + |r| <= |s|
    && r == s[i..i + |r|]
    && (forall k :: 0 <= k < i ==> IsSpace(s[k]))
    && (forall k :: i + |r| <= k < |s| ==> IsSpace(s[k]))
  }

  /** A string that neither starts nor ends with whitespace is its own
      `strip()`; in particular `strip()` is idempotent. */
  lemma TrimOfTrimmed(s: string)
    requires Trimmed(s)
    ensures Trim(s) == s
  {
  }

  lemma TrimIdempotent(s: string)
    ensures Trim(Trim(s)) == Trim(s)
  {
    TrimOfTrimmed(Trim(s));
  }

  // ---------------------------------------------------------------------
  // str.join and str.split

  /** The summed lengths of the pieces. */
  function TotalLength(xs: seq<string>): nat
    decreases |xs|
  {
    if xs == [] then 0 else |xs[0]| + TotalLength(xs[1..])
  }

  /** Python `sep.join(xs)`: the pieces with one separator between each
      two neighbours, so `|xs| - 1` separators in all. */
  function Join(sep: string, xs: seq<string>): (r: string)
    ensures xs == [] ==> r == []
    ensures xs != [] ==> |r| == TotalLength(xs) + (|xs| - 1) * |sep|
    decreases |xs|
  {
    if xs == [] then ""
    else if |xs| == 1 then xs[0]
    else xs[0] + sep + Join(sep, xs[1..])
  }

  /** Appending one more piece adds the separator only when there was a
      piece before it. */
  lemma {:induction false} JoinSnoc(sep: string, xs: seq<string>, x: string)
    ensures Join(sep, xs + [x]) == if xs == [] then x else Join(sep, xs) + sep + x
    decreases |xs|
  {
    if |xs| >= 2 {
      assert (xs + [x])[1..] == xs[1..] + [x];
      JoinSnoc(sep, xs[1..], x);
    } else if |xs| == 1 {
      assert (xs + [x])[1..] == [x];
    }
  }

  /** The join of non-empty pieces is empty exactly when there are none. */
  lemma JoinEmpty(sep: string, xs: seq<string>)
    requires forall k :: 0 <= k < |xs| ==> xs[k] != []
    ensures Join(sep, xs) == [] <==> xs == []
  {
    if |xs| >= 2 {
      assert |Join(sep, xs)| >= |xs[0]|;
    }
  }

  /** Python `s.split(c)` for a one-character separator: the pieces between
      the occurrences of `c`, always at least one. */
  function Split(s: string, c: char): (r: seq<string>)
    ensures |r| >= 1
    decreases |s|
  {
    if s == [] then [[]]
    else
      var rest := Split(s[1..], c);
      if s[0] == c then [[]] + rest else [[s[0]] + rest[0]] + rest[1..]
  }

  /** A string without `c` splits into itself alone. */
  lemma {:induction false} SplitWithout(s: string, c: char)
    requires c !in s
    ensures Split(s, c) == [s]
    decreases |s|
  {
    if s != [] {
      SplitWithout(s[1..], c);
      assert [s[0]] + s[1..] == s;
    }
  }

  /** Splitting at the first `c` peels off the piece before it. */
  lemma {:induction false} SplitAtFirst(a: string, c: char, b: string)
    requires c !in a
    ensures Split(a + [c] + b, c) == [a] + Split(b, c)
    decreases |a|
  {
    if a == [] {
      assert ([c] + b)[1..] == b;
    } else {
      assert (a + [c] + b)[1..] == a[1..] + [c] + b;
      SplitAtFirst(a[1..], c, b);
      assert [a[0]] + a[1..] == a;
    }
  }

  /** `split` undoes `join` when no piece holds the separator. */
  lemma {:induction false} SplitJoin(xs: seq<string>, c: char)
    requires xs != []
    requires forall k :: 0 <= k < |xs| ==> c !in xs[k]
    ensures Split(Join([c], xs), c) == xs
    decreases |xs|
  {
    if |xs| == 1 {
      SplitWithout(xs[0], c);
    } else {
      assert forall k :: 0 <= k < |xs| - 1 ==> xs[1..][k] == xs[k + 1];
      SplitJoin(xs[1..], c);
      assert Join([c], xs) == xs[0] + [c] + Join([c], xs[1..]);
      SplitAtFirst(xs[0], c, Join([c], xs[1..]));
      assert xs == [xs[0]] + xs[1..];
    }
  }
}
