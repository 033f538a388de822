/** `is_valid_email` (main.py:62-63): `re.match` of the anchored pattern
    `^[\w\.-]+@[\w\.-]+\.[a-zA-Z]{2,}$`.  `IsValidEmail` decides it by
    locating the `@` and the last `.`; `MatchesPattern` is the pattern read
    as "there is a way to cut the address into its parts", and the two are
    proved to agree. */
module EmailSyntax {
  import opened Base

  /** `\w`, restricted to ASCII: a letter, a digit or `_`. */
  predicate IsWordChar(c: char) {
    ('a' <= c <= 'z') || ('A' <= c <= 'Z') || ('0' <= c <= '9') || c == '_'
  }

  /** The character class `[\w\.-]`. */
  predicate InClass(c: char) {
    IsWordChar(c) || c == '.' || c == '-'
  }

  /** The character class `[a-zA-Z]`. */
  predicate IsAsciiLetter(c: char) {
    ('a' <= c <= 'z') || ('A' <= c <= 'Z')
  }

  predicate AllInClass(s: string) {
    forall k :: 0 <= k < |s| ==> InClass(s[k])
  }

  predicate AllLetters(s: string) {
    forall k :: 0 <= k < |s| ==> IsAsciiLetter(s[k])
  }

  /** `[\w\.-]+`, `[\w\.-]+` and `[a-zA-Z]{2,}`: the three parts of an address. */
  predicate IsLocalPart(s: string) { s != [] && AllInClass(s) }
  predicate IsDomainBody(s: string) { s != [] && AllInClass(s) }
  predicate IsTld(s: string) { |s| >= 2 && AllLetters(s) }

  /** `e` matches with its `@` at `i` and the `.` before the TLD at `j`. */
  predicate SplitAt(e: string, i: int, j: int) {
    && 0 <= i < j < |e|
    && e[i] == '@' && e[j] == '.'
    && IsLocalPart(e[..i]) && IsDomainBody(e[i + 1..j]) && IsTld(e[j + 1..])
  }

  /** The pattern from `^` to the end of the string.  The shortest match
      has six characters: one, `@`, one, `.`, two letters. */
  ghost predicate MatchesPattern(e: string)
    ensures MatchesPattern(e) ==> |e| >= 6
  {
    exists i, j :: SplitAt(e, i, j)
  }

  /** The index of the first `c` in `s`. */
  function FirstIndex(s: string, c: char): (r: Option<nat>)
    ensures r.None? <==> c !in s
    ensures r.Some? ==> r.value < |s| && s[r.value] == c
    ensures r.Some? ==> forall p :: 0 <= p < r.value ==> s[p] != c
    decreases |s|
  {
    if s == [] then None
    else if s[0] == c then Some(0)
    else
      match FirstIndex(s[1..], c)
      case None => None
      case Some(k) => Some(k + 1)
  }

  /** The index of the last `c` in `s`. */
  function LastIndex(s: string, c: char): (r: Option<nat>)
    ensures r.None? <==> c !in s
    ensures r.Some? ==> r.value < |s| && s[r.value] == c
    ensures r.Some? ==> forall p :: r.value < p < |s| ==> s[p] != c
    decreases |s|
  {
    if s == [] then None
    else if s[|s| - 1] == c then Some(|s| - 1)
    else
      LastIndex(s[..|s| - 1], c)
  }

  /** What follows the `@`, decided: every character is in `[\w\.-]`, and
      the last `.` has a non-empty domain body before it and at least two
      letters after it.  A valid host holds no `@`. */
  predicate ValidHost(h: string)
    ensures ValidHost(h) ==> '@' !in h
  {
    && AllInClass(h)
    && var k := LastIndex(h, '.');
       k.Some? && k.value >= 1 && IsTld(h[k.value + 1..])
  }

  /** The match up to the end of the string, decided: the text before the
      first `@` is the local part and the rest is a valid host.  A valid
      address holds exactly one `@`. */
  predicate ValidAddress(e: string)
    ensures ValidAddress(e) ==>
              forall k :: 0 <= k < |e| && e[k] == '@' ==> k == FirstIndex(e, '@').value
  {
    var at := FirstIndex(e, '@');
    at.Some? && IsLocalPart(e[..at.value]) && ValidHost(e[at.value + 1..])
  }

  /** `re.match(pattern, e)` is truthy: `$` also matches just before a
      final newline, so one trailing `\n` is allowed.  It holds exactly
      when the pattern matches the whole address, or all of it but one
      final newline. */
  predicate IsValidEmail(e: string)
    ensures IsValidEmail(e) <==>
              || MatchesPattern(e)
              || (e != [] && e[|e| - 1] == '\n' && MatchesPattern(e[..|e| - 1]))
  {
    ValidAddressIffMatches(e);
    if e == [] then ValidAddress(e)
    else
      ValidAddressIffMatches(e[..|e| - 1]);
      ValidAddress(e) || (e[|e| - 1] == '\n' && ValidAddress(e[..|e| - 1]))
  }

  /** No `@` is in `[\w\.-]`. */
  lemma ClassHasNoAt(s: string)
    requires AllInClass(s)
    ensures '@' !in s
  {
    forall m | 0 <= m < |s| ensures s[m] != '@' {
      assert InClass(s[m]);
    }
  }

  lemma HostSplits(h: string) returns (k: nat)
    requires ValidHost(h)
    ensures k < |h| && h[k] == '.' && IsDomainBody(h[..k]) && IsTld(h[k + 1..])
  {
    k := LastIndex(h, '.').value;
    assert AllInClass(h[..k]) by {
      forall m | 0 <= m < k ensures InClass(h[..k][m]) {
        assert h[..k][m] == h[m];
      }
    }
  }

  lemma PartsAreHost(d: string, t: string)
    requires IsDomainBody(d) && IsTld(t)
    ensures ValidHost(d + "." + t)
  {
    var h := d + "." + t;
    forall m | 0 <= m < |h| ensures InClass(h[m]) {
      if m < |d| {
        assert h[m] == d[m];
      } else if m > |d| {
        assert h[m] == t[m - |d| - 1];
      }
    }
    forall m | |d| < m < |h| ensures h[m] != '.' {
      assert h[m] == t[m - |d| - 1] && IsAsciiLetter(t[m - |d| - 1]);
    }
    assert h[|d| + 1..] == t;
    assert h[|d|] == '.';
    var r := LastIndex(h, '.');
    assert r.Some?;
    assert r.value == |d|;
  }

  lemma ValidAddressSplits(e: string) returns (i: nat, j: nat)
    requires ValidAddress(e)
    ensures SplitAt(e, i, j)
  {
    i := FirstIndex(e, '@').value;
    var host := e[i + 1..];
    var k := HostSplits(host);
    j := i + 1 + k;
    assert e[j] == host[k];
    assert e[i + 1..j] == host[..k];
    assert e[j + 1..] == host[k + 1..];
  }

  lemma SplitIsValidAddress(e: string, i: int, j: int)
    requires SplitAt(e, i, j)
    ensures ValidAddress(e)
  {
    ClassHasNoAt(e[..i]);
    assert FirstIndex(e, '@') == Some(i);
    assert e[i + 1..] == e[i + 1..j] + "." + e[j + 1..];
    PartsAreHost(e[i + 1..j], e[j + 1..]);
  }

  /** The decision procedure and the pattern agree on every string. */
  lemma ValidAddressIffMatches(e: string)
    ensures ValidAddress(e) <==> MatchesPattern(e)
  {
    if ValidAddress(e) {
      var i, j := ValidAddressSplits(e);
    }
    if MatchesPattern(e) {
      var i, j :| SplitAt(e, i, j);
      SplitIsValidAddress(e, i, j);
    }
  }

  /** Every valid address is `L + "@" + D + "." + T` for a local part `L`, a
      domain body `D` and a TLD `T` (after dropping the one newline `$`
      tolerates). */
  lemma ValidEmailParts(e: string) returns (l: string, d: string, t: string)
    requires IsValidEmail(e)
    ensures IsLocalPart(l) && '@' !in l && IsDomainBody(d) && IsTld(t)
    ensures e == l + "@" + d + "." + t || e == l + "@" + d + "." + t + "\n"
  {
    if ValidAddress(e) {
      l, d, t := AddressParts(e);
    } else {
      l, d, t := AddressParts(e[..|e| - 1]);
      assert e == e[..|e| - 1] + "\n";
    }
  }

  lemma AddressParts(a: string) returns (l: string, d: string, t: string)
    requires ValidAddress(a)
    ensures IsLocalPart(l) && '@' !in l && IsDomainBody(d) && IsTld(t)
    ensures a == l + "@" + d + "." + t
  {
    var i, j := ValidAddressSplits(a);
    l, d, t := a[..i], a[i + 1..j], a[j + 1..];
    assert a == l + "@" + d + "." + t;
    ClassHasNoAt(l);
  }

  /** Conversely, every `L + "@" + D + "." + T` built from such parts is valid. */
  lemma PartsAreValidEmail(l: string, d: string, t: string)
    requires IsLocalPart(l) && IsDomainBody(d) && IsTld(t)
    ensures IsValidEmail(l + "@" + d + "." + t)
  {
    var e := l + "@" + d + "." + t;
    var i, j := |l|, |l| + 1 + |d|;
    assert e[..i] == l && e[i + 1..j] == d && e[j + 1..] == t;
    SplitIsValidAddress(e, i, j);
  }

  /** An address with two `@` is never valid. */
  lemma TwoAtSignsInvalid(e: string, p: nat, q: nat)
    requires p < q < |e| && e[p] == '@' && e[q] == '@'
    ensures !IsValidEmail(e)
  {
    if ValidAddress(e) {
      var i, j := ValidAddressSplits(e);
      OnlyAtSign(e, i, j, p);
      OnlyAtSign(e, i, j, q);
    }
    if e != [] && e[|e| - 1] == '\n' && ValidAddress(e[..|e| - 1]) {
      var a := e[..|e| - 1];
      var i, j := ValidAddressSplits(a);
      OnlyAtSign(a, i, j, p);
      OnlyAtSign(a, i, j, q);
    }
  }

  /** In a match the `@` at `i` is the only one. */
  lemma OnlyAtSign(e: string, i: int, j: int, at: nat)
    requires SplitAt(e, i, j) && at < |e| && e[at] == '@'
    ensures at == i
  {
  }

  /** `a@b.co` is valid, and so is `a@b.co` followed by the newline `$`
      tolerates. */
  lemma ValidExamples(e: string)
    requires e == "a@b.co"
    ensures IsValidEmail(e) && IsValidEmail(e + "\n")
  {
    PartsAreValidEmail("a", "b", "co");
    assert "a" + "@" + "b" + "." + "co" == e;
    assert (e + "\n")[..|e + "\n"| - 1] == e;
  }

  /** `a@b` has no TLD. */
  lemma NoTldExample(e: string)
    requires e == "a@b"
    ensures !IsValidEmail(e)
  {
    assert e[1] == '@';
    assert FirstIndex(e, '@') == Some(1);
    assert e[2..] == "b";
  }

  /** `not-an-email` has no `@`. */
  lemma NoAtSignExample(e: string)
    requires e == "not-an-email"
    ensures !IsValidEmail(e)
  {
    assert '@' !in e;
    assert e[|e| - 1] != '\n';
  }

  /** A one-letter TLD is too short. */
  lemma ShortTldExample(e: string)
    requires e == "a@b.c"
    ensures !IsValidEmail(e)
  {
    assert e[1] == '@';
    assert FirstIndex(e, '@') == Some(1);
    var host := e[2..];
    assert host == "b.c";
    assert LastIndex(host, '.') == Some(1);
    assert host[2..] == "c";
  }
}
