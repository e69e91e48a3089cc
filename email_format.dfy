/** The email check of `userUpdateController`: `/^[^\s@]+@[^\s@]+\.[^\s@]+$/.test(email)`.
    `MatchesPattern` is the language of that regular expression, read off its structure;
    `IsValidEmail` is a direct check (find the '@', look at both sides); the two agree on
    every string (`ValidEmailMatchesPattern`). */
module EmailFormat {
  import opened Wrappers

  /** ECMAScript `\s`: the WhiteSpace code points (tab, vertical tab, form feed, no-break
      space, byte-order mark and every space separator) and the LineTerminator code points. */
  predicate IsSpace(c: char)
  {
    || c == '\t' || c == '\U{000B}' || c == '\U{000C}' || c == ' ' || c == '\U{00A0}'
    || c == '\U{FEFF}' || c == '\U{1680}' || ('\U{2000}' <= c <= '\U{200A}')
    || c == '\U{202F}' || c == '\U{205F}' || c == '\U{3000}'
    || c == '\n' || c == '\r' || c == '\U{2028}' || c == '\U{2029}'
  }

  /** The character class `[^\s@]`. */
  predicate InClass(c: char)
  {
    !IsSpace(c) && c != '@'
  }

  /** Every character of `t` is in `[^\s@]`. */
  predicate AllInClass(t: string)
  {
    forall i :: 0 <= i < |t| ==> InClass(t[i])
  }

  /** `t` matches `[^\s@]+`. */
  predicate Run(t: string)
  {
    |t| > 0 && AllInClass(t)
  }

  function Join(local: string, host: string, tld: string): string
  {
    local + "@" + host + "." + tld
  }

  /** `s` is in the language of `^[^\s@]+@[^\s@]+\.[^\s@]+$`. */
  ghost predicate MatchesPattern(s: string)
  {
    exists local, host, tld {:trigger Join(local, host, tld)} ::
      s == Join(local, host, tld) && Run(local) && Run(host) && Run(tld)
  }

  /** The first position of `c` in `s`, if any. */
  function IndexOf(s: string, c: char): (r: Option<nat>)
    ensures r.Some? ==> r.value < |s| && s[r.value] == c && c !in s[..r.value]
    ensures r.None? ==> c !in s
  {
    if s == [] then None
    else if s[0] == c then Some(0)
    else
      match IndexOf(s[1..], c)
      case None => None
      case Some(k) => assert s[..k + 1] == [s[0]] + s[1..][..k]; Some(k + 1)
  }

  /** A direct check equivalent to the controller's regex: a non-empty local part before the first '@', and after it
      a domain of `[^\s@]` characters with a '.' that is neither its first nor its last. */
  predicate IsValidEmail(s: string)
  {
    match IndexOf(s, '@')
    case None => false
    case Some(k) =>
      var domain := s[k + 1..];
      && 0 < k
      && AllInClass(s[..k])
      && AllInClass(domain)
      && exists d :: 0 < d < |domain| - 1 && domain[d] == '.'
  }

  /** A string the check accepts is in the regex's language. */
  lemma ValidEmailIsPattern(s: string)
    requires IsValidEmail(s)
    ensures MatchesPattern(s)
  {
    var k := IndexOf(s, '@').value;
    var domain := s[k + 1..];
    var d :| 0 < d < |domain| - 1 && domain[d] == '.';
    var local, host, tld := s[..k], domain[..d], domain[d + 1..];
    SplitAround(domain, d);
    SplitAround(s, k);
    assert s == Join(local, host, tld);
    assert Run(local);
    AllInClassAround(domain, d);
  }

  /** A string is what comes before a position, the character there, and what comes after. */
  lemma SplitAround(t: string, d: nat)
    requires d < |t|
    ensures t == t[..d] + [t[d]] + t[d + 1..]
  {
  }

  /** The parts of a `[^\s@]*` string on either side of a position are `[^\s@]*` too. */
  lemma AllInClassAround(t: string, d: nat)
    requires d < |t| && AllInClass(t)
    ensures AllInClass(t[..d]) && AllInClass(t[d + 1..])
  {
    forall k | 0 <= k < d ensures InClass(t[..d][k]) {
      assert t[..d][k] == t[k];
    }
    var rest := t[d + 1..];
    forall k | 0 <= k < |rest| ensures InClass(rest[k]) {
      assert rest[k] == t[d + 1 + k];
    }
  }

  /** A string in the regex's language passes the check. */
  lemma PatternIsValidEmail(s: string, local: string, host: string, tld: string)
    requires s == Join(local, host, tld) && Run(local) && Run(host) && Run(tld)
    ensures IsValidEmail(s)
  {
    var k := |local|;
    assert s[k] == '@';
    assert s[..k] == local;
    var r := IndexOf(s, '@');
    assert r == Some(k) by {
      assert s[k] in s;
    }
    var domain := s[k + 1..];
    assert domain == host + "." + tld;
    assert AllInClass(domain) by {
      forall i | 0 <= i < |domain| ensures InClass(domain[i]) {
        if i < |host| {
          assert domain[i] == host[i];
        } else if i > |host| {
          assert domain[i] == tld[i - |host| - 1];
        }
      }
    }
    assert domain[|host|] == '.';
  }

  lemma ValidEmailMatchesPattern(s: string)
    ensures IsValidEmail(s) <==> MatchesPattern(s)
  {
    if IsValidEmail(s) {
      ValidEmailIsPattern(s);
    }
    if MatchesPattern(s) {
      var local, host, tld :| s == Join(local, host, tld) && Run(local) && Run(host) && Run(tld);
      PatternIsValidEmail(s, local, host, tld);
    }
  }

  /** One-letter parts are enough, and a dot in the domain may be followed by another. */
  lemma AcceptedExamples()
    ensures IsValidEmail("a@b.c")
    ensures IsValidEmail("a@b..c")
  {
    assert Run("a") && Run("b") && Run("c") && Run(".c");
    PatternIsValidEmail("a@b.c", "a", "b", "c");
    PatternIsValidEmail("a@b..c", "a", "b", ".c");
  }

  /** Since '.' is in `[^\s@]`, a dot may come right after the '@' or end the domain, as long as
      another dot lies between. */
  lemma DotAtDomainEdgeAccepted()
    ensures IsValidEmail("a@.b.c")
    ensures IsValidEmail("a@b.c.")
  {
    assert Run("a") && Run(".b") && Run("c") && Run("b") && Run("c.");
    PatternIsValidEmail("a@.b.c", "a", ".b", "c");
    PatternIsValidEmail("a@b.c.", "a", "b", "c.");
  }

  /** A missing local part, a domain whose only dot is right after the '@' or at its end, no dot,
      a second '@' and a space are each refused. */
  lemma RejectedExamples()
    ensures !IsValidEmail("@b.c")
    ensures !IsValidEmail("a@.c")
    ensures !IsValidEmail("a@b.")
    ensures !IsValidEmail("a@bc")
    ensures !IsValidEmail("a@b@c.d")
    ensures !IsValidEmail("a b@c.d")
  {
    assert IndexOf("@b.c", '@') == Some(0);
    assert IndexOf("a@.c", '@') == Some(1);
    assert IndexOf("a@b.", '@') == Some(1);
    assert IndexOf("a@bc", '@') == Some(1);
    assert IndexOf("a@b@c.d", '@') == Some(1);
    assert "a@b@c.d"[2..][1] == '@';
    assert IndexOf("a b@c.d", '@') == Some(3);
    assert "a b@c.d"[..3][1] == ' ';
  }
}
