/**
 * `EmailValidator.IsValid`: a non-blank string that matches the regular
 * expression ^[^@\s]+@[^@\s]+\.[^@\s]+$.  The matcher below scans for the
 * '@' and the dot; the regular language is stated separately as the strings
 * that split into local part, '@', domain, '.', and suffix, and the two are
 * proved to agree.  In .NET, `$` also matches before a final "\n", so one
 * trailing newline is accepted.
 */
module EmailValidation {
  import opened Wrappers
  import opened Text

  /** The character class [^@\s]. */
  predicate InClass(c: char) {
    c != '@' && !IsWhiteSpace(c)
  }

  predicate AllInClass(s: string) {
    forall i :: 0 <= i < |s| ==> InClass(s[i])
  }

  /** The first position of `c` in `s`. */
  function IndexOf(s: string, c: char): (r: Option<nat>)
    ensures r.Some? ==> r.value < |s| && s[r.value] == c && c !in s[..r.value]
    ensures r.None? ==> c !in s
  {
    if s == [] then None
    else if s[0] == c then Some(0)
    else
      var r := IndexOf(s[1..], c);
      if r.None? then None
      else
        assert s[..r.value + 1] == [s[0]] + s[1..][..r.value];
        Some(r.value + 1)
  }

  /** `[^@\s]+\.[^@\s]+`, once the domain is known to be in the class: a dot with at
      least one character on each side. */
  predicate DotInside(d: string) {
    |d| >= 3 && '.' in d[1..|d| - 1]
  }

  /** The matcher for `[^@\s]+@[^@\s]+\.[^@\s]+` over the whole string. */
  predicate Body(s: string) {
    match IndexOf(s, '@')
    case None => false
    case Some(i) => i >= 1 && AllInClass(s[..i]) && AllInClass(s[i + 1..]) && DotInside(s[i + 1..])
  }

  /** `$` without Multiline: the end of the string, or just before a final newline. */
  predicate Matches(s: string) {
    Body(s) || (|s| > 0 && s[|s| - 1] == '\n' && Body(s[..|s| - 1]))
  }

  /** `EmailValidator.IsValid`. */
  function IsValid(email: Option<string>): (ok: bool)
    ensures ok <==> email.Some? && InLanguage(email.value)
    ensures IsNullOrWhiteSpace(email) ==> !ok
  {
    if email.None? then false
    else if AllWhiteSpace(email.value) then
      BlankNotInLanguage(email.value);
      false
    else
      MatchesIsLanguage(email.value);
      Matches(email.value)
  }

  // ------------------------------------------------------- the regular language

  /** `s` is local part, '@', domain, '.', suffix, each part non-empty and in the class. */
  ghost predicate IsSplit(s: string, l: string, a: string, b: string) {
    && |l| > 0 && |a| > 0 && |b| > 0
    && AllInClass(l) && AllInClass(a) && AllInClass(b)
    && s == l + "@" + a + "." + b
  }

  ghost predicate Language(s: string) {
    exists l, a, b :: IsSplit(s, l, a, b)
  }

  /** The language of the anchored expression, with the trailing-newline allowance of `$`. */
  ghost predicate InLanguage(s: string) {
    Language(s) || (|s| > 0 && s[|s| - 1] == '\n' && Language(s[..|s| - 1]))
  }

  lemma AllInClassConcat(a: string, b: string)
    requires AllInClass(a) && AllInClass(b)
    ensures AllInClass(a + "." + b)
  {
    var s := a + "." + b;
    forall i | 0 <= i < |s| ensures InClass(s[i]) {
      if i < |a| {
        assert s[i] == a[i];
      } else if i > |a| {
        assert s[i] == b[i - |a| - 1];
      }
    }
  }

  /** Every split string is accepted by the matcher. */
  lemma SplitMatches(s: string, l: string, a: string, b: string)
    requires IsSplit(s, l, a, b)
    ensures Body(s)
  {
    var d := a + "." + b;
    assert s == l + ("@" + d);
    assert s[|l|] == '@';
    assert s[..|l|] == l;
    assert '@' !in l by {
      forall k | 0 <= k < |l| ensures l[k] != '@' {
        assert InClass(l[k]);
      }
    }
    assert s[|l| + 1..] == d;
    AllInClassConcat(a, b);
    assert d[1..|d| - 1][|a| - 1] == '.';
  }

  /** Everything the matcher accepts is split by its '@' and the first inner dot. */
  lemma MatchSplits(s: string)
    requires Body(s)
    ensures Language(s)
  {
    var i := IndexOf(s, '@').value;
    var l, d := s[..i], s[i + 1..];
    var inner := d[1..|d| - 1];
    var j := IndexOf(inner, '.').value;
    var k := j + 1;
    var a, b := d[..k], d[k + 1..];
    assert d[k] == '.';
    assert d == a + "." + b;
    assert s == l + "@" + d;
    forall t | 0 <= t < |a| ensures InClass(a[t]) {
      assert a[t] == d[t];
    }
    forall t | 0 <= t < |b| ensures InClass(b[t]) {
      assert b[t] == d[k + 1 + t];
    }
    assert IsSplit(s, l, a, b);
  }

  /** The matcher decides the anchored language. */
  lemma BodyIsLanguage(s: string)
    ensures Body(s) <==> Language(s)
  {
    if Body(s) {
      MatchSplits(s);
    }
    if Language(s) {
      var l, a, b :| IsSplit(s, l, a, b);
      SplitMatches(s, l, a, b);
    }
  }

  lemma MatchesIsLanguage(s: string)
    ensures Matches(s) <==> InLanguage(s)
  {
    BodyIsLanguage(s);
    if |s| > 0 {
      BodyIsLanguage(s[..|s| - 1]);
    }
  }

  // ---------------------------------------------------------------- properties

  /** A string in the language is never blank. */
  lemma LanguageNotBlank(s: string, l: string, a: string, b: string)
    requires IsSplit(s, l, a, b)
    ensures !AllWhiteSpace(s) && s[|l|] == '@'
  {
    assert s[0] == l[0];
    assert InClass(l[0]);
  }

  /** Neither a blank string nor a blank string before a newline is in the language. */
  lemma BlankNotInLanguage(s: string)
    requires AllWhiteSpace(s)
    ensures !InLanguage(s)
  {
    if Language(s) {
      var l, a, b :| IsSplit(s, l, a, b);
      LanguageNotBlank(s, l, a, b);
    }
    if |s| > 0 && Language(s[..|s| - 1]) {
      var t := s[..|s| - 1];
      var l, a, b :| IsSplit(t, l, a, b);
      LanguageNotBlank(t, l, a, b);
    }
  }

  /** An accepted address (newline allowance aside) has exactly one '@', with a non-empty
      local part before it, no white space, and a dot inside the domain. */
  lemma {:induction false} AcceptedShape(s: string)
    requires IsValid(Some(s)) && (|s| == 0 || s[|s| - 1] != '\n')
    ensures exists i :: 0 < i < |s| && s[i] == '@' && '@' !in s[..i] && '@' !in s[i + 1..]
                        && DotInside(s[i + 1..])
    ensures forall k :: 0 <= k < |s| ==> !IsWhiteSpace(s[k])
  {
    MatchesIsLanguage(s);
    var i := IndexOf(s, '@').value;
    var dom := s[i + 1..];
    assert '@' !in dom by {
      forall k | 0 <= k < |dom| ensures dom[k] != '@' {
        assert InClass(dom[k]);
      }
    }
    forall k | 0 <= k < |s| ensures !IsWhiteSpace(s[k]) {
      if k < i {
        assert s[k] == s[..i][k];
        assert InClass(s[..i][k]);
      } else if k > i {
        assert s[k] == s[i + 1..][k - i - 1];
        assert InClass(s[i + 1..][k - i - 1]);
      }
    }
  }

  /** Any L@A.B with non-empty L, A and B free of '@' and white space is accepted. */
  lemma Complete(l: string, a: string, b: string)
    requires |l| > 0 && |a| > 0 && |b| > 0
    requires AllInClass(l) && AllInClass(a) && AllInClass(b)
    ensures IsValid(Some(l + "@" + a + "." + b))
  {
    var s := l + "@" + a + "." + b;
    assert IsSplit(s, l, a, b);
    LanguageNotBlank(s, l, a, b);
  }

  /** The `$` quirk: an accepted address followed by one newline is still accepted, but
      not followed by two. */
  lemma TrailingNewline(s: string)
    requires IsValid(Some(s))
    requires |s| == 0 || s[|s| - 1] != '\n'
    ensures IsValid(Some(s + "\n"))
    ensures !IsValid(Some(s + "\n\n"))
  {
    MatchesIsLanguage(s);
    var t := s + "\n";
    assert t[..|t| - 1] == s;
    MatchesIsLanguage(t);
    var u := s + "\n\n";
    assert u[..|u| - 1] == t;
    MatchesIsLanguage(u);
    NoNewlineEnd(u);
    NoNewlineEnd(t);
  }

  /** No string of the language ends with a newline. */
  lemma NoNewlineEnd(s: string)
    requires |s| > 0 && s[|s| - 1] == '\n'
    ensures !Language(s)
  {
  }

  // ----------------------------------------------------------------- test cases

  lemma ValidCases()
    ensures IsValid(Some("a@b.com"))
    ensures IsValid(Some("user.name+tag@domain.io"))
  {
    assert "a@b.com" == "a" + "@" + "b" + "." + "com";
    Complete("a", "b", "com");
    assert "user.name+tag@domain.io" == "user.name+tag" + "@" + "domain" + "." + "io";
    Complete("user.name+tag", "domain", "io");
  }

  lemma InvalidCases()
    ensures !IsValid(Some("bad@"))
    ensures !IsValid(Some("@bad.com"))
    ensures !IsValid(Some(""))
    ensures !IsValid(None)
  {
    MatchesIsLanguage("bad@");
    MatchesIsLanguage("@bad.com");
    assert IndexOf("bad@", '@') == Some(3);
    assert IndexOf("@bad.com", '@') == Some(0);
  }
}
