/** validators.py: the three sign-up form checks. Each compiles a regular
    expression, matches it with `re.match`, and returns its argument unchanged
    on a match and `None` otherwise. */
module Validators {
  import opened Wrappers
  import opened Regex

  /** `USER_RE = ^[a-zA-Z0-9_-]{3,20}$` */
  const UserPattern: Pattern :=
    [Item(Ranges([('a', 'z'), ('A', 'Z'), ('0', '9'), ('_', '_'), ('-', '-')]), 3, AtMost(20))]

  /** `PASSWORD_RE = ^.{3,20}$` */
  const PasswordPattern: Pattern := [Item(AnyButNewline, 3, AtMost(20))]

  /** `EMAIL_RE = ^[\S]+@[\S]+.[\S]+$`; the `.` is not escaped, so it is the
      any-character-but-newline atom, not a literal dot. */
  const EmailPattern: Pattern := [RunItem, AtItem, RunItem, AnyItem, RunItem]

  /** `[\S]+` */
  const RunItem := Item(NonSpace, 1, Unbounded)
  /** `@` */
  const AtItem := Item(Ranges([('@', '@')]), 1, AtMost(1))
  /** `.` */
  const AnyItem := Item(AnyButNewline, 1, AtMost(1))

  /* ---------------------------------------------------------------------
     What each pattern accepts, said without regular expressions
     --------------------------------------------------------------------- */

  predicate IsUsernameChar(c: char)
  {
    'a' <= c <= 'z' || 'A' <= c <= 'Z' || '0' <= c <= '9' || c == '_' || c == '-'
  }

  /** 3 to 20 letters, digits, underscores or hyphens. */
  predicate IsUsernameText(s: string)
  {
    3 <= |s| <= 20 && forall i :: 0 <= i < |s| ==> IsUsernameChar(s[i])
  }

  /** 3 to 20 characters, none of them a newline. */
  predicate IsPasswordText(s: string)
  {
    3 <= |s| <= 20 && '\n' !in s
  }

  predicate NoSpace(s: string)
  {
    forall i :: 0 <= i < |s| ==> !IsSpace(s[i])
  }

  /** `A@BcC` where A, B and C are non-empty runs of non-blank characters (they
      may themselves hold `@`) and c is any one character but a newline. */
  ghost predicate IsEmailText(s: string)
  {
    exists a: string, b: string, c: char, d: string ::
      && s == a + "@" + b + [c] + d
      && a != [] && b != [] && d != []
      && NoSpace(a) && NoSpace(b) && NoSpace(d) && c != '\n'
  }

  /** The pattern's own text, or that text followed by one newline. */
  ghost predicate Anchored(s: string, text: string -> bool)
  {
    text(s) || (|s| > 0 && s[|s| - 1] == '\n' && text(s[..|s| - 1]))
  }

  /* ---------------------------------------------------------------------
     The validators
     --------------------------------------------------------------------- */

  /** `validate_username(username)` */
  function ValidateUsername(username: string): (r: Option<string>)
    ensures r == None || r == Some(username)
    ensures r.Some? <==> Anchored(username, IsUsernameText)
  {
    AnchoredUserPattern(username);
    if FullMatch(UserPattern, username) then Some(username) else None
  }

  /** `validate_password(password, verify)` */
  function ValidatePassword(password: string, verify: string): (r: Option<string>)
    ensures r == None || r == Some(password)
    ensures r.Some? <==> password == verify && Anchored(password, IsPasswordText)
  {
    AnchoredPasswordPattern(password);
    if FullMatch(PasswordPattern, password) && password == verify then Some(password) else None
  }

  /** `validate_email(email)` */
  function ValidateEmail(email: string): (r: Option<string>)
    ensures r == None || r == Some(email)
    ensures r.Some? <==> Anchored(email, IsEmailText)
  {
    AnchoredEmailPattern(email);
    if FullMatch(EmailPattern, email) then Some(email) else None
  }

  /* ---------------------------------------------------------------------
     The patterns mean what the predicates above say
     --------------------------------------------------------------------- */

  lemma UsernameCharClass(c: char)
    ensures AtomAccepts(UserPattern[0].atom, c) <==> IsUsernameChar(c)
  {
    var rs := UserPattern[0].atom.ranges;
    if 'a' <= c <= 'z' { assert rs[0].0 <= c <= rs[0].1; }
    else if 'A' <= c <= 'Z' { assert rs[1].0 <= c <= rs[1].1; }
    else if '0' <= c <= '9' { assert rs[2].0 <= c <= rs[2].1; }
    else if c == '_' { assert rs[3].0 <= c <= rs[3].1; }
    else if c == '-' { assert rs[4].0 <= c <= rs[4].1; }
  }

  lemma UserPatternMeaning(s: string)
    ensures MatchesExactly(UserPattern, s) <==> IsUsernameText(s)
  {
    var it := UserPattern[0];
    assert UserPattern[1..] == [];
    forall i | 0 <= i < |s| { UsernameCharClass(s[i]); }
    if IsUsernameText(s) {
      assert s[..|s|] == s;
      assert it.min <= |s| <= |s| && WithinBound(|s|, it.max)
        && AllAccepted(it.atom, s[..|s|]) && MatchesExactly(UserPattern[1..], s[|s|..]);
    }
    if MatchesExactly(UserPattern, s) {
      var k :| it.min <= k <= |s| && WithinBound(k, it.max)
        && AllAccepted(it.atom, s[..k]) && MatchesExactly(UserPattern[1..], s[k..]);
      assert k == |s|;
      assert s[..k] == s;
    }
  }

  lemma PasswordPatternMeaning(s: string)
    ensures MatchesExactly(PasswordPattern, s) <==> IsPasswordText(s)
  {
    var it := PasswordPattern[0];
    assert PasswordPattern[1..] == [];
    if IsPasswordText(s) {
      assert s[..|s|] == s;
      assert it.min <= |s| <= |s| && WithinBound(|s|, it.max)
        && AllAccepted(it.atom, s[..|s|]) && MatchesExactly(PasswordPattern[1..], s[|s|..]);
    }
    if MatchesExactly(PasswordPattern, s) {
      var k :| it.min <= k <= |s| && WithinBound(k, it.max)
        && AllAccepted(it.atom, s[..k]) && MatchesExactly(PasswordPattern[1..], s[k..]);
      assert k == |s|;
      assert s[..k] == s;
      assert '\n' !in s by {
        forall i | 0 <= i < |s| ensures s[i] != '\n' { assert s[..k][i] == s[i]; }
      }
    }
  }

  lemma AnchoredUserPattern(s: string)
    ensures FullMatch(UserPattern, s) <==> Anchored(s, IsUsernameText)
  {
    UserPatternMeaning(s);
    if |s| > 0 { UserPatternMeaning(s[..|s| - 1]); }
  }

  lemma AnchoredPasswordPattern(s: string)
    ensures FullMatch(PasswordPattern, s) <==> Anchored(s, IsPasswordText)
  {
    PasswordPatternMeaning(s);
    if |s| > 0 { PasswordPatternMeaning(s[..|s| - 1]); }
  }

  lemma AnchoredEmailPattern(s: string)
    ensures FullMatch(EmailPattern, s) <==> Anchored(s, IsEmailText)
  {
    EmailPatternMeaning(s);
    if |s| > 0 { EmailPatternMeaning(s[..|s| - 1]); }
  }

  /** Matching one more item in front of a pattern. */
  lemma MatchOneMore(it: Item, rest: Pattern, s: string, k: nat)
    requires it.min <= k <= |s| && WithinBound(k, it.max)
    requires AllAccepted(it.atom, s[..k]) && MatchesExactly(rest, s[k..])
    ensures MatchesExactly([it] + rest, s)
  {
    assert ([it] + rest)[0] == it && ([it] + rest)[1..] == rest;
  }

  /** Undoing one step of `MatchesExactly`. */
  lemma MatchOneLess(it: Item, rest: Pattern, s: string) returns (k: nat)
    requires MatchesExactly([it] + rest, s)
    ensures it.min <= k <= |s| && WithinBound(k, it.max)
    ensures AllAccepted(it.atom, s[..k]) && MatchesExactly(rest, s[k..])
  {
    assert ([it] + rest)[0] == it && ([it] + rest)[1..] == rest;
    k :| it.min <= k <= |s| && WithinBound(k, it.max)
      && AllAccepted(it.atom, s[..k]) && MatchesExactly(rest, s[k..]);
  }

  lemma RunMeaning(s: string)
    ensures AllAccepted(RunItem.atom, s) <==> NoSpace(s)
  {
  }

  lemma EmailPatternMeaning(s: string)
    ensures MatchesExactly(EmailPattern, s) <==> IsEmailText(s)
  {
    if IsEmailText(s) { EmailTextMatches(s); }
    if MatchesExactly(EmailPattern, s) { EmailMatchIsText(s); }
  }

  /* The email pattern is handled one item at a time, from the last one
     back, so that each step has a single match fact in view. */

  lemma LastRunMatches(d: string)
    ensures MatchesExactly([RunItem], d) <==> d != [] && NoSpace(d)
  {
    assert [RunItem] + [] == [RunItem];
    if d != [] && NoSpace(d) {
      assert d[|d|..] == [] && d[..|d|] == d;
      MatchOneMore(RunItem, [], d, |d|);
    }
    if MatchesExactly([RunItem], d) {
      var k := MatchOneLess(RunItem, [], d);
      assert d[..k] == d;
    }
  }

  /** `.[\S]+` */
  predicate IsDomainTail(t: string)
  {
    |t| >= 2 && t[0] != '\n' && NoSpace(t[1..])
  }

  lemma DomainTailMatches(t: string)
    ensures MatchesExactly([AnyItem, RunItem], t) <==> IsDomainTail(t)
  {
    if IsDomainTail(t) {
      LastRunMatches(t[1..]);
      MatchOneMore(AnyItem, [RunItem], t, 1);
    }
    if MatchesExactly([AnyItem, RunItem], t) {
      var k := MatchOneLess(AnyItem, [RunItem], t);
      assert k == 1 && AtomAccepts(AnyItem.atom, t[..k][0]);
      LastRunMatches(t[k..]);
    }
  }

  /** `[\S]+.[\S]+`, cut after its first run at `k` */
  predicate IsHostCut(t: string, k: int)
  {
    1 <= k <= |t| && NoSpace(t[..k]) && IsDomainTail(t[k..])
  }

  lemma HostMatches(t: string) returns (k: int)
    requires MatchesExactly([RunItem, AnyItem, RunItem], t)
    ensures IsHostCut(t, k)
  {
    k := MatchOneLess(RunItem, [AnyItem, RunItem], t);
    DomainTailMatches(t[k..]);
  }

  lemma HostCutMatches(t: string, k: int)
    requires IsHostCut(t, k)
    ensures MatchesExactly([RunItem, AnyItem, RunItem], t)
  {
    DomainTailMatches(t[k..]);
    MatchOneMore(RunItem, [AnyItem, RunItem], t, k);
  }

  lemma AtStep(t: string)
    requires MatchesExactly([AtItem, RunItem, AnyItem, RunItem], t)
    ensures |t| > 0 && t[0] == '@' && MatchesExactly([RunItem, AnyItem, RunItem], t[1..])
  {
    var one := MatchOneLess(AtItem, [RunItem, AnyItem, RunItem], t);
    assert one == 1;
    assert AtomAccepts(AtItem.atom, t[..one][0]);
    AtAccepts(t[0]);
  }

  lemma AtAccepts(c: char)
    ensures AtomAccepts(AtItem.atom, c) <==> c == '@'
  {
    assert AtItem.atom.ranges[0].0 <= '@' <= AtItem.atom.ranges[0].1;
  }

  /** `@[\S]+.[\S]+` */
  lemma AtHostMatches(t: string) returns (k: int)
    requires MatchesExactly([AtItem, RunItem, AnyItem, RunItem], t)
    ensures |t| > 0 && t[0] == '@' && IsHostCut(t[1..], k)
  {
    AtStep(t);
    k := HostMatches(t[1..]);
  }

  lemma AtHostCutMatches(t: string, k: int)
    requires |t| > 0 && t[0] == '@' && IsHostCut(t[1..], k)
    ensures MatchesExactly([AtItem, RunItem, AnyItem, RunItem], t)
  {
    HostCutMatches(t[1..], k);
    AtAccepts('@');
    assert AllAccepted(AtItem.atom, t[..1]);
    MatchOneMore(AtItem, [RunItem, AnyItem, RunItem], t, 1);
  }

  /** The whole address, cut after the user part at `i` and after the host
      run at `i + 1 + j`. */
  predicate IsEmailCut(s: string, i: int, j: int)
  {
    1 <= i < |s| && NoSpace(s[..i]) && s[i] == '@' && IsHostCut(s[i + 1..], j)
  }

  lemma EmailCutIsText(s: string, i: int, j: int)
    requires IsEmailCut(s, i, j)
    ensures IsEmailText(s)
  {
    var t := s[i + 1..];
    var a, b, c, d := s[..i], t[..j], t[j], t[j + 1..];
    assert t[j..] == [c] + d;
    assert t == b + [c] + d;
    assert s == a + "@" + t;
    assert s == a + "@" + b + [c] + d;
  }

  lemma EmailTextIsCut(s: string) returns (i: int, j: int)
    requires IsEmailText(s)
    ensures IsEmailCut(s, i, j)
  {
    var a: string, b: string, c: char, d: string :|
      && s == a + "@" + b + [c] + d
      && a != [] && b != [] && d != []
      && NoSpace(a) && NoSpace(b) && NoSpace(d) && c != '\n';
    i, j := |a|, |b|;
    PartsAreCut(s, a, b, c, d);
  }

  lemma PartsAreCut(s: string, a: string, b: string, c: char, d: string)
    requires s == a + "@" + b + [c] + d
    requires a != [] && b != [] && d != []
    requires NoSpace(a) && NoSpace(b) && NoSpace(d) && c != '\n'
    ensures IsEmailCut(s, |a|, |b|)
  {
    var t := b + [c] + d;
    assert s[..|a|] == a;
    assert s[|a|] == '@';
    assert s[|a| + 1..] == t;
    assert t[..|b|] == b;
    assert t[|b|..] == [c] + d;
    assert ([c] + d)[1..] == d;
  }

  lemma EmailTextMatches(s: string)
    requires IsEmailText(s)
    ensures MatchesExactly(EmailPattern, s)
  {
    var i, j := EmailTextIsCut(s);
    AtHostCutMatches(s[i..], j);
    assert s[i..][1..] == s[i + 1..];
    MatchOneMore(RunItem, [AtItem, RunItem, AnyItem, RunItem], s, i);
  }

  lemma EmailMatchIsText(s: string)
    requires MatchesExactly(EmailPattern, s)
    ensures IsEmailText(s)
  {
    var i := MatchOneLess(RunItem, [AtItem, RunItem, AnyItem, RunItem], s);
    var j := AtHostMatches(s[i..]);
    assert s[i..][1..] == s[i + 1..];
    EmailCutIsText(s, i, j);
  }

  /* ---------------------------------------------------------------------
     Consequences
     --------------------------------------------------------------------- */

  /** A `verify` field that differs from the password always fails,
      whatever the password. */
  lemma MismatchedVerifyFails(password: string, verify: string)
    requires password != verify
    ensures ValidatePassword(password, verify) == None
  {
  }

  /** An address needs at least five characters, so `""` fails; this is why
      the sign-up form accepts the empty address separately. */
  lemma ShortEmailFails(email: string)
    requires |email| < 5
    ensures ValidateEmail(email) == None
  {
    EmailTextLength(email);
    if |email| > 0 { EmailTextLength(email[..|email| - 1]); }
  }

  lemma EmailTextLength(s: string)
    ensures IsEmailText(s) ==> |s| >= 5
  {
    if IsEmailText(s) {
      var a: string, b: string, c: char, d: string :|
        && s == a + "@" + b + [c] + d && a != [] && b != [] && d != [];
      assert |s| == |a| + 1 + |b| + 1 + |d|;
    }
  }

  /** The unescaped `.` in the pattern lets any character stand between the
      host and the domain: an address without a dot passes. */
  lemma EmailWithoutDotPasses()
    ensures ValidateEmail("a@bcd") == Some("a@bcd")
  {
    assert "a@bcd" == "a" + "@" + "b" + ['c'] + "d";
    assert NoSpace("a") && NoSpace("b") && NoSpace("d");
  }

  /** Each pattern also accepts its text followed by one newline, and the
      validator hands back that newline as part of the value. */
  lemma ValidatorsAcceptTrailingNewline(username: string, password: string, email: string)
    ensures IsUsernameText(username) ==> ValidateUsername(username + "\n") == Some(username + "\n")
    ensures IsPasswordText(password) ==> ValidatePassword(password + "\n", password + "\n") == Some(password + "\n")
    ensures IsEmailText(email) ==> ValidateEmail(email + "\n") == Some(email + "\n")
  {
    assert (username + "\n")[..|username|] == username;
    assert (password + "\n")[..|password|] == password;
    assert (email + "\n")[..|email|] == email;
  }
}
