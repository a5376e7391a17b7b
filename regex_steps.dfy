/** The four `re.sub` substitutions that both text cleaners chain together.
    Each deleting substitution is a left-to-right scan: the pattern is tried
    at the current position; a match is removed and the scan resumes right
    after it, otherwise the character is kept and the scan moves on by one. */
module RegexSteps {
  import opened Text

  // ---------------------------------------------------------------------
  // Deletion: a result obtained from the input by removing characters.

  /** `r` is `s` with some characters deleted (order kept). */
  ghost predicate IsSubsequence(r: string, s: string)
    decreases |s|
  {
    && |r| <= |s|
    && (|r| == 0 || (r[0] == s[0] && IsSubsequence(r[1..], s[1..])) || IsSubsequence(r, s[1..]))
  }

  lemma {:induction false} SubsequenceOfSelf(s: string)
    ensures IsSubsequence(s, s)
    decreases |s|
  {
    if |s| > 0 {
      SubsequenceOfSelf(s[1..]);
    }
  }

  /** Deleting a prefix of the input is a deletion. */
  lemma {:induction false} SubsequenceSkip(r: string, s: string, n: nat)
    requires n <= |s| && IsSubsequence(r, s[n..])
    ensures IsSubsequence(r, s)
    decreases n
  {
    if n > 0 {
      assert s[n - 1..][1..] == s[n..];
      assert IsSubsequence(r, s[n - 1..]);
      SubsequenceSkip(r, s, n - 1);
    }
  }

  /** Keeping the first character on both sides preserves deletion. */
  lemma SubsequenceKeep(r: string, s: string)
    requires |s| > 0 && IsSubsequence(r, s[1..])
    ensures IsSubsequence([s[0]] + r, s)
  {
    assert ([s[0]] + r)[1..] == r;
  }

  lemma {:induction false} SubsequenceTransitive(a: string, b: string, c: string)
    requires IsSubsequence(a, b) && IsSubsequence(b, c)
    ensures IsSubsequence(a, c)
    decreases |c|
  {
    if |a| > 0 {
      if IsSubsequence(b, c[1..]) {
        SubsequenceTransitive(a, b, c[1..]);
      } else if IsSubsequence(a[1..], b[1..]) && a[0] == b[0] {
        SubsequenceTransitive(a[1..], b[1..], c[1..]);
      } else {
        SubsequenceTransitive(a, b[1..], c[1..]);
      }
    }
  }

  /** Every character of a deletion comes from the input. */
  lemma {:induction false} SubsequenceChars(r: string, s: string)
    requires IsSubsequence(r, s)
    ensures forall i :: 0 <= i < |r| ==> r[i] in s
    decreases |s|
  {
    if |r| > 0 {
      if r[0] == s[0] && IsSubsequence(r[1..], s[1..]) {
        SubsequenceChars(r[1..], s[1..]);
        assert forall i :: 1 <= i < |r| ==> r[i] == r[1..][i - 1];
      } else {
        SubsequenceChars(r, s[1..]);
      }
    }
  }

  // ---------------------------------------------------------------------
  // URLs: http[s]?://(?:[a-zA-Z]|[0-9]|[$-_@.&+]|[!*\(\),]|(?:%[0-9a-fA-F][0-9a-fA-F]))+

  /** One repetition of the URL pattern's group. Its `%XX` alternative adds no
      string: `%`, the digits and `A`-`F` lie in the range `$`-`_`, and `a`-`f`
      are letters, so the group repeats over single characters of this class. */
  predicate IsUrlChar(c: char)
  {
    IsAsciiLetter(c) || IsAsciiDigit(c) || '$' <= c <= '_' || c in "@.&+" || c in "!*(),"
  }

  /** The class is: lower-case letters, anything from `$` (0x24) to `_`
      (0x5F), and `!`. */
  lemma UrlCharClass(c: char)
    ensures IsUrlChar(c) <==> ('a' <= c <= 'z' || '$' <= c <= '_' || c == '!')
  {
  }

  /** Length of `https://` or `http://` at the start of `s` (the optional `s`
      is tried first), 0 when neither is there. */
  function SchemeLength(s: string): (k: nat)
    ensures k == 0 || k == 7 || k == 8
    ensures k > 0 ==> k <= |s| && (s[..k] == "http://" || s[..k] == "https://")
    ensures k > 0 ==> s[0] == 'h' && s[k - 1] == '/'
  {
    if StartsWith(s, "https://") then 8 else if StartsWith(s, "http://") then 7 else 0
  }

  /** Length of the URL match at the start of `s`; 0 when there is none. The
      greedy `+` takes the longest run of URL characters after the scheme. */
  function UrlMatch(s: string): (n: nat)
    ensures n <= |s|
    ensures n > 0 ==> SchemeLength(s) > 0 && n > SchemeLength(s)
  {
    var k := SchemeLength(s);
    if k == 0 then 0
    else
      var run := LeadingRun(s[k..], IsUrlChar);
      if run == 0 then 0 else k + run
  }

  /** `re.sub(URL_PATTERN, "", s)`: deletes every URL. */
  function StripUrls(s: string): (r: string)
    ensures |r| <= |s|
    decreases |s|
  {
    if |s| == 0 then ""
    else
      var n := UrlMatch(s);
      if n > 0 then StripUrls(s[n..]) else [s[0]] + StripUrls(s[1..])
  }

  /** Removing URLs only deletes characters. */
  lemma {:induction false} StripUrlsDeletes(s: string)
    ensures IsSubsequence(StripUrls(s), s)
    decreases |s|
  {
    if |s| > 0 {
      var n := UrlMatch(s);
      if n > 0 {
        StripUrlsDeletes(s[n..]);
        SubsequenceSkip(StripUrls(s[n..]), s, n);
      } else {
        StripUrlsDeletes(s[1..]);
        SubsequenceKeep(StripUrls(s[1..]), s);
      }
    }
  }

  /** A scheme followed by a maximal, non-empty run of URL characters is
      deleted entirely. */
  lemma UrlIsDeleted(scheme: string, url: string, rest: string)
    requires scheme == "http://" || scheme == "https://"
    requires |url| > 0 && forall i :: 0 <= i < |url| ==> IsUrlChar(url[i])
    requires rest == [] || !IsUrlChar(rest[0])
    ensures StripUrls(scheme + url + rest) == StripUrls(rest)
  {
    var s := scheme + url + rest;
    assert s[..|scheme|] == scheme;
    if scheme == "http://" {
      assert s[4] == ':';
      assert !StartsWith(s, "https://") by { assert "https://"[4] == 's'; }
    }
    assert SchemeLength(s) == |scheme|;
    assert s[|scheme|..] == url + rest;
    LeadingRunOf(url, rest, IsUrlChar);
    assert s[|scheme| + |url|..] == rest;
  }

  /** Without `/` there is no scheme, so nothing is deleted. */
  lemma {:induction false} StripUrlsWithoutSlash(s: string)
    requires '/' !in s
    ensures StripUrls(s) == s
    decreases |s|
  {
    if |s| > 0 {
      StripUrlsWithoutSlash(s[1..]);
    }
  }

  lemma ConsTail(a: string, b: string)
    requires |a| > 0
    ensures (a + b)[1..] == a[1..] + b
  {
  }

  lemma ConsAppend(a: string, b: string)
    requires |a| > 0
    ensures [a[0]] + (a[1..] + b) == a + b
  {
  }

  /** Text without a lower-case `h` cannot start a URL. */
  lemma {:induction false} StripUrlsAfterPlainText(a: string, b: string)
    requires 'h' !in a
    ensures StripUrls(a + b) == a + StripUrls(b)
    decreases |a|
  {
    if |a| > 0 {
      var s := a + b;
      ConsTail(a, b);
      assert s[0] == a[0];
      assert UrlMatch(s) == 0;
      StripUrlsAfterPlainText(a[1..], b);
      ConsAppend(a, StripUrls(b));
    } else {
      assert a + b == b;
    }
  }

  /** Plain text followed by a URL that runs to the end: only the plain text
      remains. */
  lemma UrlAtEnd(a: string, scheme: string, url: string)
    requires 'h' !in a
    requires scheme == "http://" || scheme == "https://"
    requires |url| > 0 && forall i :: 0 <= i < |url| ==> IsUrlChar(url[i])
    ensures StripUrls(a + scheme + url) == a
  {
    AppendAssoc(a, scheme, url);
    StripUrlsAfterPlainText(a, scheme + url);
    UrlIsDeleted(scheme, url, "");
    assert scheme + url + "" == scheme + url;
    assert a + "" == a;
  }

  /** A scheme is made of URL characters, so it cannot run into text that
      starts with any other character. */
  lemma SchemeBeforeStop(x: string, y: string, scheme: string)
    requires scheme == "http://" || scheme == "https://"
    requires y == [] || !IsUrlChar(y[0])
    ensures StartsWith(x + y, scheme) <==> StartsWith(x, scheme)
  {
    if |x| >= |scheme| {
      assert (x + y)[..|scheme|] == x[..|scheme|];
    } else if |scheme| <= |x + y| {
      assert IsUrlChar(scheme[|x|]);
      assert (x + y)[..|scheme|][|x|] == y[0];
    }
  }

  /** A match at the start of `x` is the same when text that starts with a
      non-URL character follows. */
  lemma UrlMatchBeforeStop(x: string, y: string)
    requires y == [] || !IsUrlChar(y[0])
    ensures UrlMatch(x + y) == UrlMatch(x)
  {
    SchemeBeforeStop(x, y, "https://");
    SchemeBeforeStop(x, y, "http://");
    var k := SchemeLength(x);
    if k > 0 {
      assert (x + y)[k..] == x[k..] + y;
      LeadingRunBeforeStop(x[k..], y, IsUrlChar);
    }
  }

  /** No URL spans a character outside the URL class, so the deletion works
      separately on the text before and after one: in particular it
      deletes URLs in the middle of text and keeps what surrounds them. */
  lemma {:induction false} StripUrlsAppend(a: string, b: string)
    requires b == [] || !IsUrlChar(b[0])
    ensures StripUrls(a + b) == StripUrls(a) + StripUrls(b)
    decreases |a|
  {
    if |a| > 0 {
      var s := a + b;
      UrlMatchBeforeStop(a, b);
      var n := UrlMatch(a);
      if n > 0 {
        assert s[n..] == a[n..] + b;
        StripUrlsAppend(a[n..], b);
      } else {
        assert s[0] == a[0];
        ConsTail(a, b);
        StripUrlsAppend(a[1..], b);
        AppendAssoc([a[0]], StripUrls(a[1..]), StripUrls(b));
      }
    } else {
      assert a + b == b;
    }
  }

  /** URLs are deleted on each side of a space separately. */
  lemma StripUrlsAroundSpace(p: string, q: string)
    ensures StripUrls(p + " " + q) == StripUrls(p) + (" " + StripUrls(q))
  {
    AppendAssoc(p, " ", q);
    StripUrlsAppend(p, " " + q);
    StripUrlsAfterSpace(q);
  }

  /** A space is never part of a URL. */
  lemma StripUrlsAfterSpace(q: string)
    ensures StripUrls(" " + q) == " " + StripUrls(q)
  {
    assert (" " + q)[1..] == q;
  }

  // ---------------------------------------------------------------------
  // E-mail addresses: [\w\.-]+@[\w\.-]+\.[\w]+

  predicate IsEmailChar(c: char) { IsWordChar(c) || c == '.' || c == '-' }

  /** Position `i` of the domain run `d` can end the `[\w.-]+` part: it is
      not the first character, is a dot, and a word character follows. */
  predicate IsDomainDot(d: string, i: int)
  {
    1 <= i && i + 1 < |d| && d[i] == '.' && IsWordChar(d[i + 1])
  }

  /** The largest `j < k` with `IsDomainDot(d, j)`, or 0 when there is none.
      Backtracking from the greedy end of `[\w.-]+` finds the last such dot. */
  function LastDomainDot(d: string, k: nat): (j: nat)
    requires k <= |d|
    ensures j == 0 || (j < k && IsDomainDot(d, j))
    ensures forall i :: j < i < k ==> !IsDomainDot(d, i)
    decreases k
  {
    if k <= 1 then 0
    else if IsDomainDot(d, k - 1) then k - 1
    else LastDomainDot(d, k - 1)
  }

  /** Length of the e-mail match at the start of `s`; 0 when there is none.
      The local part is the maximal `[\w.-]` run and must be followed by `@`;
      the domain is cut at the last dot of its maximal run that is followed
      by a word character, and ends with the word run after that dot. */
  function EmailMatch(s: string): (n: nat)
    ensures n <= |s|
    ensures n > 0 ==> '@' in s[..n]
  {
    var local := LeadingRun(s, IsEmailChar);
    if local == 0 || local == |s| || s[local] != '@' then 0
    else
      var rest := s[local + 1..];
      var domain := rest[..LeadingRun(rest, IsEmailChar)];
      var j := LastDomainDot(domain, |domain|);
      if j == 0 then 0
      else
        assert s[..local + 1 + j + 2][local] == '@';
        local + 1 + j + 1 + LeadingRun(domain[j + 1..], IsWordChar)
  }

  /** `re.sub(EMAIL_PATTERN, "", s)`: deletes every e-mail address. */
  function StripEmails(s: string): (r: string)
    ensures |r| <= |s|
    decreases |s|
  {
    if |s| == 0 then ""
    else
      var n := EmailMatch(s);
      if n > 0 then StripEmails(s[n..]) else [s[0]] + StripEmails(s[1..])
  }

  /** Removing e-mail addresses only deletes characters. */
  lemma {:induction false} StripEmailsDeletes(s: string)
    ensures IsSubsequence(StripEmails(s), s)
    decreases |s|
  {
    if |s| > 0 {
      var n := EmailMatch(s);
      if n > 0 {
        StripEmailsDeletes(s[n..]);
        SubsequenceSkip(StripEmails(s[n..]), s, n);
      } else {
        StripEmailsDeletes(s[1..]);
        SubsequenceKeep(StripEmails(s[1..]), s);
      }
    }
  }

  predicate AllWordChars(w: string) { forall i :: 0 <= i < |w| ==> IsWordChar(w[i]) }

  /** In `domain.tld` the split point is the dot before the top-level part. */
  lemma LastDotOfAddressDomain(domain: string, tld: string)
    requires |domain| > 0 && |tld| > 0 && AllWordChars(tld)
    ensures LastDomainDot(domain + "." + tld, |domain| + 1 + |tld|) == |domain|
  {
    var d := domain + "." + tld;
    assert d[|domain|] == '.' && d[|domain| + 1] == tld[0];
    assert IsDomainDot(d, |domain|);
    assert forall i :: |domain| < i < |d| ==> d[i] == tld[i - |domain| - 1];
  }

  /** Every character of `domain.tld` may appear in a domain run. */
  lemma AddressDomainChars(domain: string, tld: string)
    requires AllWordChars(domain) && AllWordChars(tld)
    ensures forall i :: 0 <= i < |domain + "." + tld| ==> IsEmailChar((domain + "." + tld)[i])
  {
    var d := domain + "." + tld;
    forall i | 0 <= i < |d| ensures IsEmailChar(d[i]) {
      if i < |domain| {
        assert d[i] == domain[i];
      } else if i > |domain| {
        assert d[i] == tld[i - |domain| - 1];
      }
    }
  }

  lemma AddressShape(name: string, domain: string, tld: string, rest: string)
    ensures name + "@" + domain + "." + tld + rest == name + ("@" + ((domain + "." + tld) + rest))
  {
  }

  /** The pattern matches exactly the whole address `name@domain.tld`. */
  lemma EmailMatchOfAddress(name: string, domain: string, tld: string, rest: string)
    requires |name| > 0 && |domain| > 0 && |tld| > 0
    requires AllWordChars(name) && AllWordChars(domain) && AllWordChars(tld)
    requires rest == [] || !IsEmailChar(rest[0])
    ensures EmailMatch(name + "@" + domain + "." + tld + rest) == |name| + 1 + |domain| + 1 + |tld|
  {
    var d := domain + "." + tld;
    var s := name + "@" + domain + "." + tld + rest;
    AddressLocalPart(name, domain, tld, rest);
    AddressDomainRun(domain, tld, rest);
    AddressTopLevel(domain, tld);
    LastDotOfAddressDomain(domain, tld);
    EmailMatchOfDomain(s, |name|, d);
  }

  /** The local part of the address is `name`, and the `@` follows it. */
  lemma AddressLocalPart(name: string, domain: string, tld: string, rest: string)
    requires AllWordChars(name)
    ensures var s := name + "@" + domain + "." + tld + rest;
      LeadingRun(s, IsEmailChar) == |name| && |name| < |s| && s[|name|] == '@'
      && s[|name| + 1..] == domain + "." + tld + rest
  {
    var d := domain + "." + tld;
    AddressShape(name, domain, tld, rest);
    LeadingRunOf(name, "@" + (d + rest), IsEmailChar);
    SplitAppend(name, "@" + (d + rest));
  }

  /** The domain run after the `@` is `domain.tld`. */
  lemma AddressDomainRun(domain: string, tld: string, rest: string)
    requires AllWordChars(domain) && AllWordChars(tld)
    requires rest == [] || !IsEmailChar(rest[0])
    ensures var d := domain + "." + tld;
      LeadingRun(d + rest, IsEmailChar) == |d| && (d + rest)[..|d|] == d
  {
    var d := domain + "." + tld;
    AddressDomainChars(domain, tld);
    LeadingRunOf(d, rest, IsEmailChar);
    SplitAppend(d, rest);
  }

  /** After the last dot, the word run is the top-level part. */
  lemma AddressTopLevel(domain: string, tld: string)
    requires AllWordChars(tld)
    ensures LeadingRun((domain + "." + tld)[|domain| + 1..], IsWordChar) == |tld|
  {
    assert (domain + "." + tld)[|domain| + 1..] == tld + [];
    LeadingRunOf(tld, [], IsWordChar);
  }

  /** An address `name@domain.tld` made of word characters, not followed by a
      further `[\w.-]` character, is deleted entirely. */
  lemma EmailIsDeleted(name: string, domain: string, tld: string, rest: string)
    requires |name| > 0 && |domain| > 0 && |tld| > 0
    requires AllWordChars(name) && AllWordChars(domain) && AllWordChars(tld)
    requires rest == [] || !IsEmailChar(rest[0])
    ensures StripEmails(name + "@" + domain + "." + tld + rest) == StripEmails(rest)
  {
    var s := name + "@" + domain + "." + tld + rest;
    EmailMatchOfAddress(name, domain, tld, rest);
    assert s[|name| + 1 + |domain| + 1 + |tld|..] == rest;
  }

  /** Without `@` there is no address, so nothing is deleted. */
  lemma {:induction false} StripEmailsWithoutAt(s: string)
    requires '@' !in s
    ensures StripEmails(s) == s
    decreases |s|
  {
    if |s| > 0 {
      StripEmailsWithoutAt(s[1..]);
    }
  }

  /** The match length once the local part and the `@` are found depends
      only on the domain run after the `@`. */
  lemma EmailMatchOfDomain(s: string, local: nat, d: string)
    requires local == LeadingRun(s, IsEmailChar) && 0 < local < |s| && s[local] == '@'
    requires d == s[local + 1..][..LeadingRun(s[local + 1..], IsEmailChar)]
    ensures var j := LastDomainDot(d, |d|);
      EmailMatch(s) == if j == 0 then 0 else local + 1 + j + 1 + LeadingRun(d[j + 1..], IsWordChar)
  {
  }

  /** The local part stops at a character outside `[\w.-]`; without an `@`
      right there, there is no match. */
  lemma EmailMatchWithoutAt(s: string)
    requires var local := LeadingRun(s, IsEmailChar); local == 0 || local == |s| || s[local] != '@'
    ensures EmailMatch(s) == 0
  {
  }

  /** A match at the start of `x` is the same when text follows that starts
      with neither a `[\w.-]` character nor `@`. */
  lemma EmailMatchBeforeStop(x: string, y: string)
    requires y == [] || (!IsEmailChar(y[0]) && y[0] != '@')
    ensures EmailMatch(x + y) == EmailMatch(x)
  {
    var s := x + y;
    LeadingRunBeforeStop(x, y, IsEmailChar);
    var local := LeadingRun(x, IsEmailChar);
    if y == [] {
      assert s == x;
    } else if local == |x| {
      assert s[local] == y[0];
      EmailMatchWithoutAt(s);
      EmailMatchWithoutAt(x);
    } else if local == 0 || x[local] != '@' {
      assert s[local] == x[local];
      EmailMatchWithoutAt(s);
      EmailMatchWithoutAt(x);
    } else {
      EmailMatchBeforeStopAt(x, y, local);
    }
  }

  /** The case of an `@` after the local part: the domain run stops inside
      `x` as well. */
  lemma EmailMatchBeforeStopAt(x: string, y: string, local: nat)
    requires y == [] || (!IsEmailChar(y[0]) && y[0] != '@')
    requires local == LeadingRun(x, IsEmailChar) == LeadingRun(x + y, IsEmailChar)
    requires 0 < local < |x| && x[local] == '@'
    ensures EmailMatch(x + y) == EmailMatch(x)
  {
    var s := x + y;
    var r := x[local + 1..];
    assert s[local] == '@' && s[local + 1..] == r + y;
    DomainRunBeforeStop(r, y);
    var d := r[..LeadingRun(r, IsEmailChar)];
    EmailMatchOfDomain(s, local, d);
    EmailMatchOfDomain(x, local, d);
  }

  /** The domain run stops before such text as well. */
  lemma DomainRunBeforeStop(r: string, y: string)
    requires y == [] || (!IsEmailChar(y[0]) && y[0] != '@')
    ensures LeadingRun(r + y, IsEmailChar) <= |r|
    ensures (r + y)[..LeadingRun(r + y, IsEmailChar)] == r[..LeadingRun(r, IsEmailChar)]
  {
    LeadingRunBeforeStop(r, y, IsEmailChar);
    var m := LeadingRun(r, IsEmailChar);
    assert (r + y)[..m] == r[..m];
  }

  /** No address spans a character that is neither in `[\w.-]` nor `@`, so
      the deletion works separately on the text before and after one: in
      particular it deletes addresses in the middle of text and keeps what
      surrounds them. */
  lemma {:induction false} StripEmailsAppend(a: string, b: string)
    requires b == [] || (!IsEmailChar(b[0]) && b[0] != '@')
    ensures StripEmails(a + b) == StripEmails(a) + StripEmails(b)
    decreases |a|
  {
    if |a| > 0 {
      var n, kept := StripEmailsAppendStep(a, b);
      StripEmailsAppend(a[n..], b);
      AppendAssoc(kept, StripEmails(a[n..]), StripEmails(b));
    } else {
      assert a + b == b;
    }
  }

  /** The first step of the scan over `a + b` is the first step of the scan
      over `a`: it skips `n` characters of `a` and keeps `kept` of them. */
  lemma StripEmailsAppendStep(a: string, b: string) returns (n: nat, kept: string)
    requires |a| > 0
    requires b == [] || (!IsEmailChar(b[0]) && b[0] != '@')
    ensures 0 < n <= |a|
    ensures StripEmails(a) == kept + StripEmails(a[n..])
    ensures StripEmails(a + b) == kept + StripEmails(a[n..] + b)
  {
    EmailMatchBeforeStop(a, b);
    n := EmailMatch(a);
    if n > 0 {
      kept := "";
      SkipAddress(a, b, n);
    } else {
      n, kept := 1, [a[0]];
      KeepFirst(a, b);
    }
  }

  lemma SkipAddress(a: string, b: string, n: nat)
    requires 0 < n == EmailMatch(a) == EmailMatch(a + b)
    ensures n <= |a|
    ensures StripEmails(a) == "" + StripEmails(a[n..])
    ensures StripEmails(a + b) == "" + StripEmails(a[n..] + b)
  {
    assert (a + b)[n..] == a[n..] + b;
  }

  lemma KeepFirst(a: string, b: string)
    requires |a| > 0 && EmailMatch(a) == 0 == EmailMatch(a + b)
    ensures StripEmails(a) == [a[0]] + StripEmails(a[1..])
    ensures StripEmails(a + b) == [a[0]] + StripEmails(a[1..] + b)
  {
    assert (a + b)[0] == a[0];
    ConsTail(a, b);
  }

  /** Addresses are deleted on each side of a space separately. */
  lemma StripEmailsAroundSpace(p: string, q: string)
    ensures StripEmails(p + (" " + q)) == StripEmails(p) + (" " + StripEmails(q))
  {
    StripEmailsAppend(p, " " + q);
    StripEmailsAfterSpace(q);
  }

  /** A space is never part of an address. */
  lemma StripEmailsAfterSpace(q: string)
    ensures StripEmails(" " + q) == " " + StripEmails(q)
  {
    assert LeadingRun(" " + q, IsEmailChar) == 0;
    EmailMatchWithoutAt(" " + q);
    assert (" " + q)[1..] == q;
  }

  // ---------------------------------------------------------------------
  // Special characters: re.sub(r'[^a-zA-Z0-9\s.,!?;:"\']', "", s)

  /** The characters the special-character step keeps. */
  predicate IsKept(c: char)
  {
    IsAsciiLetter(c) || IsAsciiDigit(c) || IsSpace(c) || c in ".,!?;:\"'"
  }

  /** Deletes every character outside the kept class, and only those. */
  function DeleteSpecialChars(s: string): (r: string)
    ensures |r| <= |s|
    decreases |s|
  {
    if |s| == 0 then ""
    else if IsKept(s[0]) then [s[0]] + DeleteSpecialChars(s[1..])
    else DeleteSpecialChars(s[1..])
  }

  /** The step deletes exactly the characters outside the kept class: what
      remains is a deletion of the input, holds only kept characters, and
      keeps every occurrence of every kept character. */
  lemma {:induction false} DeleteSpecialCharsSpec(s: string)
    ensures IsSubsequence(DeleteSpecialChars(s), s)
    ensures forall i :: 0 <= i < |DeleteSpecialChars(s)| ==> IsKept(DeleteSpecialChars(s)[i])
    ensures forall c :: IsKept(c) ==> multiset(DeleteSpecialChars(s))[c] == multiset(s)[c]
    decreases |s|
  {
    if |s| > 0 {
      var r := DeleteSpecialChars(s[1..]);
      DeleteSpecialCharsSpec(s[1..]);
      assert s == [s[0]] + s[1..];
      if IsKept(s[0]) {
        SubsequenceKeep(r, s);
        assert forall i :: 1 <= i < |r| + 1 ==> ([s[0]] + r)[i] == r[i - 1];
      } else {
        SubsequenceSkip(r, s, 1);
      }
    }
  }

  /** Text made only of kept characters passes unchanged. */
  lemma {:induction false} DeleteSpecialCharsOfKept(s: string)
    requires forall i :: 0 <= i < |s| ==> IsKept(s[i])
    ensures DeleteSpecialChars(s) == s
    decreases |s|
  {
    if |s| > 0 {
      DeleteSpecialCharsOfKept(s[1..]);
    }
  }

  /** The step works character by character, so it distributes over
      concatenation. */
  lemma {:induction false} DeleteSpecialCharsAppend(a: string, b: string)
    ensures DeleteSpecialChars(a + b) == DeleteSpecialChars(a) + DeleteSpecialChars(b)
    decreases |a|
  {
    if |a| > 0 {
      ConsTail(a, b);
      DeleteSpecialCharsAppend(a[1..], b);
      AppendAssoc([a[0]], DeleteSpecialChars(a[1..]), DeleteSpecialChars(b));
    } else {
      assert a + b == b;
    }
  }

  /** The space is kept and each side is filtered on its own. */
  lemma DeleteSpecialCharsAroundSpace(p: string, q: string)
    ensures DeleteSpecialChars(p + (" " + q)) == DeleteSpecialChars(p) + " " + DeleteSpecialChars(q)
  {
    DeleteSpecialCharsAppend(p, " " + q);
    DeleteSpecialCharsAppend(" ", q);
    DeleteSpecialCharsOfKept(" ");
    AppendAssoc(DeleteSpecialChars(p), " ", DeleteSpecialChars(q));
  }

  /** A deleted character in front of text that is kept entirely. */
  lemma DeleteSpecialCharsBefore(c: char, k: string)
    requires !IsKept(c) && forall i :: 0 <= i < |k| ==> IsKept(k[i])
    ensures DeleteSpecialChars([c] + k) == k
  {
    assert ([c] + k)[1..] == k;
    DeleteSpecialCharsOfKept(k);
  }

  /** The characters a cleaner may output: ASCII letters and digits, the
      plain space and the punctuation `. , ! ? ; : " '`. */
  predicate IsCleanChar(c: char)
  {
    IsAsciiLetter(c) || IsAsciiDigit(c) || c == ' ' || c in ".,!?;:\"'"
  }

  /** A kept character that is not whitespace, or a plain space, is clean. */
  lemma KeptIsClean(c: char)
    requires IsKept(c) && (IsSpace(c) ==> c == ' ')
    ensures IsCleanChar(c)
  {
  }

  // ---------------------------------------------------------------------
  // Whitespace: re.sub(r"\s+", " ", s) and str.strip()

  /** `s` without its leading whitespace. */
  function TrimStart(s: string): (r: string)
    ensures r == [] || !IsSpace(r[0])
  {
    s[LeadingRun(s, IsSpace)..]
  }

  /** `s` without its trailing whitespace. */
  function TrimEnd(s: string): (r: string)
    ensures |r| <= |s| && r == s[..|r|]
    ensures r == [] || !IsSpace(r[|r| - 1])
    decreases |s|
  {
    if |s| == 0 || !IsSpace(s[|s| - 1]) then s else TrimEnd(s[..|s| - 1])
  }

  /** Python's `str.strip()`. */
  function Strip(s: string): string
  {
    TrimEnd(TrimStart(s))
  }

  predicate OnlyPlainSpaces(x: string)
  {
    forall i :: 0 <= i < |x| && IsSpace(x[i]) ==> x[i] == ' '
  }

  predicate NoAdjacentSpaces(x: string)
  {
    forall i :: 0 <= i < |x| - 1 ==> !(IsSpace(x[i]) && IsSpace(x[i + 1]))
  }

  /** The normal form of `clean_with_regex`: single plain spaces between
      words, and none at either end. */
  predicate IsNormalSpacing(x: string)
  {
    OnlyPlainSpaces(x) && NoAdjacentSpaces(x) && (|x| > 0 ==> x[0] != ' ' && x[|x| - 1] != ' ')
  }

  /** `re.sub(r"\s+", " ", s)`: every maximal whitespace run becomes one space. */
  function CollapseWhitespace(s: string): (r: string)
    ensures |r| <= |s|
    ensures |s| > 0 ==> |r| > 0 && (IsSpace(s[0]) ==> r[0] == ' ') && (!IsSpace(s[0]) ==> r[0] == s[0])
    decreases |s|
  {
    if |s| == 0 then ""
    else if IsSpace(s[0]) then " " + CollapseWhitespace(TrimStart(s))
    else [s[0]] + CollapseWhitespace(s[1..])
  }

  /** After collapsing, the only whitespace is single plain spaces, and every
      other character comes from the input. */
  lemma {:induction false} CollapsedSpacing(s: string)
    ensures OnlyPlainSpaces(CollapseWhitespace(s)) && NoAdjacentSpaces(CollapseWhitespace(s))
    ensures forall i :: 0 <= i < |CollapseWhitespace(s)| && !IsSpace(CollapseWhitespace(s)[i]) ==>
              CollapseWhitespace(s)[i] in s
    decreases |s|
  {
    if |s| > 0 {
      var t := if IsSpace(s[0]) then TrimStart(s) else s[1..];
      CollapsedSpacing(t);
      var c := CollapseWhitespace(t);
      var r := CollapseWhitespace(s);
      assert r == [if IsSpace(s[0]) then ' ' else s[0]] + c;
      assert forall i :: 1 <= i < |r| ==> r[i] == c[i - 1];
      assert forall x :: x in t ==> x in s;
    }
  }

  /** Python's `s.split()`: the maximal runs of non-whitespace characters. */
  function Words(s: string): (ws: seq<string>)
    decreases |s|
  {
    var t := TrimStart(s);
    if |t| == 0 then []
    else
      var n := LeadingRun(t, NotSpace);
      [t[..n]] + Words(t[n..])
  }

  /** Python's `" ".join(ws)`. */
  function JoinWords(ws: seq<string>): string
  {
    if |ws| == 0 then "" else Join(ws, ' ')
  }

  lemma {:induction false} CollapseAfterWord(w: string, rest: string)
    requires forall i :: 0 <= i < |w| ==> !IsSpace(w[i])
    ensures CollapseWhitespace(w + rest) == w + CollapseWhitespace(rest)
    decreases |w|
  {
    if |w| > 0 {
      assert (w + rest)[0] == w[0];
      assert (w + rest)[1..] == w[1..] + rest;
      CollapseAfterWord(w[1..], rest);
      ConsAppend(w, CollapseWhitespace(rest));
    } else {
      assert w + rest == rest;
    }
  }

  lemma TrimStartTwice(s: string)
    ensures TrimStart(TrimStart(s)) == TrimStart(s)
  {
  }

  lemma TrimStartOfCollapse(s: string)
    ensures TrimStart(CollapseWhitespace(s)) == CollapseWhitespace(TrimStart(s))
  {
    if |s| > 0 {
      if IsSpace(s[0]) {
        var t := TrimStart(s);
        var c := CollapseWhitespace(t);
        assert (" " + c)[1..] == c;
        assert LeadingRun(" " + c, IsSpace) == 1 + LeadingRun(c, IsSpace);
        TrimStartTwice(s);
      }
    }
  }

  lemma {:induction false} TrimEndAfter(x: string, y: string)
    requires |y| > 0 && !IsSpace(y[0])
    ensures TrimEnd(x + y) == x + TrimEnd(y)
    decreases |y|
  {
    var s := x + y;
    assert s[|s| - 1] == y[|y| - 1];
    if IsSpace(y[|y| - 1]) {
      var y' := y[..|y| - 1];
      assert s[..|s| - 1] == x + y';
      TrimEndAfter(x, y');
    }
  }

  lemma WordsAfterTrim(s: string)
    ensures Words(TrimStart(s)) == Words(s)
  {
    TrimStartTwice(s);
  }

  /** Text that starts with a word: that word, then the rest. */
  lemma WordFirst(t: string)
    requires |t| > 0 && !IsSpace(t[0])
    ensures LeadingRun(t, NotSpace) > 0
    ensures Words(t) == [t[..LeadingRun(t, NotSpace)]] + Words(t[LeadingRun(t, NotSpace)..])
    ensures CollapseWhitespace(t) ==
              t[..LeadingRun(t, NotSpace)] + CollapseWhitespace(t[LeadingRun(t, NotSpace)..])
  {
    assert LeadingRun(t, IsSpace) == 0;
    var n := LeadingRun(t, NotSpace);
    CollapseWordPrefix(t, n);
  }

  lemma CollapseWordPrefix(t: string, n: nat)
    requires n <= |t| && forall i :: 0 <= i < n ==> !IsSpace(t[i])
    ensures CollapseWhitespace(t) == t[..n] + CollapseWhitespace(t[n..])
  {
    SplitAt(t, n);
    CollapseAfterWord(t[..n], t[n..]);
  }

  lemma SplitAt(t: string, n: nat)
    requires n <= |t|
    ensures t == t[..n] + t[n..]
  {
  }

  /** A word ending the text: trimming the end leaves just the word. */
  lemma LastWord(w: string, rest: string)
    requires |w| > 0 && !IsSpace(w[|w| - 1])
    requires TrimStart(rest) == []
    ensures TrimEnd(w + CollapseWhitespace(rest)) == w
    ensures Words(rest) == []
  {
    LastWordTrim(w, rest);
  }

  lemma LastWordTrim(w: string, rest: string)
    requires |w| > 0 && !IsSpace(w[|w| - 1])
    requires TrimStart(rest) == []
    ensures TrimEnd(w + CollapseWhitespace(rest)) == w
  {
    if |rest| > 0 {
      calc {
        TrimEnd(w + CollapseWhitespace(rest));
        == { SpacesCollapseToOne(rest); }
        TrimEnd(w + " ");
        == { TrimEndOfWordAndSpace(w); }
        w;
      }
    } else {
      calc {
        TrimEnd(w + CollapseWhitespace(rest));
        == { assert w + CollapseWhitespace(rest) == w; }
        TrimEnd(w);
      }
    }
  }

  /** Whitespace alone collapses to one space. */
  lemma SpacesCollapseToOne(rest: string)
    requires |rest| > 0 && TrimStart(rest) == []
    ensures CollapseWhitespace(rest) == " "
  {
    assert LeadingRun(rest, IsSpace) == |rest|;
    CollapseLeadingSpace(rest);
  }

  lemma TrimEndOfWordAndSpace(w: string)
    requires |w| > 0 && !IsSpace(w[|w| - 1])
    ensures TrimEnd(w + " ") == w
  {
    var x := w + " ";
    assert x[..|x| - 1] == w;
  }

  lemma CollapseLeadingSpace(s: string)
    requires |s| > 0 && IsSpace(s[0])
    ensures CollapseWhitespace(s) == " " + CollapseWhitespace(TrimStart(s))
  {
  }

  /** The two halves of a concatenation, taken apart again. */
  lemma SplitAppend(x: string, y: string)
    ensures (x + y)[|x|..] == y && (x + y)[..|x|] == x
  {
  }

  lemma AppendAssoc(a: string, b: string, c: string)
    ensures a + (b + c) == (a + b) + c
  {
  }

  /** A word followed by whitespace and more words. */
  lemma InnerWord(w: string, rest: string, joined: string)
    requires |w| > 0
    requires |rest| > 0 && IsSpace(rest[0]) && TrimStart(rest) != []
    requires TrimEnd(CollapseWhitespace(TrimStart(rest))) == joined
    ensures TrimEnd(w + CollapseWhitespace(rest)) == w + " " + joined
  {
    var c := CollapseWhitespace(TrimStart(rest));
    CollapseLeadingSpace(rest);
    AppendAssoc(w, " ", c);
    TrimEndAfter(w + " ", c);
  }

  /** For text that does not start with whitespace, collapsing and trimming
      the end yields the words joined by single spaces. */
  lemma {:induction false} CollapsedIsJoinedWords(t: string)
    requires t == [] || !IsSpace(t[0])
    ensures TrimEnd(CollapseWhitespace(t)) == JoinWords(Words(t))
    decreases |t|
  {
    if |t| > 0 {
      WordFirst(t);
      var n := LeadingRun(t, NotSpace);
      var w, rest := t[..n], t[n..];
      WordsAfterTrim(rest);
      if TrimStart(rest) == [] {
        LastWord(w, rest);
      } else {
        var t' := TrimStart(rest);
        CollapsedIsJoinedWords(t');
        InnerWord(w, rest, JoinWords(Words(t')));
        var ws := [w] + Words(t');
        assert ws[1..] == Words(t');
      }
    }
  }

  /** `re.sub(r"\s+", " ", s).strip()` is `" ".join(s.split())`. */
  lemma NormalizeIsJoinedWords(s: string)
    ensures Strip(CollapseWhitespace(s)) == JoinWords(Words(s))
  {
    TrimStartOfCollapse(s);
    CollapsedIsJoinedWords(TrimStart(s));
    WordsAfterTrim(s);
  }

  /** Each word the text splits into is non-empty and free of whitespace. */
  lemma {:induction false} WordsAreWords(s: string)
    ensures forall k :: 0 <= k < |Words(s)| ==> IsWord(Words(s)[k])
    decreases |s|
  {
    var t := TrimStart(s);
    if |t| > 0 {
      WordsAfterTrim(s);
      WordFirst(t);
      var n := LeadingRun(t, NotSpace);
      var w := t[..n];
      WordsAreWords(t[n..]);
      assert IsWord(w) by {
        assert forall i :: 0 <= i < |w| ==> w[i] == t[i];
      }
      WordsCons(w, Words(t[n..]));
    }
  }

  lemma WordsCons(w: string, rest: seq<string>)
    requires IsWord(w) && forall k :: 0 <= k < |rest| ==> IsWord(rest[k])
    ensures forall k :: 0 <= k < |[w] + rest| ==> IsWord(([w] + rest)[k])
  {
    forall k | 0 <= k < |[w] + rest| ensures IsWord(([w] + rest)[k]) {
      if k > 0 {
        assert ([w] + rest)[k] == rest[k - 1];
      }
    }
  }

  lemma SliceKeepsSpacing(x: string, a: nat, b: nat)
    requires a <= b <= |x|
    requires OnlyPlainSpaces(x) && NoAdjacentSpaces(x)
    ensures OnlyPlainSpaces(x[a..b]) && NoAdjacentSpaces(x[a..b])
  {
    assert forall i :: 0 <= i < b - a ==> x[a..b][i] == x[a + i];
  }

  /** The stripped text is the slice of its input between the two trims. */
  lemma StripIsSlice(c: string)
    ensures LeadingRun(c, IsSpace) + |Strip(c)| <= |c|
    ensures Strip(c) == c[LeadingRun(c, IsSpace)..LeadingRun(c, IsSpace) + |Strip(c)|]
  {
    var a := LeadingRun(c, IsSpace);
    var r := Strip(c);
    assert r == c[a..][..|r|];
  }

  /** Stripped text neither starts nor ends with whitespace. */
  lemma StripEnds(c: string)
    ensures |Strip(c)| > 0 ==> !IsSpace(Strip(c)[0]) && !IsSpace(Strip(c)[|Strip(c)| - 1])
  {
    var t := TrimStart(c);
    var r := TrimEnd(t);
    if |r| > 0 {
      assert r[0] == t[0];
    }
  }

  /** Collapsing then stripping yields the normal form. */
  lemma NormalizeIsNormal(s: string)
    ensures IsNormalSpacing(Strip(CollapseWhitespace(s)))
    ensures |Strip(CollapseWhitespace(s))| <= |s|
  {
    var c := CollapseWhitespace(s);
    CollapsedSpacing(s);
    var a := LeadingRun(c, IsSpace);
    StripIsSlice(c);
    SliceKeepsSpacing(c, a, a + |Strip(c)|);
    StripEnds(c);
  }

  /** What remains after collapsing and stripping is plain spaces and
      non-whitespace characters of the input. */
  lemma NormalizedChars(s: string)
    ensures forall i :: 0 <= i < |Strip(CollapseWhitespace(s))| ==>
              Strip(CollapseWhitespace(s))[i] == ' ' || Strip(CollapseWhitespace(s))[i] in s
  {
    var c := CollapseWhitespace(s);
    CollapsedSpacing(s);
    var a := LeadingRun(c, IsSpace);
    var r := Strip(c);
    StripIsSlice(c);
    assert forall i :: 0 <= i < |r| ==> r[i] == c[a + i];
  }

  /** Splitting text that starts with optional whitespace and a word. */
  lemma WordsStep(sp: string, w: string, rest: string)
    requires forall i :: 0 <= i < |sp| ==> IsSpace(sp[i])
    requires |w| > 0 && forall i :: 0 <= i < |w| ==> !IsSpace(w[i])
    requires rest == [] || IsSpace(rest[0])
    ensures Words(sp + w + rest) == [w] + Words(rest)
  {
    AppendAssoc(sp, w, rest);
    LeadingRunOf(sp, w + rest, IsSpace);
    SplitAppend(sp, w + rest);
    LeadingRunOf(w, rest, NotSpace);
    SplitAppend(w, rest);
  }

  /** Whitespace alone has no words. */
  lemma WordsOfSpaces(sp: string)
    requires forall i :: 0 <= i < |sp| ==> IsSpace(sp[i])
    ensures Words(sp) == []
  {
    LeadingRunOf(sp, [], IsSpace);
    assert sp + [] == sp;
  }

  predicate AllSpace(x: string) { forall i :: 0 <= i < |x| ==> IsSpace(x[i]) }

  predicate IsWord(x: string) { |x| > 0 && forall i :: 0 <= i < |x| ==> !IsSpace(x[i]) }

  /** Text laid out as `seps[0] words[0] seps[1] ... words[n-1] seps[n]`. */
  function SpacedText(seps: seq<string>, words: seq<string>): string
    requires |seps| == |words| + 1
    decreases |words|
  {
    if |words| == 0 then seps[0] else seps[0] + words[0] + SpacedText(seps[1..], words[1..])
  }

  /** One more word and separator in front. */
  lemma SpacedTextCons(sep: string, word: string, seps: seq<string>, words: seq<string>)
    requires |seps| == |words| + 1
    ensures SpacedText([sep] + seps, [word] + words) == sep + word + SpacedText(seps, words)
  {
    assert ([sep] + seps)[1..] == seps;
    assert ([word] + words)[1..] == words;
  }

  /** Words separated by non-empty whitespace, with optional whitespace at
      both ends, are exactly what `split()` returns. */
  lemma {:induction false} WordsOfSpacedText(seps: seq<string>, words: seq<string>)
    requires |seps| == |words| + 1
    requires forall k :: 0 <= k < |seps| ==> AllSpace(seps[k])
    requires forall k :: 0 < k < |words| ==> |seps[k]| > 0
    requires forall k :: 0 <= k < |words| ==> IsWord(words[k])
    ensures Words(SpacedText(seps, words)) == words
    decreases |words|
  {
    if |words| == 0 {
      WordsOfSpaces(seps[0]);
    } else {
      var seps', words' := seps[1..], words[1..];
      var rest := SpacedText(seps', words');
      SpacedLayoutTail(seps, words);
      WordsOfSpacedText(seps', words');
      SpacedTextStart(seps', words');
      assert AllSpace(seps[0]) && IsWord(words[0]);
      WordsStep(seps[0], words[0], rest);
      assert [words[0]] + words' == words;
    }
  }

  /** The layout conditions hold for the text after the first word. */
  lemma SpacedLayoutTail(seps: seq<string>, words: seq<string>)
    requires |seps| == |words| + 1 && |words| > 0
    requires forall k :: 0 <= k < |seps| ==> AllSpace(seps[k])
    requires forall k :: 0 < k < |words| ==> |seps[k]| > 0
    requires forall k :: 0 <= k < |words| ==> IsWord(words[k])
    ensures forall k :: 0 <= k < |seps[1..]| ==> AllSpace(seps[1..][k])
    ensures forall k :: 0 < k < |words[1..]| ==> |seps[1..][k]| > 0
    ensures forall k :: 0 <= k < |words[1..]| ==> IsWord(words[1..][k])
    ensures AllSpace(seps[1..][0]) && (|words[1..]| > 0 ==> |seps[1..][0]| > 0)
  {
  }

  /** Spaced text starts with whitespace unless it is empty. */
  lemma SpacedTextStart(seps: seq<string>, words: seq<string>)
    requires |seps| == |words| + 1
    requires AllSpace(seps[0])
    requires |words| > 0 ==> |seps[0]| > 0
    ensures SpacedText(seps, words) == [] || IsSpace(SpacedText(seps, words)[0])
  {
    if |words| > 0 {
      var x := SpacedText(seps, words);
      var h := seps[0] + words[0];
      assert x == h + SpacedText(seps[1..], words[1..]);
      assert h[0] == seps[0][0];
    }
  }

  /** Text already in normal form is a fixed point of collapse-and-strip. */
  lemma {:induction false} CollapseOfCollapsed(x: string)
    requires OnlyPlainSpaces(x) && NoAdjacentSpaces(x)
    ensures CollapseWhitespace(x) == x
    decreases |x|
  {
    if |x| > 0 {
      if IsSpace(x[0]) {
        assert |x| > 1 ==> !IsSpace(x[1]);
        assert x[0] == ' ';
        assert LeadingRun(x, IsSpace) == 1;
        assert TrimStart(x) == x[1..];
      }
      CollapseOfCollapsed(x[1..]);
    }
  }

  lemma NormalIsStable(x: string)
    requires IsNormalSpacing(x)
    ensures Strip(CollapseWhitespace(x)) == x
  {
    CollapseOfCollapsed(x);
    assert |x| > 0 ==> LeadingRun(x, IsSpace) == 0;
    assert TrimStart(x) == x;
  }
}
