/** The older cleaners of `opennotebookllm.preprocessing.data_cleaners`:
    `apply_common_rules` and `clean_pdf`. They run the same substitutions as
    `clean_with_regex`, but collapse and strip whitespace FIRST, so the
    deletions that follow can leave a space at the end or two spaces side by
    side. */
module LegacyCleaners {
  import opened Text
  import opened RegexSteps

  /** `apply_common_rules`: collapse whitespace runs and strip, then delete
      URLs, e-mail addresses and every character outside the kept class. */
  function ApplyCommonRules(s: string): (r: string)
    ensures |r| <= |s|
  {
    var normal := Strip(CollapseWhitespace(s));
    DeleteSpecialChars(StripEmails(StripUrls(normal)))
  }

  /** `clean_pdf` applies the common rules and nothing else. */
  function CleanPdf(s: string): (r: string)
    ensures |r| <= |s|
  {
    ApplyCommonRules(s)
  }

  /** The result is the normalised text with characters deleted. */
  lemma ApplyCommonRulesDeletes(s: string)
    ensures IsSubsequence(ApplyCommonRules(s), Strip(CollapseWhitespace(s)))
  {
    var n := Strip(CollapseWhitespace(s));
    var u := StripUrls(n);
    var e := StripEmails(u);
    StripUrlsDeletes(n);
    StripEmailsDeletes(u);
    DeleteSpecialCharsSpec(e);
    SubsequenceTransitive(e, u, n);
    SubsequenceTransitive(ApplyCommonRules(s), e, n);
  }

  /** The only whitespace left is the plain space, and every character is a
      letter, a digit or one of `. , ! ? ; : " '`. */
  lemma ApplyCommonRulesChars(s: string)
    ensures forall i :: 0 <= i < |ApplyCommonRules(s)| ==> IsCleanChar(ApplyCommonRules(s)[i])
  {
    var n := Strip(CollapseWhitespace(s));
    var r := ApplyCommonRules(s);
    ApplyCommonRulesDeletes(s);
    SubsequenceChars(r, n);
    NormalizeIsNormal(s);
    DeleteSpecialCharsSpec(StripEmails(StripUrls(n)));
    forall i | 0 <= i < |r| ensures IsCleanChar(r[i]) {
      PlainSpaceMember(n, r[i]);
      KeptIsClean(r[i]);
    }
  }

  lemma PlainSpaceMember(n: string, c: char)
    requires OnlyPlainSpaces(n) && c in n
    ensures IsSpace(c) ==> c == ' '
  {
  }

  /** In normal text the deletions after the whitespace step work on each
      side of a space separately, and the space itself is kept. */
  lemma ApplyCommonRulesSplitsAtSpace(p: string, q: string)
    requires IsNormalSpacing(p + " " + q)
    ensures |p| > 0 && |q| > 0 && IsNormalSpacing(p) && IsNormalSpacing(q)
    ensures ApplyCommonRules(p + " " + q) == ApplyCommonRules(p) + " " + ApplyCommonRules(q)
  {
    NormalAroundSpace(p, q);
    DeletionsSplitAtSpace(p, q);
    CommonRulesOfNormal(p + " " + q);
    CommonRulesOfNormal(p);
    CommonRulesOfNormal(q);
  }

  /** URLs, addresses and special characters are deleted on each side of a
      space separately. */
  lemma DeletionsSplitAtSpace(p: string, q: string)
    ensures DeleteSpecialChars(StripEmails(StripUrls(p + " " + q)))
            == DeleteSpecialChars(StripEmails(StripUrls(p))) + " " + DeleteSpecialChars(StripEmails(StripUrls(q)))
  {
    StripUrlsAroundSpace(p, q);
    StripEmailsAroundSpace(StripUrls(p), StripUrls(q));
    DeleteSpecialCharsAroundSpace(StripEmails(StripUrls(p)), StripEmails(StripUrls(q)));
  }

  /** Text in normal form goes straight to the deletions. */
  lemma CommonRulesOfNormal(x: string)
    requires IsNormalSpacing(x)
    ensures ApplyCommonRules(x) == DeleteSpecialChars(StripEmails(StripUrls(x)))
  {
    NormalIsStable(x);
  }

  /** The two sides of a space in normal text are in normal form. */
  lemma NormalAroundSpace(p: string, q: string)
    requires IsNormalSpacing(p + " " + q)
    ensures |p| > 0 && |q| > 0 && IsNormalSpacing(p) && IsNormalSpacing(q)
  {
    var x := p + " " + q;
    assert x[|p|] == ' ';
    assert x[..|p|] == p && x[|p| + 1..] == q;
    SliceKeepsSpacing(x, 0, |p|);
    SliceKeepsSpacing(x, |p| + 1, |x|);
    assert p[|p| - 1] == x[|p| - 1];
    assert q[0] == x[|p| + 1];
  }

  /** An address `name@domain.tld` on its own is removed completely. */
  lemma AddressAloneIsRemoved(name: string, domain: string, tld: string)
    requires |name| > 0 && |domain| > 0 && |tld| > 0
    requires AllWordChars(name) && AllWordChars(domain) && AllWordChars(tld)
    ensures ApplyCommonRules(name + "@" + domain + "." + tld) == ""
  {
    var a := name + "@" + domain + "." + tld;
    AddressChars(name, domain, tld);
    NormalIsStable(a);
    StripUrlsWithoutSlash(a);
    assert a + "" == a;
    EmailIsDeleted(name, domain, tld, "");
  }

  /** An address between two stretches of text is removed and the spaces
      on both sides of it stay, leaving two spaces side by side. */
  lemma ApplyCommonRulesRemovesEmail(p: string, name: string, domain: string, tld: string, q: string)
    requires |name| > 0 && |domain| > 0 && |tld| > 0
    requires AllWordChars(name) && AllWordChars(domain) && AllWordChars(tld)
    requires IsNormalSpacing(p + " " + (name + "@" + domain + "." + tld) + " " + q)
    ensures ApplyCommonRules(p + " " + (name + "@" + domain + "." + tld) + " " + q)
            == ApplyCommonRules(p) + "  " + ApplyCommonRules(q)
  {
    var a := name + "@" + domain + "." + tld;
    var rest := a + " " + q;
    AppendAssoc(p + " ", a, " " + q);
    AppendAssoc(p + " " + a, " ", q);
    AppendAssoc(a, " ", q);
    ApplyCommonRulesSplitsAtSpace(p, rest);
    ApplyCommonRulesSplitsAtSpace(a, q);
    AddressAloneIsRemoved(name, domain, tld);
    var ap, aq := ApplyCommonRules(p), ApplyCommonRules(q);
    TwoSpaces(ap, aq);
  }

  /** An address made of word characters holds no whitespace and no `/`. */
  lemma AddressChars(name: string, domain: string, tld: string)
    requires |name| > 0 && |domain| > 0 && |tld| > 0
    requires AllWordChars(name) && AllWordChars(domain) && AllWordChars(tld)
    ensures IsNormalSpacing(name + "@" + domain + "." + tld)
    ensures '/' !in name + "@" + domain + "." + tld
  {
    var a := name + "@" + domain + "." + tld;
    forall i | 0 <= i < |a| ensures !IsSpace(a[i]) && a[i] != '/' {
      if i < |name| {
        assert a[i] == name[i];
      } else if i == |name| {
      } else if i < |name| + 1 + |domain| {
        assert a[i] == domain[i - |name| - 1];
      } else if i == |name| + 1 + |domain| {
      } else {
        assert a[i] == tld[i - |name| - 2 - |domain|];
      }
    }
  }

  /** The whitespace step comes first and its result is already in normal
      form, so the common rules see the normalised text unchanged. */
  lemma ApplyCommonRulesNormalized(t: string)
    ensures ApplyCommonRules(t) == ApplyCommonRules(Strip(CollapseWhitespace(t)))
  {
    NormalizeIsNormal(t);
    NormalIsStable(Strip(CollapseWhitespace(t)));
  }

  lemma TwoSpaces(a: string, b: string)
    ensures a + " " + ("" + " " + b) == a + "  " + b
  {
    assert "" + " " + b == " " + b;
    assert a + " " + " " == a + "  ";
  }

  /** Because whitespace is handled first, the space in front of a final URL
      survives its deletion: normal text, a space and a URL give the cleaned
      text followed by a space. */
  lemma SpaceBeforeFinalUrlSurvives(p: string, scheme: string, url: string)
    requires IsNormalSpacing(p) && |p| > 0
    requires scheme == "http://" || scheme == "https://"
    requires |url| > 0 && forall i :: 0 <= i < |url| ==> IsUrlChar(url[i])
    ensures ApplyCommonRules(p + " " + scheme + url) == ApplyCommonRules(p) + " "
  {
    var w := scheme + url;
    NormalBeforeUrl(p, scheme, url);
    AppendAssoc(p + " ", scheme, url);
    ApplyCommonRulesSplitsAtSpace(p, w);
    NormalIsStable(w);
    UrlIsDeleted(scheme, url, "");
    assert w + "" == w;
    assert ApplyCommonRules(w) == "";
  }

  lemma SpaceIsKept()
    ensures DeleteSpecialChars(" ") == " "
  {
    DeleteSpecialCharsOfKept(" ");
  }

  /** Normal text, a space and a URL are in normal form together. */
  lemma NormalBeforeUrl(p: string, scheme: string, url: string)
    requires IsNormalSpacing(p) && |p| > 0
    requires scheme == "http://" || scheme == "https://"
    requires |url| > 0 && forall i :: 0 <= i < |url| ==> IsUrlChar(url[i])
    ensures IsNormalSpacing(p + " " + scheme + url)
  {
    var tail := scheme + url;
    assert IsWord(tail) by {
      forall i | 0 <= i < |tail| ensures !IsSpace(tail[i]) {
        if i >= |scheme| {
          assert tail[i] == url[i - |scheme|];
        }
      }
    }
    AppendAssoc(p + " ", scheme, url);
    NormalThenWord(p, tail);
  }

  /** Normal text, one space and a word are in normal form together. */
  lemma NormalThenWord(p: string, w: string)
    requires IsNormalSpacing(p) && |p| > 0 && IsWord(w)
    ensures IsNormalSpacing(p + " " + w)
  {
    var x := p + " " + w;
    assert forall i :: 0 <= i < |p| ==> x[i] == p[i];
    assert x[|p|] == ' ';
    assert forall i :: |p| < i < |x| ==> x[i] == w[i - |p| - 1];
  }

  /** Two words with one space between them are in normal form. */
  lemma TwoWordsAreNormal(w1: string, w2: string)
    requires IsWord(w1) && IsWord(w2)
    ensures IsNormalSpacing(w1 + " " + w2)
  {
    NormalThenWord(w1, w2);
  }

  // The `clean_pdf` test, on a shortened licence text that keeps its
  // features: no-break spaces between newlines, the parenthesised `(BY)`,
  // and the licence URL at the end. The text is
  // "(BY)\n\xa0\nto http://creativecommons.org/licenses/by/4.0/\n\xa0\n",
  // written below as its words and the whitespace around them.

  lemma PdfExampleLayout(seps: seq<string>, words: seq<string>)
    requires seps == ["", "\n\U{a0}\n", " ", "\n\U{a0}\n"]
    requires words == ["(BY)", "to", "http://" + "creativecommons.org/licenses/by/4.0/"]
    ensures forall k :: 0 <= k < 4 ==> AllSpace(seps[k])
    ensures forall k :: 0 < k < 3 ==> |seps[k]| > 0
    ensures forall k :: 0 <= k < 3 ==> IsWord(words[k])
  {
    PdfExampleUrlIsWord(words[2]);
  }

  lemma PdfExampleUrlIsWord(u: string)
    requires u == "http://" + "creativecommons.org/licenses/by/4.0/"
    ensures IsWord(u)
  {
    assert forall i :: 0 <= i < |u| ==> IsUrlChar(u[i]);
  }

  lemma PdfExampleWords(w1: string, w2: string, url: string)
    requires w1 == "(BY)" && w2 == "to" && url == "creativecommons.org/licenses/by/4.0/"
    ensures IsWord(w1) && IsWord(w2) && '/' !in w1 + " " + w2 && '@' !in w1 + " " + w2
    ensures |url| > 0 && forall i :: 0 <= i < |url| ==> IsUrlChar(url[i])
  {
  }

  lemma PdfExampleShape(p: string)
    requires p == "(BY)" + " " + "to"
    ensures p == (['('] + "BY") + ([')'] + " to")
    ensures "BY" + " to" + " " == "BY to "
    ensures forall i :: 0 <= i < |" to"| ==> IsKept(" to"[i])
  {
  }

  /** The parentheses go, the letters stay. */
  lemma PdfExampleDelete(p: string)
    requires p == "(BY)" + " " + "to"
    ensures DeleteSpecialChars(p) + " " == "BY to "
  {
    PdfExampleShape(p);
    DeleteSpecialCharsAppend(['('] + "BY", [')'] + " to");
    DeleteSpecialCharsBefore('(', "BY");
    DeleteSpecialCharsBefore(')', " to");
  }

  /** The test of `clean_pdf`: the no-break spaces and newlines collapse,
      `(BY)` loses its parentheses, and the result ends with the space that
      preceded the deleted URL, so it is not in normal form. */
  lemma CleanPdfTestExample(t: string)
    requires t == SpacedText(["", "\n\U{a0}\n", " ", "\n\U{a0}\n"],
                             ["(BY)", "to", "http://" + "creativecommons.org/licenses/by/4.0/"])
    ensures CleanPdf(t) == "BY to "
    ensures !IsNormalSpacing(CleanPdf(t))
  {
    var seps := ["", "\n\U{a0}\n", " ", "\n\U{a0}\n"];
    var w1, w2, url := "(BY)", "to", "creativecommons.org/licenses/by/4.0/";
    var words := [w1, w2, "http://" + url];
    assert Strip(CollapseWhitespace(t)) == w1 + " " + w2 + " " + "http://" + url by {
      PdfExampleLayout(seps, words);
      WordsOfSpacedText(seps, words);
      NormalizeIsJoinedWords(t);
      JoinThree(w1, w2, "http://" + url, ' ');
      AppendAssoc(w1 + " " + w2 + " ", "http://", url);
    }
    PdfExampleWords(w1, w2, url);
    var p := w1 + " " + w2;
    TwoWordsAreNormal(w1, w2);
    ApplyCommonRulesNormalized(t);
    SpaceBeforeFinalUrlSurvives(p, "http://", url);
    NormalIsStable(p);
    StripUrlsWithoutSlash(p);
    StripEmailsWithoutAt(p);
    PdfExampleDelete(p);
  }
}
