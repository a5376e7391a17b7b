/** The text cleaners of `document_to_podcast.preprocessing.data_cleaners`:
    `clean_with_regex`, and `clean_markdown`, which first deletes Markdown
    images. */
module DataCleaners {
  import opened Base
  import opened Text
  import opened RegexSteps

  /** `clean_with_regex`: delete URLs, then e-mail addresses, then every
      character outside the kept class, and finally collapse whitespace runs
      to one space and strip both ends. */
  function CleanWithRegex(s: string): (r: string)
    ensures |r| <= |s|
  {
    var noUrls := StripUrls(s);
    var noEmails := StripEmails(noUrls);
    var kept := DeleteSpecialChars(noEmails);
    Strip(CollapseWhitespace(kept))
  }

  /** The text the whitespace step of `clean_with_regex` works on. */
  function KeptText(s: string): string
  {
    DeleteSpecialChars(StripEmails(StripUrls(s)))
  }

  /** Reference definition: the result is the words of the filtered text
      joined by single spaces, `" ".join(kept.split())`. */
  lemma CleanWithRegexIsJoinedWords(s: string)
    ensures CleanWithRegex(s) == JoinWords(Words(KeptText(s)))
  {
    NormalizeIsJoinedWords(KeptText(s));
  }

  /** The output holds only ASCII letters and digits, the plain space and
      `. , ! ? ; : " '`. */
  lemma CleanWithRegexChars(s: string)
    ensures forall i :: 0 <= i < |CleanWithRegex(s)| ==> IsCleanChar(CleanWithRegex(s)[i])
  {
    var k := KeptText(s);
    var r := CleanWithRegex(s);
    DeleteSpecialCharsSpec(StripEmails(StripUrls(s)));
    NormalizeIsNormal(k);
    NormalizedChars(k);
    forall i | 0 <= i < |r| ensures IsCleanChar(r[i]) {
      if r[i] != ' ' {
        KeptMember(k, r[i]);
        KeptIsClean(r[i]);
      }
    }
  }

  lemma KeptMember(k: string, c: char)
    requires forall i :: 0 <= i < |k| ==> IsKept(k[i])
    requires c in k
    ensures IsKept(c)
  {
  }

  /** The output is in normal form: words separated by single plain spaces,
      no space at either end. */
  lemma CleanWithRegexIsNormal(s: string)
    ensures IsNormalSpacing(CleanWithRegex(s))
  {
    NormalizeIsNormal(KeptText(s));
  }

  /** Every step only deletes characters or shrinks a whitespace run, so the
      text the whitespace step sees is a deletion of the input. */
  lemma KeptTextDeletes(s: string)
    ensures IsSubsequence(KeptText(s), s)
  {
    var u := StripUrls(s);
    var e := StripEmails(u);
    StripUrlsDeletes(s);
    StripEmailsDeletes(u);
    DeleteSpecialCharsSpec(e);
    SubsequenceTransitive(e, u, s);
    SubsequenceTransitive(KeptText(s), e, s);
  }

  /** Clean text contains no `/` and no `@`, and every character in it
      survives the special-character step. */
  lemma CleanCharsAreInert(x: string)
    requires forall i :: 0 <= i < |x| ==> IsCleanChar(x[i])
    ensures '/' !in x && '@' !in x
    ensures forall i :: 0 <= i < |x| ==> IsKept(x[i])
  {
  }

  /** Cleaning twice is cleaning once: the output holds no `/` and no `@`,
      so the URL and e-mail steps leave it alone, every character is kept,
      and normal spacing is stable. */
  lemma CleanWithRegexIdempotent(s: string)
    ensures CleanWithRegex(CleanWithRegex(s)) == CleanWithRegex(s)
  {
    var x := CleanWithRegex(s);
    CleanWithRegexChars(s);
    CleanCharsAreInert(x);
    assert KeptText(x) == x by {
      StripUrlsWithoutSlash(x);
      StripEmailsWithoutAt(x);
      DeleteSpecialCharsOfKept(x);
    }
    assert IsNormalSpacing(x) by {
      CleanWithRegexIsNormal(s);
    }
    NormalIsStable(x);
  }

  // The docstring example. Each lemma below names its text through a
  // parameter fixed by `requires`, which keeps the verifier from evaluating
  // the whole pipeline on the literal at once.

  lemma DocExampleText(t: string)
    requires t == "\U{a0}Hello,   world! "
    ensures t == SpacedText(["\U{a0}", "   ", " "], ["Hello,", "world!"])
  {
  }

  lemma DocExampleWords(t: string)
    requires t == "\U{a0}Hello,   world! "
    ensures Words(t) == ["Hello,", "world!"]
  {
    DocExampleText(t);
    WordsOfSpacedText(["\U{a0}", "   ", " "], ["Hello,", "world!"]);
  }

  lemma DocExampleJoin()
    ensures JoinWords(["Hello,", "world!"]) == "Hello, world!"
  {
    assert ["Hello,", "world!"][1..] == ["world!"];
  }

  /** Plain text followed by a trailing URL: the filtered text is the plain
      text alone. */
  lemma KeptTextBeforeUrl(a: string, scheme: string, url: string)
    requires 'h' !in a && '@' !in a && forall i :: 0 <= i < |a| ==> IsKept(a[i])
    requires scheme == "http://" || scheme == "https://"
    requires |url| > 0 && forall i :: 0 <= i < |url| ==> IsUrlChar(url[i])
    ensures KeptText(a + scheme + url) == a
  {
    UrlAtEnd(a, scheme, url);
    StripEmailsWithoutAt(a);
    DeleteSpecialCharsOfKept(a);
  }

  lemma DocExamplePlainText(a: string)
    requires a == "\U{a0}Hello,   world! "
    ensures 'h' !in a && '@' !in a && forall i :: 0 <= i < |a| ==> IsKept(a[i])
  {
  }

  lemma DocExampleUrlChars(url: string)
    requires url == "example.com"
    ensures |url| > 0 && forall i :: 0 <= i < |url| ==> IsUrlChar(url[i])
  {
  }

  lemma DocExampleKept(s: string)
    requires s == "\U{a0}Hello,   world! http://example.com"
    ensures KeptText(s) == "\U{a0}Hello,   world! "
  {
    var a, url := "\U{a0}Hello,   world! ", "example.com";
    assert s == a + "http://" + url;
    DocExamplePlainText(a);
    DocExampleUrlChars(url);
    KeptTextBeforeUrl(a, "http://", url);
  }

  /** The docstring example: a leading no-break space, a run of spaces and a
      trailing URL give `"Hello, world!"`. */
  lemma CleanWithRegexDocExample(s: string)
    requires s == "\U{a0}Hello,   world! http://example.com"
    ensures CleanWithRegex(s) == "Hello, world!"
  {
    DocExampleKept(s);
    CleanWithRegexIsJoinedWords(s);
    DocExampleWords("\U{a0}Hello,   world! ");
    DocExampleJoin();
  }

  // ---------------------------------------------------------------------
  // Markdown images: re.sub(r'!\[.*?\]\(.*?(".*?")?\)', "", s)
  //
  // Each function below reads a suffix of the text and returns how many of
  // its characters the rest of the pattern consumes. `.` matches anything
  // but a newline; a lazy `.*?` first tries to stop as early as possible.

  function Plus(o: Option<nat>, k: nat): Option<nat>
  {
    if o.Some? then Some(o.value + k) else None
  }

  /** After an opening `"`: the lazy title, its closing `"` and the final
      `)`, which must follow the closing quote directly. */
  function TitleLength(s: string): (n: Option<nat>)
    ensures n.Some? ==> 2 <= n.value <= |s|
    decreases |s|
  {
    if |s| >= 2 && s[0] == '"' && s[1] == ')' then Some(2)
    else if |s| > 0 && s[0] != '\n' then Plus(TitleLength(s[1..]), 1)
    else None
  }

  /** After the target: the optional title group is tried first, then a
      bare `)`. */
  function AfterTarget(s: string): (n: Option<nat>)
    ensures n.Some? ==> 1 <= n.value <= |s|
  {
    if |s| > 0 && s[0] == '"' && TitleLength(s[1..]).Some? then Plus(TitleLength(s[1..]), 1)
    else if |s| > 0 && s[0] == ')' then Some(1)
    else None
  }

  /** After `](`: the lazy target, then the title group and `)`. */
  function TargetLength(s: string): (n: Option<nat>)
    ensures n.Some? ==> 1 <= n.value <= |s|
    decreases |s|
  {
    if AfterTarget(s).Some? then AfterTarget(s)
    else if |s| > 0 && s[0] != '\n' then Plus(TargetLength(s[1..]), 1)
    else None
  }

  /** After `![`: the lazy alt text, then `](` and the rest of the pattern. */
  function AltLength(s: string): (n: Option<nat>)
    ensures n.Some? ==> 3 <= n.value <= |s|
    decreases |s|
  {
    if |s| >= 2 && s[0] == ']' && s[1] == '(' && TargetLength(s[2..]).Some? then Plus(TargetLength(s[2..]), 2)
    else if |s| > 0 && s[0] != '\n' then Plus(AltLength(s[1..]), 1)
    else None
  }

  /** Length of the image match at the start of `s`; 0 when there is none. */
  function ImageMatch(s: string): (n: nat)
    ensures n <= |s|
    ensures n > 0 ==> n >= 5 && s[0] == '!' && s[1] == '['
  {
    if |s| >= 2 && s[0] == '!' && s[1] == '[' && AltLength(s[2..]).Some? then 2 + AltLength(s[2..]).value
    else 0
  }

  /** The image substitution of `clean_markdown`: deletes every match. */
  function StripImages(s: string): (r: string)
    ensures |r| <= |s|
    decreases |s|
  {
    if |s| == 0 then ""
    else
      var n := ImageMatch(s);
      if n > 0 then StripImages(s[n..]) else [s[0]] + StripImages(s[1..])
  }

  /** Removing images only deletes characters. */
  lemma {:induction false} StripImagesDeletes(s: string)
    ensures IsSubsequence(StripImages(s), s)
    decreases |s|
  {
    if |s| > 0 {
      var n := ImageMatch(s);
      if n > 0 {
        StripImagesDeletes(s[n..]);
        SubsequenceSkip(StripImages(s[n..]), s, n);
      } else {
        StripImagesDeletes(s[1..]);
        SubsequenceKeep(StripImages(s[1..]), s);
      }
    }
  }

  /** Text without `!` cannot start an image. */
  lemma {:induction false} StripImagesAfterPlainText(a: string, b: string)
    requires '!' !in a
    ensures StripImages(a + b) == a + StripImages(b)
    decreases |a|
  {
    if |a| > 0 {
      ConsTail(a, b);
      assert (a + b)[0] == a[0];
      StripImagesAfterPlainText(a[1..], b);
      ConsAppend(a, StripImages(b));
    } else {
      assert a + b == b;
    }
  }

  /** `)` or `"title")`: what closes an image after its target. */
  function TitleTail(title: Option<string>): string
  {
    if title.Some? then "\"" + title.value + "\")" else ")"
  }

  /** Markdown image syntax `![alt](target)` or `![alt](target"title")`; a
      space before the title belongs to the target. */
  function ImageSyntax(alt: string, target: string, title: Option<string>): string
  {
    "![" + (alt + ("](" + (target + TitleTail(title))))
  }

  predicate ImageParts(alt: string, target: string, title: Option<string>)
  {
    && ']' !in alt && '\n' !in alt
    && '"' !in target && ')' !in target && '\n' !in target
    && (title.Some? ==> '"' !in title.value && '\n' !in title.value)
  }

  lemma {:induction false} TitleSkip(x: string, y: string)
    requires '"' !in x && '\n' !in x
    ensures TitleLength(x + y) == Plus(TitleLength(y), |x|)
    decreases |x|
  {
    if |x| > 0 {
      ConsTail(x, y);
      assert (x + y)[0] == x[0];
      TitleSkip(x[1..], y);
    } else {
      assert x + y == y;
    }
  }

  lemma {:induction false} TargetSkip(x: string, y: string)
    requires '"' !in x && ')' !in x && '\n' !in x
    ensures TargetLength(x + y) == Plus(TargetLength(y), |x|)
    decreases |x|
  {
    if |x| > 0 {
      ConsTail(x, y);
      assert (x + y)[0] == x[0];
      TargetSkip(x[1..], y);
    } else {
      assert x + y == y;
    }
  }

  lemma {:induction false} AltSkip(x: string, y: string)
    requires ']' !in x && '\n' !in x
    ensures AltLength(x + y) == Plus(AltLength(y), |x|)
    decreases |x|
  {
    if |x| > 0 {
      ConsTail(x, y);
      assert (x + y)[0] == x[0];
      AltSkip(x[1..], y);
    } else {
      assert x + y == y;
    }
  }

  lemma TitleTailMatch(title: Option<string>, rest: string)
    requires title.Some? ==> '"' !in title.value && '\n' !in title.value
    ensures AfterTarget(TitleTail(title) + rest) == Some(|TitleTail(title)|)
  {
    if title.Some? {
      var t := title.value;
      AppendAssoc("\"" + t, "\")", rest);
      AppendAssoc("\"", t, "\")" + rest);
      var s := "\"" + (t + ("\")" + rest));
      SplitAppend("\"", t + ("\")" + rest));
      TitleSkip(t, "\")" + rest);
      assert TitleLength("\")" + rest) == Some(2);
    }
  }

  lemma TargetMatch(target: string, tail: string)
    requires '"' !in target && ')' !in target && '\n' !in target
    requires AfterTarget(tail).Some?
    ensures TargetLength(target + tail) == Some(|target| + AfterTarget(tail).value)
  {
    TargetEndsAtTail(tail);
    TargetSkip(target, tail);
    PlusSome(AfterTarget(tail).value, |target|);
  }

  lemma PlusSome(m: nat, k: nat)
    ensures Plus(Some(m), k) == Some(k + m)
  {
  }

  lemma TargetEndsAtTail(s: string)
    requires AfterTarget(s).Some?
    ensures TargetLength(s) == AfterTarget(s)
  {
  }

  lemma AltMatch(alt: string, target: string, title: Option<string>, rest: string)
    requires ImageParts(alt, target, title)
    ensures AltLength(alt + ("](" + (target + TitleTail(title))) + rest) ==
            Some(|alt| + 2 + |target| + |TitleTail(title)|)
  {
    var tail := target + TitleTail(title);
    AppendAssoc(target, TitleTail(title), rest);
    TitleTailMatch(title, rest);
    TargetMatch(target, TitleTail(title) + rest);
    AppendAssoc("](", tail, rest);
    SplitAppend("](", tail + rest);
    AppendAssoc(alt, "](" + tail, rest);
    AltSkip(alt, ("](" + tail) + rest);
  }

  /** A well-formed image, alone or with a title, is deleted entirely. */
  lemma ImageIsDeleted(alt: string, target: string, title: Option<string>, rest: string)
    requires ImageParts(alt, target, title)
    ensures StripImages(ImageSyntax(alt, target, title) + rest) == StripImages(rest)
  {
    var inner := alt + ("](" + (target + TitleTail(title)));
    var s := ImageSyntax(alt, target, title) + rest;
    AppendAssoc("![", inner, rest);
    SplitAppend("![", inner + rest);
    AltMatch(alt, target, title, rest);
    assert ImageMatch(s) == |ImageSyntax(alt, target, title)|;
    SplitAppend(ImageSyntax(alt, target, title), rest);
  }

  // ---------------------------------------------------------------------
  // clean_markdown

  /** `clean_markdown`: delete Markdown images, then `clean_with_regex`. */
  function CleanMarkdown(s: string): (r: string)
    ensures |r| <= |s|
  {
    CleanWithRegex(StripImages(s))
  }

  /** The output of `clean_markdown` is clean text in normal form, and the
      image step only deleted characters. */
  lemma CleanMarkdownIsClean(s: string)
    ensures IsSubsequence(StripImages(s), s)
    ensures IsNormalSpacing(CleanMarkdown(s))
    ensures forall i :: 0 <= i < |CleanMarkdown(s)| ==> IsCleanChar(CleanMarkdown(s)[i])
  {
    StripImagesDeletes(s);
    CleanWithRegexIsNormal(StripImages(s));
    CleanWithRegexChars(StripImages(s));
  }

  /** Without `!` there is no image, and `clean_markdown` is
      `clean_with_regex`. */
  lemma CleanMarkdownWithoutImages(s: string)
    requires '!' !in s
    ensures CleanMarkdown(s) == CleanWithRegex(s)
  {
    StripImagesAfterPlainText(s, "");
    assert s + "" == s;
  }

  // The docstring example of `clean_markdown`, in single steps as above.

  lemma MarkdownExampleImageParts()
    ensures ImageParts("alt text", "image.jpg ", Some("Image Title"))
  {
  }

  lemma MarkdownExampleImageGone()
    ensures StripImages(ImageSyntax("alt text", "image.jpg ", Some("Image Title"))) == ""
  {
    var img := ImageSyntax("alt text", "image.jpg ", Some("Image Title"));
    MarkdownExampleImageParts();
    ImageIsDeleted("alt text", "image.jpg ", Some("Image Title"), "");
    assert img + "" == img;
  }

  lemma MarkdownExampleImageText()
    ensures ImageSyntax("alt text", "image.jpg ", Some("Image Title")) ==
            "![alt text](image.jpg \"Image Title\")"
  {
  }

  lemma MarkdownExampleShape(s: string)
    requires s == "# Title   with image ![alt text](image.jpg \"Image Title\")"
    ensures s == "# Title   with image " + "![alt text](image.jpg \"Image Title\")"
  {
  }

  lemma MarkdownExampleImage(s: string)
    requires s == "# Title   with image ![alt text](image.jpg \"Image Title\")"
    ensures StripImages(s) == "# Title   with image "
  {
    var a := "# Title   with image ";
    var img := ImageSyntax("alt text", "image.jpg ", Some("Image Title"));
    MarkdownExampleShape(s);
    MarkdownExampleImageText();
    assert '!' !in a;
    StripImagesAfterPlainText(a, img);
    MarkdownExampleImageGone();
    assert a + "" == a;
  }

  lemma MarkdownExampleKeptChars(k: string)
    requires k == " Title   with image "
    ensures forall i :: 0 <= i < |k| ==> IsKept(k[i])
  {
  }

  lemma MarkdownExampleHeading(a: string)
    requires a == "# Title   with image "
    ensures a == ['#'] + " Title   with image "
  {
  }

  lemma MarkdownExampleDelete(a: string)
    requires a == "# Title   with image "
    ensures DeleteSpecialChars(a) == " Title   with image "
  {
    var k := " Title   with image ";
    MarkdownExampleHeading(a);
    MarkdownExampleKeptChars(k);
    DeleteSpecialCharsBefore('#', k);
  }

  lemma MarkdownExampleKept(a: string)
    requires a == "# Title   with image "
    ensures KeptText(a) == " Title   with image "
  {
    assert '/' !in a && '@' !in a;
    StripUrlsWithoutSlash(a);
    StripEmailsWithoutAt(a);
    MarkdownExampleDelete(a);
  }

  lemma MarkdownExampleText(t: string)
    requires t == " Title   with image "
    ensures t == SpacedText([" ", "   ", " ", " "], ["Title", "with", "image"])
  {
    var x3 := SpacedText([" "], []);
    var x2 := SpacedText([" ", " "], ["image"]);
    var x1 := SpacedText(["   ", " ", " "], ["with", "image"]);
    var x0 := SpacedText([" ", "   ", " ", " "], ["Title", "with", "image"]);
    assert x2 == " " + "image" + x3;
    assert x1 == "   " + "with" + x2;
    assert x0 == " " + "Title" + x1;
  }

  lemma MarkdownExampleWords(t: string)
    requires t == " Title   with image "
    ensures Words(t) == ["Title", "with", "image"]
  {
    MarkdownExampleText(t);
    WordsOfSpacedText([" ", "   ", " ", " "], ["Title", "with", "image"]);
  }

  lemma MarkdownExampleJoin()
    ensures JoinWords(["Title", "with", "image"]) == "Title with image"
  {
    JoinThree("Title", "with", "image", ' ');
  }

  /** The docstring example: the heading mark and the titled image go, the
      spaces collapse, giving `"Title with image"`. */
  lemma CleanMarkdownDocExample(s: string)
    requires s == "# Title   with image ![alt text](image.jpg \"Image Title\")"
    ensures CleanMarkdown(s) == "Title with image"
  {
    var a := "# Title   with image ";
    MarkdownExampleImage(s);
    MarkdownExampleKept(a);
    CleanWithRegexIsJoinedWords(a);
    MarkdownExampleWords(" Title   with image ");
    MarkdownExampleJoin();
  }
}
