/** The `document_to_podcast` command: the lookups of loader and cleaner for a
    validated input file, the default text-to-text model, the character
    budget cut from the cleaned text, and the loop that accumulates the
    streamed script while logging it line by line. */
module Cli {
  import opened Base
  import opened Text
  import opened RegexSteps
  import opened Config
  import opened ModelLoaders
  import Tables = Preprocessing
  import Cleaners = DataCleaners

  // ---------------------------------------------------------------------
  // Loader and cleaner of the input file

  /** `DATA_LOADERS[suffix]` and `DATA_CLEANERS[suffix]` for a validated
      input file. Both lookups succeed for every file that passes
      validation, and such a file is never read as a URL. */
  function InputPipeline(inputFile: string): (r: Result<(Tables.Loader, Tables.Cleaner)>)
    ensures r.Ok? <==> ValidateInputFile(inputFile).Ok?
    ensures r.Err? ==> r == Err(ValueError(InputFileError))
    ensures r.Ok? ==> r.value == (Tables.DataLoaders[PathSuffix(inputFile)], Tables.DataCleaners[PathSuffix(inputFile)])
    ensures r.Ok? ==> r.value.0 != Tables.LoadUrl
  {
    match ValidateInputFile(inputFile)
    case Err(e) => Err(e)
    case Ok(file) =>
      var suffix := PathSuffix(file);
      ValidateInputFileAccepts(file);
      Tables.TableKeys();
      Ok((Tables.DataLoaders[suffix], Tables.DataCleaners[suffix]))
  }

  /** A file named with one of the five extensions gets that extension's
      loader and cleaner. */
  lemma InputPipelineOfExtension(stem: string, ext: string)
    requires |stem| > 0 && stem[|stem| - 1] != '/'
    requires ext in Tables.FileExtensions
    ensures InputPipeline(stem + ext) == Ok((Tables.DataLoaders[ext], Tables.DataCleaners[ext]))
  {
    var f := stem + ext;
    ValidateInputFileOfExtension(stem, ext);
    assert ValidateInputFile(f) == Ok(f) && PathSuffix(f) == ext;
  }

  // ---------------------------------------------------------------------
  // The default text-to-text model

  /** The default `text_to_text_model` of the command passes the model
      validator. */
  lemma DefaultModelIsValid()
    ensures ValidateTextToTextModel(DefaultTextToTextModel) == Ok(DefaultTextToTextModel)
  {
    DefaultModelParts(DefaultModelOwner, DefaultModelRepo, DefaultModelFile);
    ValidateTextToTextModelOfParts(DefaultModelOwner, DefaultModelRepo, DefaultModelFile);
  }

  // ---------------------------------------------------------------------
  // The character budget

  /** Python's `s[:m]`; a negative bound counts from the end. */
  function SliceTo(s: string, m: int): (r: string)
    ensures StartsWith(s, r)
    ensures m >= 0 ==> |r| == (if m < |s| then m else |s|)
    ensures m < 0 ==> |r| == (if |s| + m > 0 then |s| + m else 0)
  {
    if m >= 0 then (if m < |s| then s[..m] else s)
    else if |s| + m > 0 then s[..|s| + m]
    else ""
  }

  /** About four characters per token. */
  const CharactersPerToken := 4

  /** The cleaned text cut to four characters per token of the model's
      context; a text within the budget is kept whole. */
  function BudgetedText(cleanText: string, nCtx: int): (r: string)
    ensures StartsWith(cleanText, r)
    ensures nCtx >= 0 ==> |r| == (if |cleanText| < nCtx * CharactersPerToken then |cleanText| else nCtx * CharactersPerToken)
    ensures |cleanText| <= nCtx * CharactersPerToken ==> r == cleanText
  {
    SliceTo(cleanText, nCtx * CharactersPerToken)
  }

  /** The model input of a file whose cleaner is one of the two modelled
      here; `markdown_to_text` and `clean_html` are not part of this model. */
  function ModelInput(cleaner: Tables.Cleaner, rawText: string, nCtx: int): Option<string>
  {
    match cleaner
    case CleanWithRegex => Some(BudgetedText(Cleaners.CleanWithRegex(rawText), nCtx))
    case CleanMarkdown => Some(BudgetedText(Cleaners.CleanMarkdown(rawText), nCtx))
    case _ => None
  }

  /** A prefix of text in normal form keeps every character and spacing
      guarantee except the one about its end. */
  lemma PrefixOfNormal(x: string, r: string)
    requires IsNormalSpacing(x) && forall i :: 0 <= i < |x| ==> IsCleanChar(x[i])
    requires StartsWith(x, r)
    ensures forall i :: 0 <= i < |r| ==> IsCleanChar(r[i])
    ensures OnlyPlainSpaces(r) && NoAdjacentSpaces(r)
    ensures |r| > 0 ==> r[0] != ' '
  {
    assert forall i :: 0 <= i < |r| ==> r[i] == x[i];
  }

  /** What the model receives from a `.txt` or `.md` file is a prefix of the
      cleaned text: only the characters a cleaner keeps, single plain spaces
      and no leading space, within the budget. */
  lemma ModelInputIsClean(cleaner: Tables.Cleaner, rawText: string, nCtx: int)
    requires cleaner == Tables.CleanWithRegex || cleaner == Tables.CleanMarkdown
    ensures ModelInput(cleaner, rawText, nCtx).Some?
    ensures var r := ModelInput(cleaner, rawText, nCtx).value;
      && (forall i :: 0 <= i < |r| ==> IsCleanChar(r[i]))
      && OnlyPlainSpaces(r) && NoAdjacentSpaces(r) && (|r| > 0 ==> r[0] != ' ')
      && |r| <= |rawText|
      && (nCtx >= 0 ==> |r| <= nCtx * CharactersPerToken)
  {
    var x := if cleaner == Tables.CleanWithRegex then Cleaners.CleanWithRegex(rawText)
             else Cleaners.CleanMarkdown(rawText);
    if cleaner == Tables.CleanWithRegex {
      Cleaners.CleanWithRegexIsNormal(rawText);
      Cleaners.CleanWithRegexChars(rawText);
    } else {
      Cleaners.CleanMarkdownIsClean(rawText);
    }
    PrefixOfNormal(x, BudgetedText(x, nCtx));
  }

  /** The cut can fall just after a space, so the model input need not be in
      normal form even though the cleaned text is. */
  lemma BudgetCanEndInSpace(x: string)
    requires x == "abc def"
    ensures IsNormalSpacing(x)
    ensures BudgetedText(x, 1) == "abc "
    ensures !IsNormalSpacing(BudgetedText(x, 1))
  {
    assert x[..4] == "abc ";
  }

  // ---------------------------------------------------------------------
  // Accumulating the streamed script

  /** The line buffer's history, chunk by chunk from the first: the lines
      logged so far and what the buffer holds. Each chunk is appended to the
      buffer, and a buffer that then ends with a newline is logged and
      emptied. */
  function Flush(chunks: seq<string>): (seq<string>, string)
    decreases |chunks|
  {
    if |chunks| == 0 then ([], "")
    else
      var prev := Flush(chunks[..|chunks| - 1]);
      var t := prev.1 + chunks[|chunks| - 1];
      if EndsWith(t, "\n") then (prev.0 + [t], "") else (prev.0, t)
  }

  /** Logging loses nothing: the logged lines followed by the buffer are the
      whole streamed text, and the buffer is its end. */
  lemma {:induction false} FlushKeepsText(chunks: seq<string>)
    ensures Concat(Flush(chunks).0) + Flush(chunks).1 == Concat(chunks)
    ensures EndsWith(Concat(chunks), Flush(chunks).1)
    decreases |chunks|
  {
    if |chunks| > 0 {
      var init, last := chunks[..|chunks| - 1], chunks[|chunks| - 1];
      var prev := Flush(init);
      var t := prev.1 + last;
      FlushKeepsText(init);
      ConcatSnoc(init, last);
      assert init + [last] == chunks;
      AppendAssoc(Concat(prev.0), prev.1, last);
      if EndsWith(t, "\n") {
        ConcatSnoc(prev.0, t);
        assert Concat(prev.0 + [t]) + "" == Concat(prev.0 + [t]);
      }
      var c := Concat(chunks);
      var b := Flush(chunks).1;
      assert c == Concat(Flush(chunks).0) + b;
      assert c[|c| - |b|..] == b;
    }
  }

  /** Every logged line ends with a newline and the buffer never does. */
  lemma {:induction false} FlushLines(chunks: seq<string>)
    ensures forall k :: 0 <= k < |Flush(chunks).0| ==> EndsWith(Flush(chunks).0[k], "\n")
    ensures !EndsWith(Flush(chunks).1, "\n")
    decreases |chunks|
  {
    if |chunks| > 0 {
      FlushLines(chunks[..|chunks| - 1]);
    }
  }

  /** The loop over the streamed chunks: every chunk is appended to the
      script and to a line buffer, and the buffer is logged and emptied
      whenever it ends with a newline. Returns the script, the logged
      lines and what is left in the buffer. */
  method AccumulateScript(chunks: seq<string>) returns (script: string, logged: seq<string>, text: string)
    ensures script == Concat(chunks)
    ensures (logged, text) == Flush(chunks)
    ensures Concat(logged) + text == script
    ensures forall k :: 0 <= k < |logged| ==> EndsWith(logged[k], "\n")
    ensures !EndsWith(text, "\n")
    ensures EndsWith(script, text)
  {
    script, logged, text := "", [], "";
    for i := 0 to |chunks|
      invariant script == Concat(chunks[..i])
      invariant (logged, text) == Flush(chunks[..i])
    {
      ConcatSnoc(chunks[..i], chunks[i]);
      assert chunks[..i + 1] == chunks[..i] + [chunks[i]];
      assert chunks[..i + 1][..i] == chunks[..i];
      text := text + chunks[i];
      script := script + chunks[i];
      if EndsWith(text, "\n") {
        logged := logged + [text];
        text := "";
      }
    }
    assert chunks[..|chunks|] == chunks;
    FlushKeepsText(chunks);
    FlushLines(chunks);
  }
}
