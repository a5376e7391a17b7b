/** `document_to_podcast.config`: the default prompt and speakers, the field
    validators of the configuration, the speaker description line and the
    accepted text-to-speech model identifiers. */
module Config {
  import opened Base
  import opened Text
  import opened Preprocessing

  // ---------------------------------------------------------------------
  // The default prompt

  const SpeakersPlaceholder := "{SPEAKERS}"

  const PromptIntro :=
    "\nYou are a podcast scriptwriter generating engaging and natural-sounding conversations in JSON format.\n"
    + "The script features the following speakers:\n"

  const PromptInstructions :=
    "\nInstructions:\n"
    + "- Write dynamic, easy-to-follow dialogue.\n"
    + "- Include natural interruptions and interjections.\n"
    + "- Avoid repetitive phrasing between speakers.\n"
    + "- Format output as a JSON conversation.\n"
    + "Example:\n"
    + "{\n"
    + "  \"Speaker 1\": \"Welcome to our podcast! Today, we're exploring...\",\n"
    + "  \"Speaker 2\": \"Hi! I'm excited to hear about this. Can you explain...\",\n"
    + "  \"Speaker 1\": \"Sure! Imagine it like this...\",\n"
    + "  \"Speaker 2\": \"Oh, that's cool! But how does...\"\n"
    + "}\n"

  /** `DEFAULT_PROMPT`: the speakers placeholder sits between the
      introduction and the instructions. */
  const DefaultPrompt := PromptIntro + SpeakersPlaceholder + PromptInstructions

  // ---------------------------------------------------------------------
  // Path suffixes, as `pathlib.PurePosixPath(value).suffix` computes them

  /** The text after the last `/` of `p` (all of `p` if it has none). */
  function LastComponent(p: string): (c: string)
    ensures |c| <= |p| && '/' !in c
  {
    if |p| == 0 || p[|p| - 1] == '/' then "" else LastComponent(p[..|p| - 1]) + [p[|p| - 1]]
  }

  /** The final name of a path: its last component that is neither empty
      nor `.` (such components are dropped when the path is parsed), or ""
      when there is none, as for `/` or `.`. */
  function PathName(p: string): (name: string)
    ensures '/' !in name && name != "."
    decreases |p|
  {
    var c := LastComponent(p);
    if c != "" && c != "." then c
    else if |c| == |p| then ""
    else PathName(p[..|p| - |c| - 1])
  }

  /** Python's `s.rfind(c)`: the index of the last `c`, or -1. */
  function RFind(s: string, c: char): (i: int)
    ensures -1 <= i < |s|
    ensures i >= 0 ==> s[i] == c && c !in s[i + 1..]
    ensures i < 0 ==> c !in s
  {
    if |s| == 0 then -1
    else if s[|s| - 1] == c then |s| - 1
    else
      var i := RFind(s[..|s| - 1], c);
      assert i >= 0 ==> s[i + 1..] == s[..|s| - 1][i + 1..] + [s[|s| - 1]];
      i
  }

  /** A suffix that a path can have: a dot, at least one more character,
      and no further dot or slash. */
  predicate IsExtension(e: string)
  {
    |e| >= 2 && e[0] == '.' && '.' !in e[1..] && '/' !in e
  }

  /** The suffix of a name: from its last dot, when that dot is neither the
      first nor the last character; otherwise empty. */
  function NameSuffix(name: string): string
  {
    var i := RFind(name, '.');
    if 0 < i < |name| - 1 then name[i..] else ""
  }

  /** `Path(p).suffix` for a POSIX path. */
  function PathSuffix(p: string): (suffix: string)
    ensures suffix == "" || IsExtension(suffix)
  {
    var name := PathName(p);
    var i := RFind(name, '.');
    assert 0 < i < |name| - 1 ==> name[i..][1..] == name[i + 1..];
    NameSuffix(name)
  }

  /** A dotted tail with no further dot is found by `rfind` at its start. */
  lemma RFindOfTail(x: string, y: string)
    requires |y| >= 1 && y[0] == '.' && '.' !in y[1..]
    ensures RFind(x + y, '.') == |x|
  {
    var s := x + y;
    assert s[|x|] == '.';
  }

  /** Text without a slash extends the last component. */
  lemma {:induction false} LastComponentAppend(x: string, y: string)
    requires '/' !in y
    ensures LastComponent(x + y) == LastComponent(x) + y
    decreases |y|
  {
    if |y| == 0 {
      assert x + y == x;
    } else {
      var y' := y[..|y| - 1];
      assert (x + y)[..|x + y| - 1] == x + y';
      LastComponentAppend(x, y');
      assert y == y' + [y[|y| - 1]];
    }
  }

  /** A name followed by an extension has that extension as its suffix:
      `Path("dir/report.pdf").suffix == ".pdf"`. */
  lemma PathSuffixOfExtension(stem: string, ext: string)
    requires |stem| > 0 && stem[|stem| - 1] != '/'
    requires IsExtension(ext)
    ensures PathSuffix(stem + ext) == ext
  {
    var c := LastComponent(stem);
    LastComponentAppend(stem, ext);
    assert |c| > 0;
    assert PathName(stem + ext) == c + ext;
    RFindOfTail(c, ext);
    assert (c + ext)[|c|..] == ext;
  }

  /** A name that is only an extension, like `.pdf`, is a hidden file with
      no suffix at all. */
  lemma DotFileHasNoSuffix(dir: string, ext: string)
    requires dir == "" || dir[|dir| - 1] == '/'
    requires IsExtension(ext)
    ensures PathSuffix(dir + ext) == ""
  {
    LastComponentAppend(dir, ext);
    assert LastComponent(dir) == "";
    assert PathName(dir + ext) == "" + ext;
    RFindOfTail("", ext);
  }

  // ---------------------------------------------------------------------
  // Field validators

  const InputFileError :=
    "input_file extension must be one of ['.docx', '.html', '.md', '.pdf', '.txt', 'url']"
  const ModelFormatError := "text_to_text_model must be formatted as `owner/repo/file`"
  const ModelGgufError := "text_to_text_model must be a gguf file"
  const PromptError := "text_to_text_prompt must contain `{SPEAKERS}` placeholder"

  /** `validate_input_file`: the value is returned unchanged when its path
      suffix is a key of the loader table, and rejected otherwise. */
  function ValidateInputFile(value: string): (r: Result<string>)
    ensures r.Ok? <==> PathSuffix(value) in DataLoaders
    ensures r.Ok? ==> r.value == value
    ensures r.Err? ==> r.error == ValueError(InputFileError)
  {
    if PathSuffix(value) !in DataLoaders then Err(ValueError(InputFileError)) else Ok(value)
  }

  /** A suffix is never `url`, so the input files accepted are exactly those
      with one of the five file extensions. */
  lemma ValidateInputFileAccepts(value: string)
    ensures ValidateInputFile(value).Ok? <==> PathSuffix(value) in FileExtensions
  {
    TableKeys();
    assert "url"[0] != '.';
  }

  /** Each of the five table keys is a suffix a path can have. */
  lemma FileExtensionShape(ext: string)
    requires ext in FileExtensions
    ensures IsExtension(ext)
  {
    if ext == ".docx" {
      assert ext[1..] == "docx";
    } else if ext == ".html" {
      assert ext[1..] == "html";
    } else if ext == ".md" {
      assert ext[1..] == "md";
    } else if ext == ".pdf" {
      assert ext[1..] == "pdf";
    } else {
      assert ext[1..] == "txt";
    }
  }

  /** Every file with a supported extension passes. */
  lemma ValidateInputFileOfExtension(stem: string, ext: string)
    requires |stem| > 0 && stem[|stem| - 1] != '/'
    requires ext in FileExtensions
    ensures PathSuffix(stem + ext) == ext
    ensures ValidateInputFile(stem + ext) == Ok(stem + ext)
  {
    FileExtensionShape(ext);
    TableKeys();
    PathSuffixOfExtension(stem, ext);
  }

  /** `validate_text_to_text_model`: the part count is checked first, then
      the `.gguf` ending; a valid value is returned unchanged. */
  function ValidateTextToTextModel(value: string): (r: Result<string>)
    ensures r.Ok? ==> r.value == value
  {
    var parts := Split(value, '/');
    if |parts| != 3 then Err(ValueError(ModelFormatError))
    else if !EndsWith(value, ".gguf") then Err(ValueError(ModelGgufError))
    else Ok(value)
  }

  /** The model identifiers accepted are those with exactly two slashes that
      end in `.gguf`; one with the wrong number of slashes is reported as
      badly formatted even when it is not a `.gguf` file either. */
  lemma ValidateTextToTextModelAccepts(value: string)
    ensures ValidateTextToTextModel(value).Ok? <==>
      CountChar(value, '/') == 2 && EndsWith(value, ".gguf")
    ensures CountChar(value, '/') != 2 ==>
      ValidateTextToTextModel(value) == Err(ValueError(ModelFormatError))
    ensures CountChar(value, '/') == 2 && !EndsWith(value, ".gguf") ==>
      ValidateTextToTextModel(value) == Err(ValueError(ModelGgufError))
  {
    SplitCount(value, '/');
  }

  /** `owner/repo/file.gguf` passes whenever the three parts hold no slash. */
  lemma ValidateTextToTextModelOfParts(owner: string, repo: string, file: string)
    requires '/' !in owner && '/' !in repo && '/' !in file
    requires EndsWith(file, ".gguf")
    ensures ValidateTextToTextModel(owner + "/" + repo + "/" + file) == Ok(owner + "/" + repo + "/" + file)
  {
    var id := owner + "/" + repo + "/" + file;
    JoinThree(owner, repo, file, '/');
    SplitJoin([owner, repo, file], '/');
    EndsWithAppend(owner + "/" + repo + "/", file, ".gguf");
  }

  /** `validate_text_to_text_prompt`: the prompt is returned unchanged when it
      contains the `{SPEAKERS}` placeholder, and rejected otherwise. */
  function ValidateTextToTextPrompt(value: string): (r: Result<string>)
    ensures r.Ok? <==> Contains(value, SpeakersPlaceholder)
    ensures r.Ok? ==> r.value == value
    ensures r.Err? ==> r.error == ValueError(PromptError)
  {
    if !Contains(value, SpeakersPlaceholder) then Err(ValueError(PromptError)) else Ok(value)
  }

  /** The default prompt passes its own validator. */
  lemma DefaultPromptIsValid()
    ensures ValidateTextToTextPrompt(DefaultPrompt) == Ok(DefaultPrompt)
  {
    ContainsMiddle(PromptIntro, SpeakersPlaceholder, PromptInstructions);
  }

  // ---------------------------------------------------------------------
  // Speakers

  datatype Speaker = Speaker(id: int, name: string, description: string, tone: string)

  /** `str(speaker)`: "Speaker {id}. Named {name}. {description}"; the tone
      is not part of it. */
  function SpeakerLine(s: Speaker): (line: string)
    ensures StartsWith(line, "Speaker ")
  {
    var line := "Speaker " + (IntToString(s.id) + (". Named " + (s.name + (". " + s.description))));
    assert line[..8] == "Speaker ";
    line
  }

  predicate IsIdChar(c: char) { c == '-' || IsAsciiDigit(c) }

  /** Reads the id back from a speaker line: the numeral right after
      `Speaker `, if there is one. */
  function SpeakerLineId(line: string): Option<int>
  {
    if !StartsWith(line, "Speaker ") then None
    else
      var rest := line[8..];
      var n := LeadingRun(rest, IsIdChar);
      if IsDecimal(rest[..n]) then Some(ParseInt(rest[..n])) else None
  }

  /** The line of a speaker names its id, and only its id: the tone plays no
      part, and two speakers with different ids never share a line. */
  lemma SpeakerLineNamesId(s: Speaker)
    ensures SpeakerLineId(SpeakerLine(s)) == Some(s.id)
    ensures forall tone :: SpeakerLine(s.(tone := tone)) == SpeakerLine(s)
  {
    var digits := IntToString(s.id);
    var tail := ". Named " + (s.name + (". " + s.description));
    var line := SpeakerLine(s);
    assert line[8..] == digits + tail;
    assert tail[0] == '.';
    LeadingRunOf(digits, tail, IsIdChar);
    assert (digits + tail)[..|digits|] == digits;
    ParseIntToString(s.id);
  }

  lemma DistinctIdsDistinctLines(a: Speaker, b: Speaker)
    requires a.id != b.id
    ensures SpeakerLine(a) != SpeakerLine(b)
  {
    SpeakerLineNamesId(a);
    SpeakerLineNamesId(b);
  }

  /** `DEFAULT_SPEAKERS`. */
  const DefaultSpeakers: seq<Speaker> := [
    Speaker(1, "Laura",
      "The main host. She explains topics clearly using anecdotes and analogies, teaching in an engaging and captivating way.",
      "Laura's voice is exciting and fast in delivery with very clear audio and no background noise."),
    Speaker(2, "Jon",
      "The co-host. He keeps the conversation on track, asks curious follow-up questions, and reacts with excitement or confusion, often using interjections like hmm or umm.",
      "Jon's voice is calm with very clear audio and no background noise.")
  ]

  /** Two default speakers, ids 1 and 2, whose lines differ. */
  lemma DefaultSpeakersAreDistinct()
    ensures |DefaultSpeakers| == 2
    ensures DefaultSpeakers[0].id == 1 && DefaultSpeakers[1].id == 2
    ensures SpeakerLine(DefaultSpeakers[0]) != SpeakerLine(DefaultSpeakers[1])
  {
    DistinctIdsDistinctLines(DefaultSpeakers[0], DefaultSpeakers[1]);
  }

  // ---------------------------------------------------------------------
  // Text-to-speech model identifiers

  /** The three values the `text_to_speech_model` field accepts. */
  datatype TextToSpeechModel = ParlerLargeV1 | ParlerMiniV1 | ParlerMiniV1_1

  function ModelName(m: TextToSpeechModel): string
  {
    match m
    case ParlerLargeV1 => "parler-tts/parler-tts-large-v1"
    case ParlerMiniV1 => "parler-tts/parler-tts-mini-v1"
    case ParlerMiniV1_1 => "parler-tts/parler-tts-mini-v1.1"
  }

  /** The literal-type check of the field: a string is accepted exactly when
      it is one of the three names. */
  function ParseTextToSpeechModel(s: string): (r: Option<TextToSpeechModel>)
    ensures r.Some? ==> ModelName(r.value) == s
  {
    if s == ModelName(ParlerLargeV1) then Some(ParlerLargeV1)
    else if s == ModelName(ParlerMiniV1) then Some(ParlerMiniV1)
    else if s == ModelName(ParlerMiniV1_1) then Some(ParlerMiniV1_1)
    else None
  }

  /** Every model name is accepted as its own model, and nothing else is
      accepted. */
  lemma ModelNameRoundTrip(m: TextToSpeechModel, s: string)
    ensures ParseTextToSpeechModel(ModelName(m)) == Some(m)
    ensures ParseTextToSpeechModel(s) == Some(m) <==> ModelName(m) == s
  {
  }
}
