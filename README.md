# document-to-podcast, modelled in Dafny

`document-to-podcast` turns a document into a podcast. It loads a file, cleans
its text, asks a local language model (llama.cpp) for a two-speaker script, and
voices the script with a text-to-speech model. Almost all of the work happens
inside machine-learning libraries. This project models the parts with logic of
their own and proves what they guarantee:

- **Regex text cleaners**, in both package versions.
  - `clean_with_regex` and `clean_markdown` from `document_to_podcast`.
  - `apply_common_rules` and `clean_pdf` from the older `opennotebookllm`.
  - Each `re.sub` step is a left-to-right scan with Python's matching rules, in `RegexSteps`:
    - the URL pattern is a greedy run after `http://` or `https://`;
    - the e-mail pattern backtracks to the last dot followed by a word character;
    - the character filter keeps a whitelist;
    - whitespace runs collapse to one space, followed by `strip()`.
- **Extension tables and validators.**
  - `DATA_LOADERS` and `DATA_CLEANERS`.
  - `validate_input_file`, built on `pathlib`'s suffix rule.
  - `validate_text_to_text_model` and `validate_text_to_text_prompt`.
  - `Speaker.__str__`, the default prompt and speakers, and the set of text-to-speech model names.
- **The command's own logic.**
  - The loader and cleaner lookups for a validated file.
  - The budget of four characters per context token.
  - The loop that accumulates the streamed script and logs it line by line. It is an imperative method with loop invariants.
- **Model loading and inference, as routing.**
  - The `org/repo/file` split and the arguments of `Llama.from_pretrained`.
  - The Parler and OuteTTS loaders.
  - The chat request and the stream filter of `text_to_text` and `text_to_podcast`.
  - The `isinstance` dispatch of `text_to_speech`. Library calls are datatype terms that record their arguments.
- **`stack_audio_segments`**: an imperative loop that interleaves segments with zero-filled pauses. The pause lengths are inputs, bounded as the random draw bounds them.

Modules:

| module | file | models |
|---|---|---|
| `Base` | base.dfy | `Option`, `Result`, and the Python exceptions raised |
| `Text` | text.dfy | Python's `\s` and `\w` classes, `split`/`join`, `str(int)`, concatenation of chunks |
| `RegexSteps` | regex_steps.dfy | the four substitution steps and whitespace normalisation |
| `DataCleaners` | data_cleaners.py of `document_to_podcast` | `clean_with_regex`, the image pattern, `clean_markdown` |
| `LegacyCleaners` | data_cleaners.py of `opennotebookllm` | `apply_common_rules`, `clean_pdf` |
| `Preprocessing` | preprocessing/__init__.py | the two extension tables |
| `Config` | config.py | path suffix, validators, speakers, prompt, model names |
| `ModelLoaders` | inference/model_loaders.py | id split, llama.cpp and Parler loaders |
| `NotebookLoaders` | opennotebookllm inference/model_loaders.py | the older loaders |
| `TextToText` | opennotebookllm inference/text_to_text.py | chat request, stream filter |
| `TextToPodcast` | opennotebookllm text_to_podcast/inference.py | the second copy of loader and chat call |
| `TextToSpeech` | inference/text_to_speech.py | the dispatch and the three routes |
| `Cli` | cli.py | lookups, budget, script accumulation |
| `Audio` | utils.py | `stack_audio_segments` |

## Model

| member | source | states |
|---|---|---|
| RegexSteps.SchemeLength | src/document_to_podcast/preprocessing/data_cleaners.py:26 | the URL pattern's scheme is `https://` or `http://` (`s` optional), and a match starts with `h` and ends its scheme with `/` |
| RegexSteps.UrlCharClass | src/document_to_podcast/preprocessing/data_cleaners.py:26 | the URL character class is exactly lower-case letters, `$`..`_` and `!` |
| RegexSteps.UrlMatch | src/document_to_podcast/preprocessing/data_cleaners.py:25-29 | a URL match needs a scheme and at least one class character after it, and stays inside the text |
| RegexSteps.StripUrls | src/document_to_podcast/preprocessing/data_cleaners.py:25-29 | deleting URLs never lengthens the text |
| RegexSteps.StripUrlsDeletes | src/document_to_podcast/preprocessing/data_cleaners.py:25-29 | the URL step only deletes: its output is a subsequence of its input |
| RegexSteps.UrlIsDeleted | src/document_to_podcast/preprocessing/data_cleaners.py:25-29 | a scheme followed by a maximal run of URL-class characters disappears entirely, and scanning resumes right after it |
| RegexSteps.StripUrlsWithoutSlash | src/document_to_podcast/preprocessing/data_cleaners.py:25-29 | text without `/` has no URL, so the step leaves it unchanged |
| RegexSteps.StripUrlsAfterPlainText | src/document_to_podcast/preprocessing/data_cleaners.py:25-29 | text without `h` before a point cannot start a match there, so it passes through unchanged |
| RegexSteps.UrlAtEnd | src/document_to_podcast/preprocessing/data_cleaners.py:25-29 | a URL that ends the text is removed and everything before it is kept |
| RegexSteps.UrlMatchBeforeStop | src/document_to_podcast/preprocessing/data_cleaners.py:25-29 | a match is unchanged when text starting with a non-URL character follows, since the greedy run stops there |
| RegexSteps.StripUrlsAppend | src/document_to_podcast/preprocessing/data_cleaners.py:25-29 | no URL spans a character outside the URL class, so the step acts on the text before and after such a character separately: URLs in the middle of text go and the text around them stays |
| RegexSteps.LastDomainDot | src/document_to_podcast/preprocessing/data_cleaners.py:30 | the backtracking point of the e-mail domain is the last dot that is not first and is followed by a word character |
| RegexSteps.EmailMatch | src/document_to_podcast/preprocessing/data_cleaners.py:30 | an e-mail match stays inside the text and contains `@` |
| RegexSteps.StripEmailsDeletes | src/document_to_podcast/preprocessing/data_cleaners.py:30 | the e-mail step only deletes characters |
| RegexSteps.EmailMatchOfAddress | src/document_to_podcast/preprocessing/data_cleaners.py:30 | `name@domain.tld` of word characters matches exactly, with no more and no less |
| RegexSteps.EmailIsDeleted | src/document_to_podcast/preprocessing/data_cleaners.py:30 | such an address disappears entirely and scanning resumes after it |
| RegexSteps.StripEmailsWithoutAt | src/document_to_podcast/preprocessing/data_cleaners.py:30 | text without `@` is unchanged by the e-mail step |
| RegexSteps.EmailMatchBeforeStop | src/document_to_podcast/preprocessing/data_cleaners.py:30 | a match is unchanged when text follows that starts with neither a `[\w.-]` character nor `@` |
| RegexSteps.StripEmailsAppend | src/document_to_podcast/preprocessing/data_cleaners.py:30 | no address spans such a character, so the step acts on the text before and after it separately: addresses in the middle of text go and the text around them stays |
| RegexSteps.DeleteSpecialCharsSpec | src/document_to_podcast/preprocessing/data_cleaners.py:31 | the filter keeps exactly the whitelisted characters: the output is a subsequence of the input, it contains only kept characters, and every kept character keeps its count |
| RegexSteps.DeleteSpecialCharsOfKept | src/document_to_podcast/preprocessing/data_cleaners.py:31 | text made only of whitelisted characters is a fixed point of the filter |
| RegexSteps.DeleteSpecialCharsAppend | src/document_to_podcast/preprocessing/data_cleaners.py:31 | the filter works character by character, so it distributes over concatenation |
| RegexSteps.CollapseWhitespace | src/document_to_podcast/preprocessing/data_cleaners.py:32 | collapsing never lengthens the text, a leading whitespace run becomes one space, and a leading non-space is kept |
| RegexSteps.CollapsedSpacing | src/document_to_podcast/preprocessing/data_cleaners.py:32 | after collapsing, the only whitespace is single plain spaces, and every other character comes from the input |
| RegexSteps.NormalizeIsJoinedWords | src/document_to_podcast/preprocessing/data_cleaners.py:32 | collapse then strip equals `" ".join(text.split())` |
| RegexSteps.WordsAreWords | src/document_to_podcast/preprocessing/data_cleaners.py:32 | every word of `split()` is non-empty and free of whitespace |
| RegexSteps.NormalizeIsNormal | src/document_to_podcast/preprocessing/data_cleaners.py:32 | the normalised text has single plain spaces, no leading or trailing space, and is no longer than its input |
| RegexSteps.NormalizedChars | src/document_to_podcast/preprocessing/data_cleaners.py:32 | every character of the normalised text is a space or comes from the input |
| RegexSteps.WordsOfSpacedText | src/document_to_podcast/preprocessing/data_cleaners.py:32 | words separated by non-empty whitespace are exactly what `split()` returns |
| RegexSteps.NormalIsStable | src/document_to_podcast/preprocessing/data_cleaners.py:32 | text already in normal form is a fixed point of collapse-and-strip |
| DataCleaners.CleanWithRegex | src/document_to_podcast/preprocessing/data_cleaners.py:5-33 | the cleaned text is never longer than its input |
| DataCleaners.CleanWithRegexIsJoinedWords | src/document_to_podcast/preprocessing/data_cleaners.py:25-33 | the result is the words of the kept text joined by single spaces |
| DataCleaners.CleanWithRegexChars | src/document_to_podcast/preprocessing/data_cleaners.py:31-32 | the output holds only ASCII letters, digits, the plain space and `. , ! ? ; : " '` |
| DataCleaners.CleanWithRegexIsNormal | src/document_to_podcast/preprocessing/data_cleaners.py:32 | the output has no leading or trailing space and never two spaces in a row |
| DataCleaners.KeptTextDeletes | src/document_to_podcast/preprocessing/data_cleaners.py:25-31 | the first three steps only delete characters |
| DataCleaners.CleanCharsAreInert | src/document_to_podcast/preprocessing/data_cleaners.py:25-31 | cleaned characters contain no `/` or `@` and all pass the filter, so a second pass deletes nothing |
| DataCleaners.CleanWithRegexIdempotent | src/document_to_podcast/preprocessing/data_cleaners.py:25-32 | cleaning twice gives the same text as cleaning once |
| DataCleaners.CleanWithRegexDocExample | src/document_to_podcast/preprocessing/data_cleaners.py:16-17 | the docstring example: `"\xa0Hello,   world! http://example.com"` cleans to `"Hello, world!"` |
| DataCleaners.ImageMatch | src/document_to_podcast/preprocessing/data_cleaners.py:82 | an image match starts with `![` and is at least five characters long |
| DataCleaners.StripImages | src/document_to_podcast/preprocessing/data_cleaners.py:82 | deleting images never lengthens the text |
| DataCleaners.StripImagesDeletes | src/document_to_podcast/preprocessing/data_cleaners.py:82 | the image step only deletes characters |
| DataCleaners.StripImagesAfterPlainText | src/document_to_podcast/preprocessing/data_cleaners.py:82 | text without `!` before a point passes through unchanged |
| DataCleaners.ImageIsDeleted | src/document_to_podcast/preprocessing/data_cleaners.py:82 | `![alt](target "title")`, with or without the title, disappears entirely, whatever follows it |
| DataCleaners.CleanMarkdown | src/document_to_podcast/preprocessing/data_cleaners.py:64-84 | the cleaned Markdown is never longer than its input |
| DataCleaners.CleanMarkdownIsClean | src/document_to_podcast/preprocessing/data_cleaners.py:82-84 | image removal only deletes, and the result has the character set and spacing of `clean_with_regex` |
| DataCleaners.CleanMarkdownWithoutImages | src/document_to_podcast/preprocessing/data_cleaners.py:82-84 | on text without `!`, `clean_markdown` is `clean_with_regex` |
| DataCleaners.CleanMarkdownDocExample | src/document_to_podcast/preprocessing/data_cleaners.py:73-74 | the docstring example cleans to `"Title with image"` |
| LegacyCleaners.ApplyCommonRules | src/opennotebookllm/preprocessing/data_cleaners.py:5-14 | the output is never longer than the input |
| LegacyCleaners.CleanPdf | src/opennotebookllm/preprocessing/data_cleaners.py:25-27 | `clean_pdf` applies the common rules and so never lengthens the text |
| LegacyCleaners.ApplyCommonRulesDeletes | src/opennotebookllm/preprocessing/data_cleaners.py:6-13 | after the whitespace step, the remaining steps only delete characters |
| LegacyCleaners.ApplyCommonRulesChars | src/opennotebookllm/preprocessing/data_cleaners.py:6-13 | the only whitespace left is the plain space, and every character is a letter, a digit or one of `. , ! ? ; : " '` |
| LegacyCleaners.ApplyCommonRulesSplitsAtSpace | src/opennotebookllm/preprocessing/data_cleaners.py:6-13 | in text with normal spacing, the deletions act on each side of a space as they would on that side alone, and the space stays |
| LegacyCleaners.DeletionsSplitAtSpace | src/opennotebookllm/preprocessing/data_cleaners.py:7-13 | the URL, e-mail and special-character steps, applied to `p + " " + q`, give the result for `p`, a space, and the result for `q` |
| LegacyCleaners.AddressAloneIsRemoved | src/opennotebookllm/preprocessing/data_cleaners.py:6-13 | a text that is one `word@word.word` address is removed entirely |
| LegacyCleaners.ApplyCommonRulesRemovesEmail | src/opennotebookllm/preprocessing/data_cleaners.py:6-13 | an address between two stretches of text is removed; each stretch is cleaned as on its own, and the spaces on both sides of the address stay, leaving two spaces side by side |
| LegacyCleaners.ApplyCommonRulesNormalized | src/opennotebookllm/preprocessing/data_cleaners.py:6 | whitespace is normalised first, so normalising beforehand changes nothing |
| LegacyCleaners.SpaceBeforeFinalUrlSurvives | src/opennotebookllm/preprocessing/data_cleaners.py:6-13 | because deletion follows stripping, text in normal form followed by a space and a URL gives that text cleaned on its own, then the space: the output ends in a space |
| LegacyCleaners.CleanPdfTestExample | tests/preprocessing/test_data_cleaners.py:10-16 | the test's pattern, shortened: `(BY)` loses its brackets, non-breaking-space lines become single spaces, and the text ends `"to "` after its final URL is deleted. The result is not in normal form |
| Preprocessing.TableKeys | src/document_to_podcast/preprocessing/__init__.py:5-20 | the loader keys are the five dotted extensions plus `url`; the cleaner keys are the five extensions |
| Preprocessing.CleanerKeysAreLoaderKeys | src/document_to_podcast/preprocessing/__init__.py:5-20 | every cleaner key is a loader key, and `url` is the only loader key without a cleaner |
| Preprocessing.Pipelines | src/document_to_podcast/preprocessing/__init__.py:6-19 | `.docx`/`.pdf` use `load_file` and `markdown_to_text`; `.html`/`.md`/`.txt` use `load_txt`, with `clean_html`, `clean_markdown` and `clean_with_regex` respectively |
| Config.RFind | src/document_to_podcast/config.py:46 | `str.rfind`: the index of the last occurrence, or -1 exactly when the character is absent |
| Config.PathSuffix | src/document_to_podcast/config.py:46 | a path's suffix is empty or a dot followed by a non-empty dot-free extension |
| Config.PathSuffixOfExtension | src/document_to_podcast/config.py:46 | `stem.ext` has suffix `.ext` whenever the stem's last character is not `/` |
| Config.DotFileHasNoSuffix | src/document_to_podcast/config.py:46 | a name that is only an extension, like `.pdf`, is a hidden file with no suffix |
| Config.ValidateInputFile | src/document_to_podcast/config.py:45-50 | accepts exactly the values whose suffix is a loader key, returns them unchanged, and otherwise raises the listing message |
| Config.ValidateInputFileAccepts | src/document_to_podcast/config.py:45-50 | since a suffix starts with a dot it is never `url`, so the accepted files are exactly those with one of the five extensions |
| Config.ValidateInputFileOfExtension | src/document_to_podcast/config.py:45-50 | every file named `stem.ext` with a supported extension passes |
| Config.ValidateTextToTextModel | src/document_to_podcast/config.py:53-59 | a valid model id is returned unchanged |
| Config.ValidateTextToTextModelAccepts | src/document_to_podcast/config.py:53-59 | accepts exactly the ids with two `/` that end in `.gguf`; the part count is checked first, so each failure gets its own message |
| Config.ValidateTextToTextModelOfParts | src/document_to_podcast/config.py:53-59 | any three slash-free parts whose last ends in `.gguf` form a valid id |
| Config.ValidateTextToTextPrompt | src/document_to_podcast/config.py:62-65 | accepts exactly the prompts containing `{SPEAKERS}`, unchanged; otherwise raises the placeholder message |
| Config.DefaultPromptIsValid | src/document_to_podcast/config.py:11-27 | the default prompt passes its own validator |
| Config.SpeakerLine | src/document_to_podcast/config.py:74-75 | a speaker's line starts with `Speaker ` |
| Config.SpeakerLineNamesId | src/document_to_podcast/config.py:74-75 | the id can be read back from the line, and the tone never affects it |
| Config.DistinctIdsDistinctLines | src/document_to_podcast/config.py:74-75 | speakers with different ids have different lines |
| Config.DefaultSpeakersAreDistinct | src/document_to_podcast/config.py:29-42 | the two default speakers have ids 1 and 2 and distinct lines |
| Config.ParseTextToSpeechModel | src/document_to_podcast/config.py:83-87 | a parsed text-to-speech model name is one of the three allowed identifiers |
| Config.ModelNameRoundTrip | src/document_to_podcast/config.py:83-87 | parsing accepts exactly the three identifiers, and each parses back to its model |
| ModelLoaders.UnpackModelId | src/document_to_podcast/inference/model_loaders.py:24 | unpacking succeeds exactly when the id has two `/`; the slash-free parts rejoin to the id; otherwise it raises `ValueError` |
| ModelLoaders.UnpackModelIdOfParts | src/document_to_podcast/inference/model_loaders.py:24 | three slash-free parts joined with `/` unpack to themselves |
| ModelLoaders.GpuLayers | src/document_to_podcast/inference/model_loaders.py:29 | `n_gpu_layers` is 0 exactly on `cpu`, and -1 on any other device |
| ModelLoaders.LoadLlamaCppModel | src/document_to_podcast/inference/model_loaders.py:24-33 | loading needs an `org/repo/file` id; `repo_id + "/" + filename` is the id; `n_ctx` is 0, `verbose` is true, and the GPU layers follow the device |
| ModelLoaders.ValidatedModelLoads | src/document_to_podcast/inference/model_loaders.py:24-33 | a model id that passed validation always loads, and its file is the `.gguf` part |
| ModelLoaders.DefaultModelLoads | src/document_to_podcast/inference/model_loaders.py:24-33 | the default id loads `olmoe-1b-7b-0924-instruct-q8_0.gguf` from `allenai/OLMoE-1B-7B-0924-Instruct-GGUF` |
| ModelLoaders.LoadParlerTtsModelAndTokenizer | src/document_to_podcast/inference/model_loaders.py:54-57 | model and tokenizer come from the same id, and only the model is moved to the device |
| NotebookLoaders.LoadLlamaCppModel | src/opennotebookllm/inference/model_loaders.py:24-31 | the same unpacking, with only `n_ctx = 0` passed besides repository and file |
| NotebookLoaders.LoadersAgreeOnFiles | src/opennotebookllm/inference/model_loaders.py:24-31 | the older and newer loaders accept the same ids and read the same repository and file |
| NotebookLoaders.LoadOuteTtsInterface | src/opennotebookllm/inference/model_loaders.py:34-41 | always the OuteTTS 0.2 FP16 file, language `en`, model version `0.2` |
| NotebookLoaders.OuteInterfaceIgnoresId | src/opennotebookllm/inference/model_loaders.py:34-41 | the model id argument has no effect on the interface built |
| TextToText.ChatRequestFor | src/opennotebookllm/inference/text_to_text.py:22-28 | exactly two messages, system prompt then user text, and the stream flag passed on |
| TextToText.DeltaContent | src/opennotebookllm/inference/text_to_text.py:31 | reading the delta fails with `IndexError` exactly when there are no choices |
| TextToText.StreamChunks | src/opennotebookllm/inference/text_to_text.py:29-32 | every yielded chunk is non-empty, there are no more chunks than items, and the only failure is `IndexError` |
| TextToText.StreamKeepsText | src/opennotebookllm/inference/text_to_text.py:29-32 | the stream fails exactly when some item has no choices; otherwise the chunks joined are all of the stream's text, in order |
| TextToText.StreamAppend | src/opennotebookllm/inference/text_to_text.py:29-32 | filtering two streams in a row gives the chunks of the first followed by those of the second |
| TextToText.CompletionContent | src/opennotebookllm/inference/text_to_text.py:33-34 | the first choice's message content, or `IndexError` when there is none |
| TextToText.TextToText | src/opennotebookllm/inference/text_to_text.py:4-34 | the request is the chat request; streaming yields exactly `StreamChunks(items)`, the non-empty delta contents in order, so StreamKeepsText and StreamAppend apply to it; otherwise the reply is `CompletionContent`, the first choice's message content, and succeeds exactly when there is a choice |
| TextToPodcast.LoadModel | src/opennotebookllm/text_to_podcast/inference.py:4-14 | the id must have two `/`, the repository and file rejoin to it, and `n_ctx` is 0 |
| TextToPodcast.DefaultModelIdLoads | src/opennotebookllm/text_to_podcast/inference.py:5-7 | the default id splits into its three parts, so loading it succeeds |
| TextToPodcast.TextToPodcast | src/opennotebookllm/text_to_podcast/inference.py:17-32 | messages are system then user, the stream flag is passed on, the streamed chunks are exactly `StreamChunks(items)` (the non-empty delta contents in order), and the non-stream reply is the first choice's content |
| TextToSpeech.TextToSpeechOute | src/document_to_podcast/inference/text_to_speech.py:13-30 | the audio comes from one generation whose speaker is the default speaker named by the voice profile |
| TextToSpeech.TextToSpeechBark | src/document_to_podcast/inference/text_to_speech.py:33-41 | calling a missing processor is the only failure, a `TypeError` |
| TextToSpeech.TextToSpeechParler | src/document_to_podcast/inference/text_to_speech.py:44-60 | a missing main tokenizer is the only failure, a `TypeError` |
| TextToSpeech.TextToSpeech | src/document_to_podcast/inference/text_to_speech.py:93-102 | `NotImplementedError` exactly when no branch matches; a GGUF interface always gives Oute audio; Bark and other pretrained models give a Bark or a Parler waveform |
| TextToSpeech.DispatchOrder | src/document_to_podcast/inference/text_to_speech.py:93-100 | a Bark model takes the Bark path even though it is also pretrained; a Parler waveform never comes from a Bark model; `TypeError` exactly when a pretrained model gets no processor |
| TextToSpeech.OuteArguments | src/document_to_podcast/inference/text_to_speech.py:17-27 | the dispatcher never forwards a temperature: Oute generation uses 0.3, repetition penalty 1.1 and maximum length 4096 |
| TextToSpeech.BarkArguments | src/document_to_podcast/inference/text_to_speech.py:36-38 | the processor sees the text and the voice preset, and generation gets the processor's whole output |
| TextToSpeech.ParlerArguments | src/document_to_podcast/inference/text_to_speech.py:51-57 | the profile is encoded by the description tokenizer when given, else by the main one; the text always by the main one; the two ids are not swapped |
| Cli.InputPipeline | src/document_to_podcast/cli.py:102-109 | a validated file gets `DATA_LOADERS` and `DATA_CLEANERS` at its own suffix, both lookups succeed, the error is the validator's, and the loader is never the URL loader |
| Cli.InputPipelineOfExtension | src/document_to_podcast/cli.py:102-109 | `stem.ext` gets the loader and cleaner listed for `.ext` |
| Cli.DefaultModelIsValid | src/document_to_podcast/cli.py:63 | the command's default model passes the model validator |
| Cli.SliceTo | src/document_to_podcast/cli.py:123 | Python's `s[:m]` is a prefix, of length `min(len, m)` or, for negative `m`, `len + m` clamped at 0 |
| Cli.BudgetedText | src/document_to_podcast/cli.py:116-123 | the text sent is a prefix of the cleaned text, of length `min(len, n_ctx*4)`, and whole when short enough |
| Cli.ModelInputIsClean | src/document_to_podcast/cli.py:107-123 | the model input from a `.txt` or `.md` file has only cleaned characters, single spaces and no leading space, within both the raw length and the budget |
| Cli.BudgetCanEndInSpace | src/document_to_podcast/cli.py:123 | the cut can end just after a space, so the model input need not be in normal form |
| Cli.FlushKeepsText | src/document_to_podcast/cli.py:126-135 | the logged lines followed by the buffer are all the chunks in order, and the buffer is the end of that text |
| Cli.FlushLines | src/document_to_podcast/cli.py:126-135 | every logged line ends in a newline and the buffer never does |
| Cli.AccumulateScript | src/document_to_podcast/cli.py:126-135 | the script is every chunk in order, and the logged lines and the buffer are those of `Flush`: each chunk is added to the buffer, which is logged and emptied when it ends in a newline. Hence the logged lines plus the buffer are the script, every logged line ends in a newline, the buffer never does, and it is a suffix of the script |
| Audio.Zeros | src/document_to_podcast/utils.py:8 | a pause of length `n` is `n` zeros |
| Audio.InterleaveLayout | src/document_to_podcast/utils.py:5-8 | the list is segment, pause, segment, pause, ...: every segment unchanged and in order, each followed by its pause |
| Audio.StackedLength | src/document_to_podcast/utils.py:9 | the output length is the segment lengths plus the pause lengths |
| Audio.PauseTotalBounds | src/document_to_podcast/utils.py:8 | each pause is between a tenth of a second and 1.1 seconds, so their sum is bounded accordingly |
| Audio.StackedLengthBounds | src/document_to_podcast/utils.py:5-9 | the output is the segments plus 0.1 to 1.1 seconds of silence per segment |
| Audio.StackAudioSegments | src/document_to_podcast/utils.py:4-9 | with no segments there is nothing to concatenate and the call fails; otherwise the result is the interleaving concatenated |

## Left out

- Python's `\w` is modelled on ASCII only: letters, digits and `_`. Python's is Unicode-aware, so non-ASCII letters next to `@` are treated differently by the e-mail step.
- `clean_html` and `markdown_to_text` are library calls (BeautifulSoup, `markdown`), kept only as table entries. `markdown_to_text` also uses the undefined name `html_string`.
- `Cli.ModelInput` therefore covers only the `.txt` and `.md` cleaners. For the others it returns `None`.
- Loading files and URLs is I/O and is not modelled.
  - The loader table names `load_url`, which `preprocessing/__init__.py` never imports. The table is modelled as written, and nothing here claims the module imports cleanly.
- Model loading and inference are opaque: `from_pretrained`, `hf_hub_download`, `generate`, tokenizers and `.cpu().numpy()`. Each is a term that records its arguments, with no numeric meaning.
- `TextToText.TextToText`: the functions contain `yield`, so in Python they are generators even with `stream=False`. The model gives the content the non-streaming branch selects, not the generator's behaviour.
- A stream is modelled by its outcome: the chunks yielded and the exception that ended it. Laziness and partial consumption are not modelled.
- `text_to_text_stream`, which the command imports from `document_to_podcast.inference.text_to_text`, is not part of this model. `Cli.AccumulateScript` takes its chunks as input.
- Cli.AccumulateScript: the `logger.debug` calls are modelled as the list of logged lines. Writing `podcast.txt`, `mkdir`, and the `.strip()` of the prompt are not modelled.
- Audio.StackAudioSegments: the pause lengths are an input, not `int((0.1 + rand()) * sample_rate)`. `PauseInRange` states the resulting bound in exact arithmetic. Samples are `real`, not float arrays.
- Config.PathSuffix: POSIX paths only, with the `pathlib` suffix rule of Python 3.13 and earlier. Windows separators and drives are not modelled.
- Configuration is not built with pydantic.
  - Errors are not aggregated, and `FilePath`'s existence check and YAML loading are not modelled.
  - `validate_text_to_text_prompt` is not attached to any field in `config.py`. It is modelled as a standalone validator.
- The validators at lines 35-49 of `cli.py` are copies of those in `config.py`. They are modelled once, in `Config`.
- ModelLoaders.UnpackModelId: the unpacking error messages follow Python 3.12 and earlier.
- TextToSpeech.TextToSpeechParler: the truthiness of `description_tokenizer` is modelled as presence (`Some`). A present tokenizer object that is falsy is not modelled.
- LegacyCleaners.CleanPdfTestExample: proves the test's pattern on a shortened input, "(BY) to" followed by the URL. The full licence text of the test is not evaluated.
- Both loaders default `device` to `cpu`. This is recorded as `ModelLoaders.DefaultDevice`, with no lemma of its own.
- Out of scope:
  - tests that no longer match the code (a bare mock passed as a model, keyword arguments the signatures do not accept);
  - the Streamlit demo, the Hugging Face restart script and the top-level inference script;
  - the OuteTTS pass-through in `opennotebookllm/inference/text_to_speech.py`;
  - the pydantic records in `podcast_maker/config.py`.
