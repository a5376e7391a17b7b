/** The extension tables of `document_to_podcast.preprocessing`: which loader
    reads an input and which cleaner prepares its text, keyed by the path
    suffix of the input file (or by the word `url`). The loaders and cleaners
    themselves appear here only by name. */
module Preprocessing {

  /** The loader functions the table refers to. */
  datatype Loader = LoadFile | LoadTxt | LoadUrl

  /** The cleaner functions the table refers to. */
  datatype Cleaner = MarkdownToText | CleanHtml | CleanMarkdown | CleanWithRegex

  /** `DATA_LOADERS`. */
  const DataLoaders: map<string, Loader> :=
    map[".docx" := LoadFile, ".html" := LoadTxt, ".md" := LoadTxt,
        ".pdf" := LoadFile, ".txt" := LoadTxt, "url" := LoadUrl]

  /** `DATA_CLEANERS`. */
  const DataCleaners: map<string, Cleaner> :=
    map[".docx" := MarkdownToText, ".html" := CleanHtml, ".md" := CleanMarkdown,
        ".pdf" := MarkdownToText, ".txt" := CleanWithRegex]

  /** The five supported file extensions. */
  const FileExtensions: set<string> := {".docx", ".html", ".md", ".pdf", ".txt"}

  /** The loader table covers the five extensions and the word `url`; the
      cleaner table covers exactly the five extensions. */
  lemma TableKeys()
    ensures DataLoaders.Keys == FileExtensions + {"url"}
    ensures DataCleaners.Keys == FileExtensions
  {
  }

  /** Every cleaner key has a loader, and `url` is the one loader key with no
      cleaner. */
  lemma CleanerKeysAreLoaderKeys()
    ensures DataCleaners.Keys <= DataLoaders.Keys
    ensures DataLoaders.Keys - DataCleaners.Keys == {"url"}
  {
    TableKeys();
  }

  /** Documents (`.docx`, `.pdf`) are read by `load_file` and turned into
      text by `markdown_to_text`; `.html`, `.md` and `.txt` are read as plain
      text and cleaned by `clean_html`, `clean_markdown` and
      `clean_with_regex` respectively. */
  lemma Pipelines()
    ensures forall k :: k in {".docx", ".pdf"} ==>
      DataLoaders[k] == LoadFile && DataCleaners[k] == MarkdownToText
    ensures forall k :: k in {".html", ".md", ".txt"} ==> DataLoaders[k] == LoadTxt
    ensures DataCleaners[".html"] == CleanHtml
    ensures DataCleaners[".md"] == CleanMarkdown
    ensures DataCleaners[".txt"] == CleanWithRegex
    ensures DataLoaders["url"] == LoadUrl
  {
  }
}
