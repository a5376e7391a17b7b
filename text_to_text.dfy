/** `opennotebookllm.inference.text_to_text`: the chat request sent to the
    language model and what is taken from its answer. The model's answer is
    opaque and given as an input: a sequence of stream items when streaming,
    one completion otherwise. */
module TextToText {
  import opened Base
  import opened Text

  datatype Message = Message(role: string, content: string)

  /** The arguments of `create_chat_completion`. */
  datatype ChatRequest = ChatRequest(messages: seq<Message>, stream: bool)

  /** The request: the system prompt, then the input text as the user's
      message; the stream flag is passed on. */
  function ChatRequestFor(inputText: string, systemPrompt: string, stream: bool): (r: ChatRequest)
    ensures |r.messages| == 2 && r.stream == stream
    ensures r.messages[0].role == "system" && r.messages[0].content == systemPrompt
    ensures r.messages[1].role == "user" && r.messages[1].content == inputText
  {
    ChatRequest([Message("system", systemPrompt), Message("user", inputText)], stream)
  }

  // ---------------------------------------------------------------------
  // Streaming

  /** The `delta` of a streamed choice; `content` is `None` when the key is
      missing or holds `None`. */
  datatype Delta = Delta(content: Option<string>)

  /** A streamed choice; `delta` is `None` when the key is missing. */
  datatype StreamChoice = StreamChoice(delta: Option<Delta>)

  datatype StreamItem = StreamItem(choices: seq<StreamChoice>)

  /** `item["choices"][0].get("delta", {}).get("content", None)`: an empty
      choice list raises `IndexError`; a missing delta or content gives
      `None`. */
  function DeltaContent(item: StreamItem): (r: Result<Option<string>>)
    ensures r.Err? <==> |item.choices| == 0
    ensures r.Err? ==> r.error == IndexError
  {
    if |item.choices| == 0 then Err(IndexError)
    else if item.choices[0].delta.None? then Ok(None)
    else Ok(item.choices[0].delta.value.content)
  }

  /** The text an item carries: its delta content, or "" when it has none. */
  function ItemText(item: StreamItem): string
    requires |item.choices| > 0
  {
    var c := DeltaContent(item).value;
    if c.Some? then c.value else ""
  }

  /** What a consumer of the generator receives: the chunks yielded, and the
      exception that ended the iteration, if one did. */
  datatype StreamOutcome = StreamOutcome(chunks: seq<string>, failure: Option<PyError>)

  /** The streaming loop: the content of every item whose content is truthy
      (present and non-empty) is yielded, in order; an item with no choices
      ends the stream with `IndexError`. */
  function StreamChunks(items: seq<StreamItem>): (r: StreamOutcome)
    ensures forall k :: 0 <= k < |r.chunks| ==> |r.chunks[k]| > 0
    ensures |r.chunks| <= |items|
    ensures r.failure.None? || r.failure == Some(IndexError)
  {
    if |items| == 0 then StreamOutcome([], None)
    else match DeltaContent(items[0])
      case Err(e) => StreamOutcome([], Some(e))
      case Ok(c) =>
        var rest := StreamChunks(items[1..]);
        if c.Some? && |c.value| > 0 then StreamOutcome([c.value] + rest.chunks, rest.failure)
        else rest
  }

  predicate AllHaveChoices(items: seq<StreamItem>)
  {
    forall k :: 0 <= k < |items| ==> |items[k].choices| > 0
  }

  /** The texts of the items, "" for those without content. */
  function ItemTexts(items: seq<StreamItem>): (ts: seq<string>)
    requires AllHaveChoices(items)
    ensures |ts| == |items|
  {
    if |items| == 0 then [] else [ItemText(items[0])] + ItemTexts(items[1..])
  }

  /** The stream fails exactly when some item has no choices; otherwise the
      chunks joined are all the text of the stream, in order: dropping the
      empty contents loses nothing. */
  lemma {:induction false} StreamKeepsText(items: seq<StreamItem>)
    ensures StreamChunks(items).failure.None? <==> AllHaveChoices(items)
    ensures AllHaveChoices(items) ==> Concat(StreamChunks(items).chunks) == Concat(ItemTexts(items))
    decreases |items|
  {
    if |items| > 0 {
      var rest := items[1..];
      StreamKeepsText(rest);
      assert AllHaveChoices(items) <==> |items[0].choices| > 0 && AllHaveChoices(rest) by {
        if |items[0].choices| > 0 && AllHaveChoices(rest) {
          forall k | 0 <= k < |items| ensures |items[k].choices| > 0 {
            if k > 0 {
              assert items[k] == rest[k - 1];
            }
          }
        }
      }
      if AllHaveChoices(items) {
        var t := ItemText(items[0]);
        ConcatCons(t, ItemTexts(rest));
        var c := DeltaContent(items[0]).value;
        if c.Some? && |c.value| > 0 {
          ConcatCons(c.value, StreamChunks(rest).chunks);
        } else {
          assert t == "";
          assert t + Concat(ItemTexts(rest)) == Concat(ItemTexts(rest));
        }
      }
    }
  }

  /** Streams compose: the chunks of two streams in a row are the chunks of
      the first followed by those of the second, unless the first fails. */
  lemma {:induction false} StreamAppend(a: seq<StreamItem>, b: seq<StreamItem>)
    requires StreamChunks(a).failure.None?
    ensures StreamChunks(a + b) == StreamOutcome(StreamChunks(a).chunks + StreamChunks(b).chunks, StreamChunks(b).failure)
    decreases |a|
  {
    if |a| == 0 {
      assert a + b == b;
    } else {
      assert (a + b)[0] == a[0];
      assert (a + b)[1..] == a[1..] + b;
      StreamAppend(a[1..], b);
      var c := DeltaContent(a[0]).value;
      if c.Some? && |c.value| > 0 {
        var x := StreamChunks(a[1..]).chunks;
        var y := StreamChunks(b).chunks;
        assert [c.value] + (x + y) == ([c.value] + x) + y;
      }
    }
  }

  // ---------------------------------------------------------------------
  // Without streaming

  datatype CompletionChoice = CompletionChoice(messageContent: string)

  datatype Completion = Completion(choices: seq<CompletionChoice>)

  /** `response["choices"][0]["message"]["content"]`. */
  function CompletionContent(response: Completion): (r: Result<string>)
    ensures r.Err? <==> |response.choices| == 0
    ensures r.Err? ==> r.error == IndexError
    ensures r.Ok? ==> r.value == response.choices[0].messageContent
  {
    if |response.choices| == 0 then Err(IndexError) else Ok(response.choices[0].messageContent)
  }

  /** What the caller gets: the stream's outcome, or the selected content. */
  datatype Reply = Streamed(outcome: StreamOutcome) | Whole(content: Result<string>)

  /** `text_to_text(input_text, model, system_prompt, stream)`, given the
      model's answer to the request it sends: stream items when `stream`
      holds, one completion otherwise. */
  function TextToText(inputText: string, systemPrompt: string, stream: bool,
                      items: seq<StreamItem>, completion: Completion): (r: (ChatRequest, Reply))
    ensures r.0 == ChatRequestFor(inputText, systemPrompt, stream)
    ensures stream ==> r.1.Streamed? && forall k :: 0 <= k < |r.1.outcome.chunks| ==> |r.1.outcome.chunks[k]| > 0
    ensures !stream ==> r.1.Whole? && (r.1.content.Ok? <==> |completion.choices| > 0)
    ensures stream ==> r.1 == Streamed(StreamChunks(items))
    ensures !stream ==> r.1 == Whole(CompletionContent(completion))
  {
    var request := ChatRequestFor(inputText, systemPrompt, stream);
    if stream then (request, Streamed(StreamChunks(items)))
    else (request, Whole(CompletionContent(completion)))
  }
}
