/** `opennotebookllm.text_to_podcast.inference`: a second copy of the model
    loader and of the chat call. The copies behave exactly like
    `NotebookLoaders.LoadLlamaCppModel` and `TextToText.TextToText`, which
    define them here. */
module TextToPodcast {
  import opened Base
  import opened Text
  import opened ModelLoaders
  import Notebook = NotebookLoaders
  import Chat = TextToText

  /** The default id of `load_model`. */
  const DefaultModelId := DefaultTextToTextModel

  /** `load_model(model_id)`. */
  function LoadModel(modelId: string): (r: Result<LlamaRequest>)
    ensures r.Ok? <==> CountChar(modelId, '/') == 2
    ensures r.Ok? ==> r.value.repoId + "/" + r.value.filename == modelId
    ensures r.Ok? ==> r.value.nCtx == 0
  {
    Notebook.LoadLlamaCppModel(modelId)
  }

  /** The default id splits into three parts, so loading it succeeds. */
  lemma DefaultModelIdLoads()
    ensures LoadModel(DefaultModelId).Ok?
    ensures LoadModel(DefaultModelId).value.repoId == DefaultModelOwner + "/" + DefaultModelRepo
    ensures LoadModel(DefaultModelId).value.filename == DefaultModelFile
  {
    DefaultModelParts(DefaultModelOwner, DefaultModelRepo, DefaultModelFile);
    UnpackModelIdOfParts(DefaultModelOwner, DefaultModelRepo, DefaultModelFile);
  }

  /** `text_to_podcast(input_text, model, system_prompt, stream)`: the system
      prompt then the input text as messages, the stream flag passed on, and
      only non-empty chunks yielded. */
  function TextToPodcast(inputText: string, systemPrompt: string, stream: bool,
                         items: seq<Chat.StreamItem>, completion: Chat.Completion): (r: (Chat.ChatRequest, Chat.Reply))
    ensures r.0.messages == [Chat.Message("system", systemPrompt), Chat.Message("user", inputText)]
    ensures r.0.stream == stream
    ensures stream ==> r.1.Streamed? && forall k :: 0 <= k < |r.1.outcome.chunks| ==> |r.1.outcome.chunks[k]| > 0
    ensures stream ==> r.1 == Chat.Streamed(Chat.StreamChunks(items))
    ensures !stream ==> r.1 == Chat.Whole(Chat.CompletionContent(completion))
  {
    Chat.TextToText(inputText, systemPrompt, stream, items, completion)
  }
}
