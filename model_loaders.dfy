/** `document_to_podcast.inference.model_loaders`: the arguments passed to
    the model libraries. Loading itself is opaque; a load is recorded as the
    request it makes. */
module ModelLoaders {
  import opened Base
  import opened Text
  import opened Config

  /** `org, repo, filename = model_id.split("/")`: the unpacking fails
      unless the split has exactly three parts. */
  function UnpackModelId(modelId: string): (r: Result<(string, string, string)>)
    ensures r.Ok? <==> CountChar(modelId, '/') == 2
    ensures r.Ok? ==> r.value.0 + "/" + r.value.1 + "/" + r.value.2 == modelId
    ensures r.Ok? ==> '/' !in r.value.0 && '/' !in r.value.1 && '/' !in r.value.2
    ensures r.Err? ==> r.error.ValueError?
  {
    var parts := Split(modelId, '/');
    SplitCount(modelId, '/');
    if |parts| < 3 then
      Err(ValueError("not enough values to unpack (expected 3, got " + NatToString(|parts|) + ")"))
    else if |parts| > 3 then
      Err(ValueError("too many values to unpack (expected 3)"))
    else
      JoinSplit(modelId, '/');
      SplitPiecesHaveNoSeparator(modelId, '/');
      JoinThree(parts[0], parts[1], parts[2], '/');
      assert parts == [parts[0], parts[1], parts[2]];
      Ok((parts[0], parts[1], parts[2]))
  }

  /** Three slash-free parts joined with `/` unpack to themselves. */
  lemma UnpackModelIdOfParts(org: string, repo: string, file: string)
    requires '/' !in org && '/' !in repo && '/' !in file
    ensures UnpackModelId(org + "/" + repo + "/" + file) == Ok((org, repo, file))
  {
    JoinThree(org, repo, file, '/');
    SplitJoin([org, repo, file], '/');
  }

  /** The default text-to-text model of both packages. */
  const DefaultModelOwner := "allenai"
  const DefaultModelRepo := "OLMoE-1B-7B-0924-Instruct-GGUF"
  const DefaultModelFile := "olmoe-1b-7b-0924-instruct-q8_0.gguf"
  const DefaultTextToTextModel := DefaultModelOwner + "/" + DefaultModelRepo + "/" + DefaultModelFile

  lemma DefaultModelParts(owner: string, repo: string, file: string)
    requires owner == DefaultModelOwner && repo == DefaultModelRepo && file == DefaultModelFile
    ensures '/' !in owner && '/' !in repo && '/' !in file
    ensures EndsWith(file, ".gguf")
  {
    assert file[|file| - 5..] == ".gguf";
  }

  /** The keyword arguments of `Llama.from_pretrained`; `None` marks an
      argument the call does not pass. */
  datatype LlamaRequest = LlamaRequest(repoId: string, filename: string, nGpuLayers: Option<int>,
                                       nCtx: int, verbose: Option<bool>)

  const DefaultDevice := "cpu"

  /** `n_gpu_layers`: none on the CPU, all of them anywhere else. */
  function GpuLayers(device: string): (n: int)
    ensures n == 0 <==> device == "cpu"
    ensures n != 0 ==> n == -1
  {
    if device == "cpu" then 0 else -1
  }

  /** `load_llama_cpp_model(model_id, device)`. */
  function LoadLlamaCppModel(modelId: string, device: string): (r: Result<LlamaRequest>)
    ensures r.Ok? <==> CountChar(modelId, '/') == 2
    ensures r.Ok? ==> r.value.repoId + "/" + r.value.filename == modelId && '/' !in r.value.filename
    ensures r.Ok? ==> r.value.nCtx == 0 && r.value.verbose == Some(true)
    ensures r.Ok? ==> r.value.nGpuLayers == Some(GpuLayers(device))
  {
    match UnpackModelId(modelId)
    case Err(e) => Err(e)
    case Ok((org, repo, filename)) =>
      Ok(LlamaRequest(org + "/" + repo, filename, Some(GpuLayers(device)), 0, Some(true)))
  }

  /** A model id that passed `validate_text_to_text_model` always loads:
      the repository is `owner/repo` and the file is the `.gguf` part. */
  lemma ValidatedModelLoads(modelId: string, device: string)
    requires ValidateTextToTextModel(modelId).Ok?
    ensures LoadLlamaCppModel(modelId, device).Ok?
    ensures EndsWith(LoadLlamaCppModel(modelId, device).value.filename, ".gguf")
  {
    ValidateTextToTextModelAccepts(modelId);
    var r := LoadLlamaCppModel(modelId, device).value;
    var f := r.filename;
    assert modelId == (r.repoId + "/") + f;
    assert EndsWith(modelId, ".gguf");
    assert '.' != '/' && forall i :: 0 <= i < |f| ==> f[i] != '/';
    FileOfValidatedModel(r.repoId + "/", f);
  }

  /** The `.gguf` ending lies inside the last part when that part has no
      slash. */
  lemma FileOfValidatedModel(head: string, f: string)
    requires |head| > 0 && head[|head| - 1] == '/' && '/' !in f
    requires EndsWith(head + f, ".gguf")
    ensures EndsWith(f, ".gguf")
  {
    var s := head + f;
    assert s[|head| - 1] == '/';
    forall k | |s| - 5 <= k < |s|
      ensures s[k] != '/'
    {
      assert s[k] == s[|s| - 5..][k - (|s| - 5)];
    }
    assert |f| >= 5;
    assert s[|s| - 5..] == f[|f| - 5..];
  }

  /** The default model loads from the `allenai/OLMoE-1B-7B-0924-Instruct-GGUF`
      repository. */
  lemma DefaultModelLoads(device: string)
    ensures LoadLlamaCppModel(DefaultTextToTextModel, device).Ok?
    ensures LoadLlamaCppModel(DefaultTextToTextModel, device).value.repoId == DefaultModelOwner + "/" + DefaultModelRepo
    ensures LoadLlamaCppModel(DefaultTextToTextModel, device).value.filename == DefaultModelFile
  {
    DefaultModelParts(DefaultModelOwner, DefaultModelRepo, DefaultModelFile);
    UnpackModelIdOfParts(DefaultModelOwner, DefaultModelRepo, DefaultModelFile);
  }

  /** What the Parler loader fetches, and where each part ends up. */
  datatype Loaded =
    | ParlerModel(source: string)              // ParlerTTSForConditionalGeneration.from_pretrained(id)
    | AutoTokenizer(source: string)            // AutoTokenizer.from_pretrained(id)
    | MovedTo(loaded: Loaded, device: string)  // .to(device)

  /** `load_parler_tts_model_and_tokenizer(model_id, device)`. */
  function LoadParlerTtsModelAndTokenizer(modelId: string, device: string): (r: (Loaded, Loaded))
    ensures r.0 == MovedTo(ParlerModel(modelId), device)
    ensures r.1.AutoTokenizer? && r.1.source == r.0.loaded.source
  {
    (MovedTo(ParlerModel(modelId), device), AutoTokenizer(modelId))
  }
}
