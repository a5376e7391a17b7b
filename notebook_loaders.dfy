/** `opennotebookllm.inference.model_loaders`: the older loaders, recorded as
    the requests they make. */
module NotebookLoaders {
  import opened Base
  import opened Text
  import opened ModelLoaders

  /** `load_llama_cpp_model(model_id)`: the id is unpacked as in the newer
      loader, but only `n_ctx` is passed besides the repository and file. */
  function LoadLlamaCppModel(modelId: string): (r: Result<LlamaRequest>)
    ensures r.Ok? <==> CountChar(modelId, '/') == 2
    ensures r.Ok? ==> r.value.repoId + "/" + r.value.filename == modelId && '/' !in r.value.filename
    ensures r.Ok? ==> r.value.nCtx == 0 && r.value.nGpuLayers.None? && r.value.verbose.None?
  {
    match UnpackModelId(modelId)
    case Err(e) => Err(e)
    case Ok((org, repo, filename)) => Ok(LlamaRequest(org + "/" + repo, filename, None, 0, None))
  }

  /** The two loaders read the same repository and file from an id. */
  lemma LoadersAgreeOnFiles(modelId: string, device: string)
    ensures LoadLlamaCppModel(modelId).Ok? <==> ModelLoaders.LoadLlamaCppModel(modelId, device).Ok?
    ensures LoadLlamaCppModel(modelId).Ok? ==>
      LoadLlamaCppModel(modelId).value.repoId == ModelLoaders.LoadLlamaCppModel(modelId, device).value.repoId
      && LoadLlamaCppModel(modelId).value.filename == ModelLoaders.LoadLlamaCppModel(modelId, device).value.filename
  {
  }

  /** The OuteTTS interface built by `load_outetts_interface`: the file it
      downloads, and the configuration it builds around it. */
  datatype OuteInterface = OuteInterface(repo: string, file: string, language: string, modelVersion: string)

  const OuteRepo := "OuteAI/OuteTTS-0.2-500M-GGUF"
  const OuteFile := "OuteTTS-0.2-500M-FP16.gguf"

  /** `load_outetts_interface(model_id)`: the argument is never used. */
  function LoadOuteTtsInterface(modelId: string): (r: OuteInterface)
    ensures r.language == "en" && r.modelVersion == "0.2"
    ensures r.repo == OuteRepo && r.file == OuteFile
  {
    OuteInterface(OuteRepo, OuteFile, "en", "0.2")
  }

  /** Whatever id is asked for, the same interface is built. */
  lemma OuteInterfaceIgnoresId(a: string, b: string)
    ensures LoadOuteTtsInterface(a) == LoadOuteTtsInterface(b)
  {
  }
}
