/** `document_to_podcast.inference.text_to_speech`: the dispatch on the kind
    of speech model, and the calls each of the three paths makes. The library
    calls (`load_default_speaker`, processors, tokenizers, `generate`, the
    tensor-to-array conversions) are opaque: each call is recorded as a term
    holding its arguments, so the model states which object is called with
    which values and nothing about what the call computes. */
module TextToSpeech {
  import opened Base

  /** A model object, seen through the classes it is an instance of: an
      OuteTTS GGUF interface, a Bark model, a pre-trained transformers model.
      `ref` tells objects apart. */
  datatype ModelObject = ModelObject(ref: nat, isInterfaceGguf: bool, isBark: bool, isPretrained: bool)

  /** `BarkModel` is a subclass of `PreTrainedModel`, so every Bark model is
      also a pre-trained model. */
  predicate ClassesConsistent(m: ModelObject)
  {
    m.isBark ==> m.isPretrained
  }

  /** A processor or tokenizer object. */
  datatype Handle = Handle(ref: nat)

  /** The results of the opaque calls, each holding the arguments it was
      given. */
  datatype Term =
    | DefaultSpeaker(speakerModel: ModelObject, name: string)
      // model.load_default_speaker(name=...)
    | OuteGeneration(outeModel: ModelObject, text: string, temperature: real,
                     repetitionPenalty: real, maxLength: int, speaker: Term)
      // model.generate(text=..., temperature=..., repetition_penalty=..., max_length=..., speaker=...)
    | OuteAudio(output: Term)
      // output.audio.cpu().detach().numpy().squeeze()
    | ProcessorOutput(processor: Handle, input: string, voicePreset: string)
      // processor(text, voice_preset=...)
    | BarkGeneration(barkModel: ModelObject, inputs: Term)
      // model.generate(**inputs)
    | InputIds(tokenizer: Handle, encoded: string)
      // tokenizer(text, return_tensors="pt").input_ids
    | ParlerGeneration(parlerModel: ModelObject, inputIds: Term, promptInputIds: Term)
      // model.generate(input_ids=..., prompt_input_ids=...)
    | Waveform(generation: Term)
      // generation.cpu().numpy().squeeze()

  /** The default temperature of the Oute path. */
  const OuteTemperature: real := 0.3
  const OuteRepetitionPenalty: real := 1.1
  const OuteMaxLength: int := 4096

  /** `_text_to_speech_oute`: the voice profile names the default speaker. */
  function TextToSpeechOute(inputText: string, model: ModelObject, voiceProfile: string, temperature: real): (r: Term)
    ensures r.OuteAudio? && r.output.OuteGeneration?
    ensures r.output.speaker == DefaultSpeaker(model, voiceProfile)
  {
    var speaker := DefaultSpeaker(model, voiceProfile);
    OuteAudio(OuteGeneration(model, inputText, temperature, OuteRepetitionPenalty, OuteMaxLength, speaker))
  }

  /** `_text_to_speech__bark`: calling a processor that is `None` raises. */
  function TextToSpeechBark(inputText: string, model: ModelObject, processor: Option<Handle>, voiceProfile: string): (r: Result<Term>)
    ensures r.Err? <==> processor.None?
    ensures r.Err? ==> r.error == TypeError
  {
    if processor.None? then Err(TypeError)
    else
      var inputs := ProcessorOutput(processor.value, inputText, voiceProfile);
      Ok(Waveform(BarkGeneration(model, inputs)))
  }

  /** `_text_to_speech_parler`: the voice profile is encoded with the
      description tokenizer when one is given and with the main tokenizer
      otherwise; the text is always encoded with the main tokenizer. A main
      tokenizer that is `None` raises, whichever tokenizer is called first. */
  function TextToSpeechParler(inputText: string, model: ModelObject, tokenizer: Option<Handle>,
                              voiceProfile: string, descriptionTokenizer: Option<Handle>): (r: Result<Term>)
    ensures r.Err? <==> tokenizer.None?
    ensures r.Err? ==> r.error == TypeError
  {
    if descriptionTokenizer.None? && tokenizer.None? then Err(TypeError)
    else
      var inputIds :=
        if descriptionTokenizer.Some? then InputIds(descriptionTokenizer.value, voiceProfile)
        else InputIds(tokenizer.value, voiceProfile);
      if tokenizer.None? then Err(TypeError)
      else
        var promptInputIds := InputIds(tokenizer.value, inputText);
        Ok(Waveform(ParlerGeneration(model, inputIds, promptInputIds)))
  }

  /** `text_to_speech`: the GGUF interface is tried first, then Bark, then
      any other pre-trained model; anything else is not implemented. The
      Oute path is always called without a temperature. */
  function TextToSpeech(inputText: string, model: ModelObject, voiceProfile: string,
                        processor: Option<Handle>, descriptionTokenizer: Option<Handle>): (r: Result<Term>)
    ensures r == Err(NotImplementedError) <==> !model.isInterfaceGguf && !model.isBark && !model.isPretrained
    ensures model.isInterfaceGguf ==> r.Ok? && r.value.OuteAudio?
    ensures !model.isInterfaceGguf && model.isBark && r.Ok? ==>
      r.value.Waveform? && r.value.generation.BarkGeneration?
    ensures !model.isInterfaceGguf && !model.isBark && model.isPretrained && r.Ok? ==>
      r.value.Waveform? && r.value.generation.ParlerGeneration?
  {
    if model.isInterfaceGguf then Ok(TextToSpeechOute(inputText, model, voiceProfile, OuteTemperature))
    else if model.isBark then TextToSpeechBark(inputText, model, processor, voiceProfile)
    else if model.isPretrained then
      TextToSpeechParler(inputText, model, processor, voiceProfile, descriptionTokenizer)
    else Err(NotImplementedError)
  }

  /** A Bark model is also a pre-trained model, so only the order of the
      branches keeps it off the Parler path; a model of no known class
      reaches `NotImplementedError`; the Bark and Parler paths fail exactly
      when no processor is given. */
  lemma DispatchOrder(inputText: string, model: ModelObject, voiceProfile: string,
                      processor: Option<Handle>, descriptionTokenizer: Option<Handle>)
    requires ClassesConsistent(model)
    ensures var r := TextToSpeech(inputText, model, voiceProfile, processor, descriptionTokenizer);
      && (model.isBark && !model.isInterfaceGguf ==>
            model.isPretrained && r == TextToSpeechBark(inputText, model, processor, voiceProfile))
      && (r.Ok? && r.value.Waveform? && r.value.generation.ParlerGeneration? ==> !model.isBark)
      && (r == Err(TypeError) <==> !model.isInterfaceGguf && model.isPretrained && processor.None?)
  {
  }

  /** The Oute path: the voice profile becomes the default speaker's name,
      and generation gets the input text, temperature 0.3, repetition
      penalty 1.1 and a maximum length of 4096. */
  lemma OuteArguments(inputText: string, model: ModelObject, voiceProfile: string,
                      processor: Option<Handle>, descriptionTokenizer: Option<Handle>)
    requires model.isInterfaceGguf
    ensures var r := TextToSpeech(inputText, model, voiceProfile, processor, descriptionTokenizer);
      var g := r.value.output;
      && g.OuteGeneration? && g.outeModel == model && g.text == inputText
      && g.temperature == 0.3 && g.repetitionPenalty == 1.1 && g.maxLength == 4096
      && g.speaker == DefaultSpeaker(model, voiceProfile)
  {
  }

  /** The Bark path: the processor is called with the text and the voice
      profile as voice preset, and everything it returns goes to
      `generate` of the same model. */
  lemma BarkArguments(inputText: string, model: ModelObject, voiceProfile: string,
                      processor: Handle, descriptionTokenizer: Option<Handle>)
    requires !model.isInterfaceGguf && model.isBark
    ensures var r := TextToSpeech(inputText, model, voiceProfile, Some(processor), descriptionTokenizer);
      && r.Ok? && r.value.Waveform? && r.value.generation.BarkGeneration?
      && r.value.generation.barkModel == model
      && r.value.generation.inputs == ProcessorOutput(processor, inputText, voiceProfile)
  {
  }

  /** The Parler path: the voice profile is encoded by the description
      tokenizer if there is one and by the main tokenizer otherwise, the
      input text always by the main tokenizer, and `generate` receives the
      profile as `input_ids` and the text as `prompt_input_ids`. */
  lemma ParlerArguments(inputText: string, model: ModelObject, voiceProfile: string,
                        tokenizer: Handle, descriptionTokenizer: Option<Handle>)
    requires !model.isInterfaceGguf && !model.isBark && model.isPretrained
    ensures var r := TextToSpeech(inputText, model, voiceProfile, Some(tokenizer), descriptionTokenizer);
      && r.Ok? && r.value.Waveform? && r.value.generation.ParlerGeneration?
      && var g := r.value.generation;
      && g.parlerModel == model
      && g.inputIds == InputIds(if descriptionTokenizer.Some? then descriptionTokenizer.value else tokenizer, voiceProfile)
      && g.promptInputIds == InputIds(tokenizer, inputText)
  {
  }
}
