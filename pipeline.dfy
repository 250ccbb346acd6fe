/**
  One OCR run, stage by stage: resolve the image, pick the device tag (for
  the log only), load the model, open the image, encode the request, drop
  `token_type_ids`, generate, decode the new tokens and write the sidecar.
  Everything outside the script is a field of the environment: the
  directory, the accelerator probes, and the loader, image library,
  processor and model, each reduced to whether it succeeds and what it returns.
*/
module Pipeline {
  import opened Wrappers
  import opened Paths
  import opened Resolver
  import opened Device
  import opened Inference
  import opened Output

  datatype Environment<!V> = Environment(
    platform: Platform,
    listing: seq<string>,                                   // os.listdir(".")
    files: set<string>,                                     // names for which os.path.isfile holds
    existing: set<string>,                                  // paths for which os.path.exists holds
    cudaAvailable: bool,
    mpsAvailable: bool,
    modelLoads: bool,                                       // both from_pretrained calls and eval() succeed
    imageOpens: bool,                                       // Image.open(path).convert("RGB") succeeds
    applyChatTemplate: seq<Message> -> Option<map<string, V>>,  // None: the call raises
    generate: (map<string, V>, nat) -> Option<seq<int>>,    // inputs and max_new_tokens to the first
                                                            // generated sequence; None: raises
    promptLength: V -> nat,                                 // shape[1] of the input_ids tensor
    decode: seq<int> -> string,
    writeSucceeds: bool)                                    // the UTF-8 sidecar write succeeds

  /** How a run ends. Every failure but the image-open one is caught and
      printed; the image is opened outside any handler, so that failure
      escapes `main`. */
  datatype Outcome =
    | ResolutionFailed(resolution: Resolution)
    | ModelLoadFailed
    | ImageOpenCrashed
    | InferenceFailed
    | Saved(outputPath: string, text: string)

  /** The new tokens the inference block hands to the decoder for a chosen
      image, or None when one of its steps raises. */
  function InferTokens<V>(env: Environment<V>, imagePath: string): Option<seq<int>> {
    match env.applyChatTemplate(Request(imagePath))
    case None => None
    case Some(encoded) =>
      var inputs := encoded - {TokenTypeIds};
      match env.generate(inputs, MaxNewTokens)
      case None => None
      case Some(generated) =>
        if InputIds in inputs then Some(NewTokens(generated, env.promptLength(inputs[InputIds])))
        else None
  }

  /** The text the inference block produces for a chosen image, or None when
      one of its steps raises (and the broad handler catches it). */
  function Infer<V>(env: Environment<V>, imagePath: string): Option<string> {
    match InferTokens(env, imagePath)
    case None => None
    case Some(tokens) => Some(env.decode(tokens))
  }

  /** A model that keeps to the `max_new_tokens` it is given produces at most
      8192 new tokens per run, whatever the prompt. */
  lemma InferWithinBudget<V>(env: Environment<V>, imagePath: string)
    requires forall m :: InputIds in m && env.generate(m, MaxNewTokens).Some? ==>
      |env.generate(m, MaxNewTokens).value| <= env.promptLength(m[InputIds]) + MaxNewTokens
    ensures InferTokens(env, imagePath).Some? ==> |InferTokens(env, imagePath).value| <= MaxNewTokens
  {
    match env.applyChatTemplate(Request(imagePath))
    case None =>
    case Some(encoded) =>
      var inputs := encoded - {TokenTypeIds};
      match env.generate(inputs, MaxNewTokens)
      case None =>
      case Some(generated) =>
        if InputIds in inputs {
          NewTokensWithinBudget(generated, env.promptLength(inputs[InputIds]));
        }
  }

  /** When the model echoes the prompt and continues it, only the continuation is decoded. */
  lemma InferDecodesOnlyContinuation<V>(env: Environment<V>, imagePath: string, encoded: map<string, V>,
                                        prompt: seq<int>, continuation: seq<int>)
    requires env.applyChatTemplate(Request(imagePath)) == Some(encoded)
    requires InputIds in encoded && env.promptLength(encoded[InputIds]) == |prompt|
    requires env.generate(encoded - {TokenTypeIds}, MaxNewTokens) == Some(prompt + continuation)
    ensures Infer(env, imagePath) == Some(env.decode(continuation))
  {
    var inputs := encoded - {TokenTypeIds};
    assert InputIds in inputs && inputs[InputIds] == encoded[InputIds];
    NewTokensDropPrompt(prompt, continuation);
  }

  /** The model never sees `token_type_ids`: two generators that agree on every
      input without that field give the same result. */
  lemma GenerateNeverSeesTokenTypeIds<V>(env: Environment<V>, imagePath: string,
                                         other: (map<string, V>, nat) -> Option<seq<int>>)
    requires forall m, budget :: TokenTypeIds !in m ==> other(m, budget) == env.generate(m, budget)
    ensures Infer(env.(generate := other), imagePath) == Infer(env, imagePath)
  {
    match env.applyChatTemplate(Request(imagePath))
    case None =>
    case Some(encoded) =>
      var inputs := encoded - {TokenTypeIds};
      assert other(inputs, MaxNewTokens) == env.generate(inputs, MaxNewTokens);
  }

  /** The inference block: encode the request, pop `token_type_ids` from the
      encoded inputs in place, generate, and decode the tokens after the prompt. */
  method InferStep<V>(env: Environment<V>, imagePath: string) returns (text: Option<string>)
    ensures text == Infer(env, imagePath)
  {
    var encoded := env.applyChatTemplate(Request(imagePath));
    if encoded.None? {
      return None;
    }
    var inputs := new EncodedInputs(encoded.value);
    var dropped := inputs.Pop(TokenTypeIds);
    assert inputs.fields == encoded.value - {TokenTypeIds};
    var generated := env.generate(inputs.fields, MaxNewTokens);
    if generated.None? || InputIds !in inputs.fields {
      return None;
    }
    text := Some(env.decode(NewTokens(generated.value, env.promptLength(inputs.fields[InputIds]))));
  }

  /** `main()`. The device tag comes back for the log line and nothing else
      depends on it; the model is requested only once an image is chosen. */
  method Run<V>(configured: string, env: Environment<V>)
    returns (outcome: Outcome, device: Option<string>, loadRequested: bool)
    ensures var r := Resolve(configured, env.listing, env.files, env.existing, env.platform);
      && (loadRequested <==> r.Chosen?)
      && (!r.Chosen? ==> outcome == ResolutionFailed(r) && device == None)
      && (r.Chosen? ==> device == Some(DeviceFor(env.cudaAvailable, env.mpsAvailable)))
      && (r.Chosen? && !env.modelLoads ==> outcome == ModelLoadFailed)
      && (r.Chosen? && env.modelLoads && !env.imageOpens ==> outcome == ImageOpenCrashed)
      && (r.Chosen? && env.modelLoads && env.imageOpens ==>
            outcome == match Infer(env, r.path)
                       case None => InferenceFailed
                       case Some(text) =>
                         if env.writeSucceeds then Saved(OutputFileName(r.path, env.platform), text)
                         else InferenceFailed)
    ensures outcome.Saved? ==> IsSupported(Resolve(configured, env.listing, env.files, env.existing, env.platform).path, env.platform)
  {
    var r := Resolve(configured, env.listing, env.files, env.existing, env.platform);
    if !r.Chosen? {
      return ResolutionFailed(r), None, false;
    }
    var tag := SelectDevice(env.cudaAvailable, env.mpsAvailable);
    device := Some(tag);
    loadRequested := true;
    if !env.modelLoads {
      return ModelLoadFailed, device, loadRequested;
    }
    if !env.imageOpens {
      return ImageOpenCrashed, device, loadRequested;
    }
    var text := InferStep(env, r.path);
    if text.None? || !env.writeSucceeds {
      return InferenceFailed, device, loadRequested;
    }
    outcome := Saved(OutputFileName(r.path, env.platform), text.value);
  }
}
