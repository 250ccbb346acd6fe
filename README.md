# GLM-OCR runner — a Dafny model of `run_ocr.py`

`run_ocr.py` recognises the text in one image with the GLM-OCR
vision-language model. It chooses an image: the configured `IMAGE_PATH`, or
else the first supported image file in the working directory. It logs which
accelerator is present. It loads the processor and the model, asks the model
for the text of the image, decodes only the newly generated tokens and writes
them to `<basename>_ocr.txt`.

This project models the deterministic logic of `main()` and proves what it
promises:

- `paths.dfy` (`Paths`): Python's `str.strip`, ASCII `str.lower`,
  `os.path.splitext` and `os.path.basename`. Both `posixpath` and `ntpath`
  are covered, chosen by a `Platform` value. `splitext` follows Python's own
  algorithm: it compares the last separator with the last dot, and leading
  dots of the last component do not start an extension.
- `resolver.dfy` (`Resolver`): `SUPPORTED_EXTENSIONS`, the auto-discovery
  filter over the directory listing, and the resolution of the configured
  path into one of four results: `NoImageFound`, `ImageNotFound(path)`,
  `UnsupportedFormat(ext)` or `Chosen(path)`.
- `device.dfy` (`Device`): the cuda / mps / cpu priority. It is a function,
  plus the step-by-step method the script runs.
- `inference.dfy` (`Inference`): the one-message chat request. The encoded
  inputs are a class whose dictionary `pop` removes `token_type_ids` in
  place. Also here: the `generated[P:]` slice of new tokens and the
  8192-token budget.
- `output.dfy` (`Output`): the sidecar file name.
- `pipeline.dfy` (`Pipeline`): `main()` as a method over an `Environment`.
  The environment holds what the script takes from outside: the directory
  listing, `isfile` / `exists`, the two accelerator probes, and whether
  loading, image opening and writing succeed. It also holds the processor's
  chat template, the model's `generate` and the processor's `decode`, as
  uninterpreted functions. The run ends in a resolution error, a model-load
  error, a crash on an unreadable image, an inference error, or a saved text.

## Notes on the script's behaviour

- The device tag is `cuda`, `mps` or `cpu` (`run_ocr.py:55-59`). It is only
  logged; the model is placed by `device_map="auto"`.
- The image is opened with PIL outside every `try` block
  (`run_ocr.py:88`). A file that cannot be decoded therefore ends the run
  with an uncaught exception and no printed message. The model calls
  this outcome `ImageOpenCrashed`.
- A failing sidecar write happens inside the inference `try`
  (`run_ocr.py:131-137`), so it reports like any other inference error. The
  text has been printed by then.
- `str.lower` is modelled as ASCII folding. This does not change any
  membership test against the all-ASCII extension list. The only non-ASCII
  letters that Python lower-cases into ASCII are the Kelvin sign (to `k`,
  which no supported extension contains) and `İ` (to `i` plus a combining
  dot, which is not ASCII).

## Model

| member | source | states |
|---|---|---|
| `Paths.TrimStart` | run_ocr.py:24 | the result is the suffix of the input that starts at its first non-whitespace character; everything dropped is whitespace (Python's `isspace` set) |
| `Paths.TrimEnd` | run_ocr.py:24 | the result is the prefix that ends at the last non-whitespace character; everything dropped is whitespace |
| `Paths.Strip` | run_ocr.py:24 | `strip()` leaves a string with non-space ends, and it is empty exactly when the input is all whitespace |
| `Paths.StripIsMiddle` | run_ocr.py:24 | `strip` of whitespace + middle + whitespace is exactly the middle, when the middle has non-space ends |
| `Paths.TrimStartPast` | run_ocr.py:24 | dropping leading whitespace from whitespace + rest, where rest starts with a non-space or is empty, gives exactly rest |
| `Paths.TrimEndPast` | run_ocr.py:24 | dropping trailing whitespace from rest + whitespace, where rest ends with a non-space or is empty, gives exactly rest |
| `Paths.LowerAscii` | run_ocr.py:47 | lower-casing keeps the length, lowers each ASCII capital, keeps every other character, and leaves no capital behind |
| `Paths.LastEnd` | run_ocr.py:47 | the `rfind` used by `splitext`: it gives the position after the last occurrence, with none after it, or 0 when there is none |
| `Paths.LastEndAppend` | run_ocr.py:47 | the last occurrence in a concatenation lies in the second part when it has one, and otherwise is the last occurrence in the first part |
| `Paths.LastEndSamePattern` | run_ocr.py:47 | two strings of equal length that have members of the set at the same positions have the same last occurrence |
| `Paths.LastEndLower` | run_ocr.py:47-48 | for a set without letters (separators, the dot), lower-casing does not move the last occurrence |
| `Paths.ExtStart` | run_ocr.py:47 | the extension starts at a dot, or at the end of the path when there is none, and no dot or separator follows that dot |
| `Paths.SplitExt` | run_ocr.py:47 | `splitext` splits the path into root + ext, and ext is empty or a dot followed by no dot and no separator |
| `Paths.SplitExtOfName` | run_ocr.py:47 | for `dir/stem.ext`, where the stem has a non-dot character and no separator, the split is exactly (`dir/stem`, `.ext`) |
| `Paths.NoDotMeansNoExtension` | run_ocr.py:47 | a path without a dot has an empty extension |
| `Paths.HiddenNameHasNoExtension` | run_ocr.py:47 | a last component made of leading dots and then no further dot (`.png`, `..png`) has no extension |
| `Paths.ExtStartSamePattern` | run_ocr.py:47 | where the extension starts depends only on the positions of the dots and on the last separator and the last dot |
| `Paths.ExtStartLower` | run_ocr.py:47-48 | lower-casing a path does not move the start of its extension |
| `Paths.ExtensionOfLower` | run_ocr.py:47-48 | the extension of the lower-cased path is the lower-cased extension, so case folding never moves the split |
| `Paths.Basename` | run_ocr.py:129 | `basename` is a suffix of the path without separators, starting right after a separator or right after a Windows drive prefix, and never inside that prefix, so `C:x` gives `x` |
| `Paths.BasenameAfterDirectory` | run_ocr.py:129 | for a directory part ending in a separator, the basename of directory + name is the name |
| `Resolver.Candidates` | run_ocr.py:30-34 | a name is a candidate exactly when it is listed, is a regular file and has a supported lower-cased extension |
| `Resolver.Filter` | run_ocr.py:30-34 | the list comprehension keeps at most the listed items, and an item is kept exactly when it is listed and satisfies the condition |
| `Resolver.FilterAppend` | run_ocr.py:30-34 | the comprehension over two concatenated lists is the concatenation of the two comprehensions |
| `Resolver.FilterFirst` | run_ocr.py:30-40 | the first kept item is the first listed item that satisfies the condition |
| `Resolver.CandidatesAppend` | run_ocr.py:30-34 | the filter distributes over concatenation of listings, so candidates keep listing order |
| `Resolver.CandidatesSingle` | run_ocr.py:30-34 | a one-name listing keeps its name exactly when the name qualifies |
| `Resolver.FirstCandidate` | run_ocr.py:30-40 | the first candidate is the first listed name that qualifies |
| `Resolver.Resolve` | run_ocr.py:24-51 | empty configured path: no image exactly when no listed name qualifies, otherwise a listed supported regular file. Configured path: not found exactly when it does not exist; unsupported exactly when it exists with an unsupported extension, carrying that lower-cased extension; an existing supported path is chosen, and it is the stripped path itself. With an empty configured path and a non-empty candidate list, the first candidate is chosen. Every chosen path is supported |
| `Resolver.AutoDiscoveryPicksFirst` | run_ocr.py:28-41 | with an empty configured path, the chosen image is the first qualifying entry of the listing |
| `Resolver.MissingBeforeUnsupported` | run_ocr.py:42-51 | a missing configured path is reported as not found even when its extension is unsupported |
| `Resolver.ConfiguredPathIsStripped` | run_ocr.py:24-51 | whitespace around an existing supported configured path is ignored, and the path is chosen unchanged |
| `Resolver.SupportIsCaseInsensitive` | run_ocr.py:47-48 | two paths equal up to ASCII case are either both supported or both unsupported |
| `Device.DeviceFor` | run_ocr.py:55-59 | the tag is one of cuda, mps or cpu. It is cuda exactly when CUDA is available, mps exactly when only MPS is, and cpu exactly when neither is |
| `Device.SelectDevice` | run_ocr.py:55-59 | the step-by-step assignment yields the priority tag |
| `Inference.EncodedInputs.Pop` | run_ocr.py:112 | after `pop`, the key is gone, every other key keeps its value, and the map is unchanged when the key was absent. The removed value is returned |
| `Inference.NewTokens` | run_ocr.py:117-118 | the slice has length max(0, \|generated\| − P) and holds, at each index i, token P + i: no prompt position |
| `Inference.NewTokensDropPrompt` | run_ocr.py:117-118 | when the generated sequence is the prompt followed by a continuation, the slice is exactly the continuation |
| `Inference.NewTokensComplete` | run_ocr.py:118 | the prompt prefix followed by the slice rebuilds the generated sequence |
| `Inference.NewTokensWithinBudget` | run_ocr.py:114-118 | a generation within `max_new_tokens` (8192) yields at most 8192 new tokens |
| `Output.OutputFileName` | run_ocr.py:129-130 | the sidecar name ends in `_ocr.txt` and contains no separator before it |
| `Output.OutputFileNameOfImage` | run_ocr.py:129-130 | `dir/stem.ext` gives `stem_ocr.txt`: the directory is dropped and the extension stripped |
| `Output.OutputFileNameWithoutExtension` | run_ocr.py:129-130 | a base name without an extension is kept whole before `_ocr.txt` |
| `Output.SidecarIgnoresExtension` | run_ocr.py:129-130 | images that differ only in their extension, such as its case (`photo.JPG` and `photo.jpg`), share one sidecar name |
| `Pipeline.InferDecodesOnlyContinuation` | run_ocr.py:101-120 | when generation returns prompt + continuation and `input_ids` has the prompt's length, the decoded text is the decoding of the continuation alone |
| `Pipeline.GenerateNeverSeesTokenTypeIds` | run_ocr.py:112-114 | the inference result depends on `generate` only at inputs without `token_type_ids` |
| `Pipeline.InferWithinBudget` | run_ocr.py:114-118 | `generate` is called with `max_new_tokens` = 8192, so a model that keeps to the budget it is given hands at most 8192 new tokens to the decoder |
| `Pipeline.InferStep` | run_ocr.py:101-120 | the in-place block (encode the request, `pop` `token_type_ids` from the encoded inputs, generate, slice off the prompt, decode) computes the `Infer` result that the lemmas above describe |
| `Pipeline.Run` | run_ocr.py:20-137 | the model is requested exactly when an image was chosen, and a resolution failure is returned as such. The device tag is the priority tag and nothing else depends on it. After that, the run ends in a load failure, an image-open crash, an inference failure, or the sidecar `OutputFileName(path)` holding the decoded new tokens. A saved run always had a supported image |

## Left out

- Loading the processor and the model (`run_ocr.py:66-81`): the model reduces it to one success flag. Weights, `torch_dtype`, `device_map` and `eval()` are outside the model.
- Probing CUDA and MPS (`run_ocr.py:56-58`): the two answers are inputs.
- `os.listdir`, `os.path.isfile` and `os.path.exists`: they are a sequence and two sets of names. The model assumes they do not change during the run.
- PIL image decoding (`run_ocr.py:88`): it is reduced to whether it succeeds.
- `apply_chat_template`, `model.generate` and `processor.decode`: they are uninterpreted functions. `generate` receives the inputs and `max_new_tokens`; other generation settings are left out. It returns the first sequence of the batch; an empty batch counts as a raised exception. Decoding is total. The tensors' `.to(model.device)` placement is not modelled.
- Console prints, including `device.upper()`, and the bytes written to the sidecar: I/O. The write is reduced to a success flag.
- `Inference.Request`: the fixed one-message chat literal (`run_ocr.py:91-99`) is built but carries no contract, because it is constant data.
- `Paths.Basename`: UNC paths (`\\server\share`) are not given their drive handling. `ntpath.basename` treats a UNC path without a separator after the share as all drive and returns an empty name; the model returns the text after the last separator. Python 3.12's drive-letter rule (`C:name`) is part of the contract.
- `inputs["input_ids"].shape[1]` (`run_ocr.py:118`) is assumed to exist: `promptLength` is a total function. A tensor without a second dimension would raise inside the `try` and be reported as an inference error; the model does not produce that error.
- `Paths.LowerAscii`: it folds ASCII only, not Unicode. This is equivalent for the extension check, as explained above, but not for every string.
