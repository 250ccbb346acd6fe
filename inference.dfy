/**
  The deterministic steps around generation: the chat request, the encoded
  inputs the processor returns (a mutable mapping from field name to tensor),
  the removal of `token_type_ids`, and the slice of the generated sequence
  that holds the new tokens.
*/
module Inference {
  import opened Wrappers

  /** Field names of the encoded inputs the script touches. */
  const TokenTypeIds: string := "token_type_ids"
  const InputIds: string := "input_ids"

  /** `max_new_tokens` passed to generation. */
  const MaxNewTokens: nat := 8192

  /** The fixed OCR instruction. */
  const Instruction: string := "Text Recognition:"

  datatype Part = ImagePart(url: string) | TextPart(text: string)
  datatype Message = Message(role: string, content: seq<Part>)

  /** The one-message chat request: the image, then the instruction. */
  function Request(imagePath: string): seq<Message> {
    [Message("user", [ImagePart(imagePath), TextPart(Instruction)])]
  }

  /** The processor's output, a dictionary the script edits in place. */
  class EncodedInputs<V> {
    var fields: map<string, V>

    constructor (fields: map<string, V>)
      ensures this.fields == fields
    {
      this.fields := fields;
    }

    /** `dict.pop(key, None)`: removes `key` if present and returns what it held. */
    method Pop(key: string) returns (removed: Option<V>)
      modifies this
      ensures fields == old(fields) - {key}
      ensures key !in fields
      ensures forall k :: k != key ==> (k in fields <==> k in old(fields))
      ensures forall k :: k in fields ==> fields[k] == old(fields)[k]
      ensures key !in old(fields) ==> fields == old(fields)
      ensures removed == if key in old(fields) then Some(old(fields)[key]) else None
    {
      if key in fields {
        removed := Some(fields[key]);
      } else {
        removed := None;
      }
      fields := fields - {key};
    }
  }

  /** `generated[prompt_length:]` with Python slice semantics: a start past the
      end gives an empty slice. */
  function NewTokens(generated: seq<int>, promptLength: nat): (tokens: seq<int>)
    ensures |tokens| == if promptLength <= |generated| then |generated| - promptLength else 0
    ensures forall i :: 0 <= i < |tokens| ==> tokens[i] == generated[promptLength + i]
  {
    if promptLength <= |generated| then generated[promptLength..] else []
  }

  /** When generation echoes the prompt, the slice is exactly the continuation:
      no prompt token reaches the decoder. */
  lemma NewTokensDropPrompt(prompt: seq<int>, continuation: seq<int>)
    ensures NewTokens(prompt + continuation, |prompt|) == continuation
  {
  }

  /** Prompt and new tokens together rebuild the generated sequence. */
  lemma NewTokensComplete(generated: seq<int>, promptLength: nat)
    requires promptLength <= |generated|
    ensures generated[..promptLength] + NewTokens(generated, promptLength) == generated
  {
  }

  /** A generation that keeps to its budget yields at most `MaxNewTokens` new tokens. */
  lemma NewTokensWithinBudget(generated: seq<int>, promptLength: nat)
    requires |generated| <= promptLength + MaxNewTokens
    ensures |NewTokens(generated, promptLength)| <= MaxNewTokens
  {
  }
}
