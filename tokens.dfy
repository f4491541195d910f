/** The tokenizer the chunker measures text with, and the chunking configuration
    (src/config.py). The vocabulary itself is not modelled: the tokenizer is any pair of
    total functions, so every property proved here holds for every vocabulary. */
module Tokens {

  /** An encoder of text into token ids and a decoder back, for one fixed vocabulary. */
  datatype Tokenizer = Tokenizer(encode: string -> seq<int>, decode: seq<int> -> string)

  /** `count_tokens(text)`: the length of the encoding. */
  function Count(tok: Tokenizer, text: string): nat {
    |tok.encode(text)|
  }

  /** CHUNK_SIZE_TOKENS, CHUNK_OVERLAP_TOKENS and SHORT_DOC_THRESHOLD_TOKENS. */
  datatype Config = Config(chunkSize: nat, overlap: nat, shortThreshold: nat) {
    /** The sliding window only advances when the overlap is smaller than the window. */
    predicate Valid() {
      overlap < chunkSize
    }
  }

  /** The values the configuration file sets. */
  const Defaults: Config := Config(600, 150, 1000)

  lemma DefaultsValid()
    ensures Defaults.Valid() && Defaults.chunkSize - Defaults.overlap == 450
  {
  }
}
