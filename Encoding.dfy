/** The tokenizer boundary of the splitter. The byte-pair encoding itself is
    a foreign library; here it is an arbitrary pair of total functions, and
    the properties the splitter's loop relies on are stated as predicates
    that the lemmas take as hypotheses (the re-encoding bound is stated in
    module Chunking, beside the sentence ends it speaks of). */
module Encoding {

  /** A deterministic text encoding: text to token ids and back. */
  datatype Tokenizer = Tokenizer(encode: string -> seq<int>, decode: seq<int> -> string)

  /** Every non-empty text encodes to at least one token. */
  ghost predicate NonEmptyEncoding(tk: Tokenizer) {
    forall s: string :: |s| > 0 ==> |tk.encode(s)| > 0
  }

  /** The char a token id stands for in the one-token-per-char encoding;
      ids that are not Unicode scalar values decode to '?'. */
  function CharOf(id: int): char {
    if 0 <= id < 0xD800 || 0xE000 <= id < 0x11_0000 then id as char else '?'
  }

  /** Encodes each char as its code point. */
  function CodePoints(s: string): (ids: seq<int>)
    ensures |ids| == |s|
  {
    if s == [] then [] else [s[0] as int] + CodePoints(s[1..])
  }

  /** Decodes each token id as one char. */
  function FromCodePoints(ids: seq<int>): (s: string)
    ensures |s| == |ids|
  {
    if ids == [] then [] else [CharOf(ids[0])] + FromCodePoints(ids[1..])
  }

  /** One token per char: the token id of a char is its code point. */
  function CharTokenizer(): Tokenizer {
    Tokenizer(CodePoints, FromCodePoints)
  }
}
