/** The splitter object: its configuration fields, its three constructors,
    and split as a loop over an index into the encoded tokens, proved to
    compute the functional specification in module Chunking. */
module Splitter {
  import opened JavaStrings
  import opened Encoding
  import opened Chunking

  class TokenTextSplitter {
    /** The encoding the splitter uses for every text. */
    const encoding: Tokenizer
    /** The platform's line separator, which split turns into spaces. */
    const lineSeparator: string

    /** The target size of each chunk, in tokens. */
    const defaultChunkSize: int
    /** A sentence end is a cut point only past this many chars. */
    const minChunkSizeChars: int
    /** Chunks of at most this many chars are discarded. */
    const minChunkLengthToEmbed: int
    /** The cap on the number of non-blank windows. */
    const maxNumChunks: int
    const keepSeparator: bool

    predicate Valid() {
      ValidSeparator(lineSeparator)
    }

    /** The fields split reads. */
    function Settings(): (c: Config)
      ensures c.minChunkSizeChars == minChunkSizeChars && c.minChunkLengthToEmbed == minChunkLengthToEmbed
      ensures c.maxNumChunks == maxNumChunks && c.keepSeparator == keepSeparator
      ensures c.lineSeparator == lineSeparator
    {
      Config(minChunkSizeChars, minChunkLengthToEmbed, maxNumChunks, keepSeparator, encoding, lineSeparator)
    }

    /** The default configuration. */
    constructor (encoding: Tokenizer, lineSeparator: string)
      requires ValidSeparator(lineSeparator)
      ensures Valid() && this.encoding == encoding && this.lineSeparator == lineSeparator
      ensures defaultChunkSize == 800 && minChunkSizeChars == 350 && minChunkLengthToEmbed == 5
      ensures maxNumChunks == 10000 && keepSeparator
    {
      this.encoding := encoding;
      this.lineSeparator := lineSeparator;
      defaultChunkSize := 800;
      minChunkSizeChars := 350;
      minChunkLengthToEmbed := 5;
      maxNumChunks := 10000;
      keepSeparator := true;
    }

    /** The default configuration with the given separator policy. */
    constructor WithKeepSeparator(encoding: Tokenizer, lineSeparator: string, keepSeparator: bool)
      requires ValidSeparator(lineSeparator)
      ensures Valid() && this.encoding == encoding && this.lineSeparator == lineSeparator
      ensures defaultChunkSize == 800 && minChunkSizeChars == 350 && minChunkLengthToEmbed == 5
      ensures maxNumChunks == 10000 && this.keepSeparator == keepSeparator
    {
      this.encoding := encoding;
      this.lineSeparator := lineSeparator;
      defaultChunkSize := 800;
      minChunkSizeChars := 350;
      minChunkLengthToEmbed := 5;
      maxNumChunks := 10000;
      this.keepSeparator := keepSeparator;
    }

    /** Exactly the given configuration. */
    constructor WithSettings(encoding: Tokenizer, lineSeparator: string, defaultChunkSize: int,
                             minChunkSizeChars: int, minChunkLengthToEmbed: int, maxNumChunks: int,
                             keepSeparator: bool)
      requires ValidSeparator(lineSeparator)
      ensures Valid() && this.encoding == encoding && this.lineSeparator == lineSeparator
      ensures this.defaultChunkSize == defaultChunkSize && this.minChunkSizeChars == minChunkSizeChars
      ensures this.minChunkLengthToEmbed == minChunkLengthToEmbed && this.maxNumChunks == maxNumChunks
      ensures this.keepSeparator == keepSeparator
    {
      this.encoding := encoding;
      this.lineSeparator := lineSeparator;
      this.defaultChunkSize := defaultChunkSize;
      this.minChunkSizeChars := minChunkSizeChars;
      this.minChunkLengthToEmbed := minChunkLengthToEmbed;
      this.maxNumChunks := maxNumChunks;
      this.keepSeparator := keepSeparator;
    }

    /** The body of split's loop for the window at token `start`: decode the
        window, skip it if blank, otherwise cut it after its last sentence end
        past minChunkSizeChars, offer the trimmed text if it is long enough,
        and move past as many tokens as the cut text re-encodes to. */
    method NextChunk(tokens: seq<int>, start: nat, chunkSize: int) returns (step: Step)
      requires Valid() && chunkSize > 0 && start < |tokens|
      ensures step == StepAt(Settings(), chunkSize, tokens, start)
    {
      ghost var c := Settings();
      var chunk := tokens[start..start + Min(chunkSize, |tokens| - start)];
      var chunkText := encoding.decode(chunk);
      assert chunkText == WindowText(c, chunkSize, tokens, start);
      ghost var windowText := chunkText;

      if IsBlank(chunkText) {
        return Skip(start + |chunk|);
      }

      var lastPunctuation := LastPunctuation(chunkText);
      if lastPunctuation != -1 && lastPunctuation > minChunkSizeChars {
        chunkText := chunkText[..lastPunctuation + 1];
      }
      assert chunkText == Truncate(windowText, minChunkSizeChars);

      var chunkTextToAppend := if keepSeparator then Trim(chunkText)
                               else Trim(Replace(chunkText, lineSeparator, " "));
      assert chunkTextToAppend == ChunkTextToAppend(chunkText, keepSeparator, lineSeparator);
      var consumed := |encoding.encode(chunkText)|;
      if consumed > |tokens| - start {
        return Overrun;
      }
      step := Emit(if |chunkTextToAppend| > minChunkLengthToEmbed then [chunkTextToAppend] else [],
                   start + consumed);
    }

    /** Splits `text` into chunks of at most `chunkSize` tokens, preferring
        to end each at a sentence end; a null reference is `None`. */
    method Split(text: Option<string>, chunkSize: int) returns (r: Result<seq<string>>)
      requires Valid() && chunkSize > 0
      ensures r == Chunking.Split(Settings(), text, chunkSize)
      ensures text.None? || IsBlank(text.value) ==> r == Ok([])
      ensures r.Ok? ==> |r.value| <= Max(maxNumChunks, 0) + 1 && ChunksFit(Settings(), r.value)
      ensures ReencodeBound(encoding) ==> r.Ok?
    {
      SplitChunks(Settings(), text, chunkSize);
      if text.None? || IsBlank(text.value) {
        return Ok([]);
      }
      ghost var c := Settings();
      var tokens := encoding.encode(text.value);
      var chunks: seq<string> := [];
      var start: nat := 0;
      var numChunks := 0;
      ghost var whole := Loop(c, chunkSize, tokens, 0, 0);
      PrependNothing(whole);
      while start < |tokens| && numChunks < maxNumChunks
        invariant start <= |tokens|
        invariant Resumes(c, chunkSize, tokens, whole, chunks, start, numChunks)
        decreases maxNumChunks - numChunks, |tokens| - start
      {
        var step := NextChunk(tokens, start, chunkSize);
        ResumeStep(c, chunkSize, tokens, whole, chunks, start, numChunks);
        match step
        case Skip(next) =>
          start := next;
        case Emit(out, next) =>
          chunks := chunks + out;
          start := next;
          numChunks := numChunks + 1;
        case Overrun =>
          return SubListFails;
      }
      SplitAfterLoop(c, text, chunkSize, tokens, chunks, start, numChunks);
      ghost var loopChunks := chunks;

      if start < |tokens| {
        var remainingText := Trim(Replace(encoding.decode(tokens[start..]), lineSeparator, " "));
        if |remainingText| > minChunkLengthToEmbed {
          chunks := chunks + [remainingText];
        }
      }
      assert chunks == loopChunks + Remainder(c, tokens, start);
      return Ok(chunks);
    }

    /** splitText: split with the configured default chunk size; a null
        reference is `None` and, as in split, yields no chunks. */
    method SplitText(text: Option<string>) returns (r: Result<seq<string>>)
      requires Valid() && defaultChunkSize > 0
      ensures r == Chunking.Split(Settings(), text, defaultChunkSize)
      ensures text.None? ==> r == Ok([])
    {
      r := Split(text, defaultChunkSize);
    }
  }
}
