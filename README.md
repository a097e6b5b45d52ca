# TokenTextSplitter — a Dafny model

This project models Spring AI's token-window text splitter,
`TokenTextSplitter`. The splitter prepares documents for embedding. It encodes
a text into model tokens, then repeatedly does the following:

1. It takes a window of at most `chunkSize` tokens from the front and decodes it.
2. It skips the window if the text is blank.
3. Otherwise it cuts the text just after its last `.`, `?`, `!` or `\n`, but
   only if that mark lies past `minChunkSizeChars`.
4. It trims the text and, unless `keepSeparator` is set, turns line separators
   into spaces. It keeps the result only if it is longer than
   `minChunkLengthToEmbed`.
5. It drops as many tokens from the front as the cut text re-encodes to.

The loop stops when the tokens run out or after `maxNumChunks` non-blank
windows. Any tokens still left are then flushed as one final chunk.

Layout:

- `Encoding.dfy` (module `Encoding`): the tokenizer boundary. A `Tokenizer` is
  a pair of total functions, `encode` and `decode`. It also defines a
  one-token-per-char tokenizer, and the ghost predicate
  `Encoding.NonEmptyEncoding`: non-empty text encodes to at least one token.
- `JavaStrings.dfy` (module `JavaStrings`): the `java.lang.String` operations
  the splitter uses. These are `trim`, `lastIndexOf(char)` and
  `replace(CharSequence, CharSequence)`, with their properties.
- `Chunking.dfy` (module `Chunking`): the functional specification of `split`
  and the properties it has.
  - `ReencodeBound` is the second tokenizer assumption. Re-encoding the text
    decoded from a window never yields more tokens than the window holds.
    This is required only for the two texts that line 108 re-encodes: the
    whole window text, and a cut that ends just after a `.`, `?`, `!` or `\n`.
  - `CharTokenizerIsWellBehaved` shows that the one-token-per-char tokenizer
    meets both assumptions.
  - `StepAt` is one loop iteration.
  - `Loop` and `Turn` are the loop.
  - `Remainder` is the final flush.
  - `Split` is the whole operation.
- `TokenTextSplitter.dfy` (module `Splitter`): class `TokenTextSplitter`.
  - Its configuration fields and its three constructors.
  - `Split`, a `while` loop over an index into the immutable token sequence.
    The index plays the part of the shrinking `subList` view. `Split` is
    proved to compute `Chunking.Split`.
  - `SplitText`.
- `Examples.dfy` (module `Examples`): a worked example with the
  one-token-per-char tokenizer, proved by the verifier. It reaches the `maxNumChunks + 1` bound.

Modelling choices:

- A `null` text is `None` of an `Option`.
- At line 108 the to-index of `subList` is the list's size. The call fails
  when the cut text re-encodes to more tokens than remain, because the
  from-index then lies past the to-index. For the JDK's lists that case throws
  `IllegalArgumentException`. The model records it as the error outcome
  `SubListFails`. Under `ReencodeBound`, the model proves that this never
  happens.
- `System.lineSeparator()` is a constructor parameter. It must be non-empty
  and must not contain a space.
- The tokenizer is also a constructor parameter, in place of the jtokkit
  `CL100K_BASE` encoding.
- `chunkSize > 0` is a precondition of `split`.
- `NonEmptyEncoding` is about non-empty text, not only non-blank text. A cut
  at `\n` can leave a text that is non-empty but blank. For example, with
  `minChunkSizeChars` 2 the window text `"   \nabc"` is not blank, and it is
  cut to `"   \n"`. A tokenizer that encoded that cut to no tokens would make
  line 108 drop 0 tokens. The loop would then repeat the same window until
  `numChunks` reaches the cap.
- `String.trim` strips every char at or below U+0020. Lengths and indices count
  Dafny chars.
- The configuration fields are `const`, because the class never reassigns
  them after construction.

Where the comments in `TokenTextSplitter.java` and its code differ, the model
follows the code:

- Line 48 describes `maxNumChunks` as "the maximum number of chunks to
  generate". In fact it caps the number of non-blank windows (lines 87-90 and
  110). A window whose text is too short to keep still counts. The flush at
  lines 114-119 can add one more chunk, so a result can hold
  `maxNumChunks + 1` chunks (`Examples.CapThenFlush`).
- Line 45 says to discard chunks shorter than `minChunkLengthToEmbed`. The
  test at line 103 (and at line 116) also discards a chunk of exactly that
  length.

Two further facts of the code:

- Line 102 replaces each occurrence of the line separator with one space.
  Runs of separators are not collapsed into one space.
- Line 115 replaces line separators in the flushed remainder whatever
  `keepSeparator` says.

## Model

| member | source | states |
|---|---|---|
| `Splitter.TokenTextSplitter.constructor` | spring-ai-core/src/main/java/org/springframework/ai/transformer/splitter/TokenTextSplitter.java:40-54 | the no-argument constructor leaves the defaults: chunk size 800, minChunkSizeChars 350, minChunkLengthToEmbed 5, maxNumChunks 10000, keepSeparator true |
| `Splitter.TokenTextSplitter.WithKeepSeparator` | spring-ai-core/src/main/java/org/springframework/ai/transformer/splitter/TokenTextSplitter.java:56-58 | the defaults, except that keepSeparator is the given flag |
| `Splitter.TokenTextSplitter.WithSettings` | spring-ai-core/src/main/java/org/springframework/ai/transformer/splitter/TokenTextSplitter.java:60-67 | the five-argument constructor stores exactly the five given values |
| `Splitter.TokenTextSplitter.SplitText` | spring-ai-core/src/main/java/org/springframework/ai/transformer/splitter/TokenTextSplitter.java:69-72 | splitText returns what split returns with the configured default chunk size; a null text gives an empty list |
| `Splitter.TokenTextSplitter.NextChunk` | spring-ai-core/src/main/java/org/springframework/ai/transformer/splitter/TokenTextSplitter.java:83-108 | the loop body computes exactly the step of the specification: skip a blank window, or offer the cut and trimmed chunk and move past the re-encoded tokens, or fail in subList |
| `Splitter.TokenTextSplitter.Split` | spring-ai-core/src/main/java/org/springframework/ai/transformer/splitter/TokenTextSplitter.java:74-122 | the loop with its flush computes Chunking.Split. Null or blank text gives no chunks. Every chunk is trimmed, longer than minChunkLengthToEmbed, and free of separators when they are not kept. There are at most maxNumChunks + 1 chunks. Under the re-encoding bound, split never throws |
| `Chunking.Window` | spring-ai-core/src/main/java/org/springframework/ai/transformer/splitter/TokenTextSplitter.java:83 | `Window` (line 83) is the first min(chunkSize, remaining) remaining tokens: non-empty, at most chunkSize, and all remaining tokens when fewer are left |
| `Chunking.LastPunctuationIsLast` | spring-ai-core/src/main/java/org/springframework/ai/transformer/splitter/TokenTextSplitter.java:93-94 | `LastPunctuation`, the maximum of the four lastIndexOf results, is the index of the last '.', '?', '!' or '\n' in the window, and -1 exactly when there is none |
| `Chunking.TruncateRule` | spring-ai-core/src/main/java/org/springframework/ai/transformer/splitter/TokenTextSplitter.java:93-99 | `Truncate`, the cut of lines 96-99, yields a prefix of the window text. If a sentence end lies past minChunkSizeChars, the cut text ends in the last sentence end, which lies past that bound. Otherwise the text is unchanged |
| `Chunking.ChunkTextShape` | spring-ai-core/src/main/java/org/springframework/ai/transformer/splitter/TokenTextSplitter.java:101-102 | `ChunkTextToAppend`, the text of lines 101-102 offered for embedding, is trimmed, and contains no line separator when keepSeparator is false |
| `Chunking.StepAt` | spring-ai-core/src/main/java/org/springframework/ai/transformer/splitter/TokenTextSplitter.java:83-110 | `StepAt` is one iteration of lines 83-110: a skip moves strictly forward within the tokens; an emit moves forward within the tokens and offers at most one chunk |
| `Chunking.StepProgress` | spring-ai-core/src/main/java/org/springframework/ai/transformer/splitter/TokenTextSplitter.java:87-108 | a blank window drops exactly min(chunkSize, remaining) tokens. A non-blank one drops as many tokens as its cut text re-encodes to, which is at least one when non-empty text never encodes to nothing. subList fails only when that count exceeds the remaining tokens |
| `Chunking.StepNeverOverruns` | spring-ai-core/src/main/java/org/springframework/ai/transformer/splitter/TokenTextSplitter.java:108 | when the whole window text and every cut after a sentence end re-encode within the window (`ReencodeBound`), the subList call of one iteration never throws |
| `Chunking.StepChunks` | spring-ai-core/src/main/java/org/springframework/ai/transformer/splitter/TokenTextSplitter.java:101-105 | a non-skipping iteration appends its own window's chunk exactly when that chunk is longer than minChunkLengthToEmbed, and nothing else; what it appends is trimmed (and separator-free when separators are not kept) |
| `Chunking.ResumeStep` | spring-ai-core/src/main/java/org/springframework/ai/transformer/splitter/TokenTextSplitter.java:82-111 | one iteration keeps the loop invariant: a skip keeps chunks and counter; an emit appends its chunks and adds one to the counter; an overrun is the outcome of the whole call |
| `Chunking.SplitAfterLoop` | spring-ai-core/src/main/java/org/springframework/ai/transformer/splitter/TokenTextSplitter.java:113-121 | once the loop stops, split's result is the loop's chunks followed by the flushed remainder |
| `Chunking.LoopBounds` | spring-ai-core/src/main/java/org/springframework/ai/transformer/splitter/TokenTextSplitter.java:82-110 | `Loop` and `Turn` are the loop of lines 82-111. The loop stops inside the tokens, with every token consumed or the counter at maxNumChunks. The counter never decreases, never passes the cap, and grows by at least one per chunk appended |
| `Chunking.LoopChunks` | spring-ai-core/src/main/java/org/springframework/ai/transformer/splitter/TokenTextSplitter.java:101-105 | every chunk the loop appends is trimmed and longer than minChunkLengthToEmbed, and separator-free when separators are not kept |
| `Chunking.LoopSucceeds` | spring-ai-core/src/main/java/org/springframework/ai/transformer/splitter/TokenTextSplitter.java:82-111 | under the re-encoding bound the loop never throws |
| `Chunking.RemainderChunk` | spring-ai-core/src/main/java/org/springframework/ai/transformer/splitter/TokenTextSplitter.java:113-119 | `Remainder` is the flush of lines 113-119. It adds nothing when no tokens remain. Otherwise it adds the remaining text, with separators turned into spaces and trimmed, exactly when that text is longer than minChunkLengthToEmbed. That chunk is trimmed, longer than minChunkLengthToEmbed, and never contains the line separator, whatever keepSeparator says |
| `Chunking.SplitChunks` | spring-ai-core/src/main/java/org/springframework/ai/transformer/splitter/TokenTextSplitter.java:74-122 | `Chunking.Split` is split of lines 74-122. Null or blank text gives an empty list, whatever the tokenizer does. Every chunk is trimmed and longer than minChunkLengthToEmbed, and separator-free unless kept. There are at most maxNumChunks + 1 chunks. Under the re-encoding bound there is no exception |
| `Chunking.LoopProvenance` | spring-ai-core/src/main/java/org/springframework/ai/transformer/splitter/TokenTextSplitter.java:80-108 | the loop's i-th chunk is exactly the chunk offered by the window at the i-th emitting offset, and every such offset lies in the remaining tokens |
| `Chunking.LoopOrder` | spring-ai-core/src/main/java/org/springframework/ai/transformer/splitter/TokenTextSplitter.java:82-114 | when non-empty text never encodes to nothing, the emitting windows start at strictly increasing offsets, all before the tokens left for the flush, so chunks appear in token order |
| `JavaStrings.TrimIsSubstring` | spring-ai-core/src/main/java/org/springframework/ai/transformer/splitter/TokenTextSplitter.java:75-101 | `Trim` (String.trim) returns the substring left after dropping the chars at or below U+0020 from both ends; the result neither starts nor ends with such a char |
| `JavaStrings.BlankIffAllTrimmable` | spring-ai-core/src/main/java/org/springframework/ai/transformer/splitter/TokenTextSplitter.java:75-87 | `trim().isEmpty()` holds exactly when every char is at or below U+0020 |
| `JavaStrings.TrimIdempotent` | spring-ai-core/src/main/java/org/springframework/ai/transformer/splitter/TokenTextSplitter.java:101-115 | trimming a trimmed string changes nothing |
| `JavaStrings.LastIndexOfIsLast` | spring-ai-core/src/main/java/org/springframework/ai/transformer/splitter/TokenTextSplitter.java:93-94 | `LastIndexOf` (String.lastIndexOf) returns the last index holding the char, and -1 exactly when it does not occur |
| `JavaStrings.ReplaceRemovesTarget` | spring-ai-core/src/main/java/org/springframework/ai/transformer/splitter/TokenTextSplitter.java:102-115 | after `Replace` (String.replace) turns the line separator into a space, the separator no longer occurs |
| `JavaStrings.TrimKeepsAbsence` | spring-ai-core/src/main/java/org/springframework/ai/transformer/splitter/TokenTextSplitter.java:102-115 | trimming does not create an occurrence of the separator |
| `Chunking.CharTokenizerIsWellBehaved` | spring-ai-core/src/main/java/org/springframework/ai/transformer/splitter/TokenTextSplitter.java:124-134 | the two tokenizer assumptions can hold together: the one-token-per-char tokenizer meets both |
| `Examples.CapThenFlush` | spring-ai-core/src/main/java/org/springframework/ai/transformer/splitter/TokenTextSplitter.java:82-119 | with maxNumChunks 1, splitting "ab cd" into windows of 2 tokens yields "ab" then the flushed "cd": two chunks, so the maxNumChunks + 1 bound is reached |

## Left out

- The jtokkit byte-pair encoding and the `CL100K_BASE` vocabulary. The
  tokenizer is an arbitrary pair of total functions. Only the two assumptions
  `NonEmptyEncoding` and `ReencodeBound` are stated, and only as hypotheses of
  the lemmas that need them. The model does not show that `CL100K_BASE` meets
  them.
- The `Assert.notNull` checks in `getEncodedTokens` and `decodeTokens`. The
  model never passes null to them, so they cannot fire.
- Encoder failures on malformed input. The tokenizer functions are total, so
  such failures are not modelled.
- `chunkSize <= 0`. Zero never advances and a negative value makes `subList`
  throw; `chunkSize > 0` is a precondition instead.
- The `TextSplitter` superclass and document-level handling are not part of
  this model.
- Java strings count UTF-16 code units. The model counts Dafny chars, so a
  text with supplementary characters can have a different length and
  different indices.
- The list returned by `split` is a fresh `ArrayList`. The model returns an
  immutable sequence, so aliasing of the result is not captured.
