/** A functional specification of TokenTextSplitter.split: one window
    step, the loop over the shrinking token list, the flush of the
    remaining tokens, and the properties these guarantee. The token list
    that the source keeps shrinking with subList is an immutable sequence
    together with the index at which the remaining tokens start. */
module Chunking {
  import opened JavaStrings
  import opened Encoding

  /** A Java reference that may be null. */
  datatype Option<T> = None | Some(value: T)

  /** The value computed, or the failure of `subList(consumed, size)` when
      re-encoding reports more tokens than remain (a from-index past the
      to-index). */
  datatype Result<T> = Ok(value: T) | SubListFails

  /** What split reads from the splitter: its configuration fields, its
      encoding and the platform's line separator. */
  datatype Config = Config(
    minChunkSizeChars: int,
    minChunkLengthToEmbed: int,
    maxNumChunks: int,
    keepSeparator: bool,
    encoding: Tokenizer,
    lineSeparator: string)

  /** A line separator is non-empty and does not contain the space that
      replaces it. */
  predicate ValidSeparator(sep: string) {
    |sep| > 0 && ' ' !in sep
  }

  function Min(a: int, b: int): int {
    if a <= b then a else b
  }

  function Max(a: int, b: int): int {
    if a >= b then a else b
  }

  /** The marks after which a chunk may be cut. */
  predicate IsSentenceEnd(c: char) {
    c == '.' || c == '?' || c == '!' || c == '\n'
  }

  /** Re-encoding the text decoded from a token window never yields more
      tokens than the window holds, when the text is re-encoded whole or cut
      just after a sentence end: the only two texts split re-encodes. */
  ghost predicate ReencodeBound(tk: Tokenizer) {
    forall w: seq<int>, k: nat ::
      k <= |tk.decode(w)| && (k == |tk.decode(w)| || (0 < k && IsSentenceEnd(tk.decode(w)[k - 1])))
      ==> |tk.encode(tk.decode(w)[..k])| <= |w|
  }

  /** The one-token-per-char encoding meets both hypotheses, so they can be
      met together. */
  lemma CharTokenizerIsWellBehaved()
    ensures NonEmptyEncoding(CharTokenizer())
    ensures ReencodeBound(CharTokenizer())
  {
  }

  /** The largest of the last indices of '.', '?', '!' and '\n', or -1. */
  function LastPunctuation(text: string): (p: int)
    ensures -1 <= p < |text|
  {
    Max(LastIndexOf(text, '.'), Max(LastIndexOf(text, '?'), Max(LastIndexOf(text, '!'), LastIndexOf(text, '\n'))))
  }

  /** The index LastPunctuation reports is that of the last sentence end,
      and -1 exactly when there is none. */
  lemma LastPunctuationIsLast(text: string)
    ensures var p := LastPunctuation(text);
            && -1 <= p < |text|
            && (p >= 0 ==> IsSentenceEnd(text[p]))
            && forall i :: p < i < |text| ==> !IsSentenceEnd(text[i])
  {
    LastIndexOfIsLast(text, '.');
    LastIndexOfIsLast(text, '?');
    LastIndexOfIsLast(text, '!');
    LastIndexOfIsLast(text, '\n');
  }

  /** The window text cut just after its last sentence end, when that mark
      lies past `minChunkSizeChars`; otherwise the text itself. */
  function Truncate(text: string, minChunkSizeChars: int): string {
    var p := LastPunctuation(text);
    if p != -1 && p > minChunkSizeChars then text[..p + 1] else text
  }

  /** The truncation rule: the result is a prefix of the text; if some
      sentence end lies past `minChunkSizeChars`, the prefix ends in the last
      sentence end of the text, which lies past that bound; otherwise the text
      is unchanged. */
  lemma TruncateRule(text: string, minChunkSizeChars: int)
    ensures var r := Truncate(text, minChunkSizeChars);
            && |r| <= |text| && r == text[..|r|]
            && if exists i :: 0 <= i < |text| && i > minChunkSizeChars && IsSentenceEnd(text[i])
               then && 0 < |r|
                    && |r| - 1 > minChunkSizeChars
                    && IsSentenceEnd(r[|r| - 1])
                    && forall i :: |r| <= i < |text| ==> !IsSentenceEnd(text[i])
               else r == text
  {
    LastPunctuationIsLast(text);
  }

  /** The string a loop iteration offers for embedding: the cut text
      trimmed, with every line separator turned into a space first unless
      separators are kept. */
  function ChunkTextToAppend(cut: string, keepSeparator: bool, sep: string): string
    requires |sep| > 0
  {
    if keepSeparator then Trim(cut) else Trim(Replace(cut, sep, " "))
  }

  /** The first `chunkSize` remaining tokens, or all of them if fewer. */
  function Window(tokens: seq<int>, start: nat, chunkSize: int): (w: seq<int>)
    requires start < |tokens| && chunkSize > 0
    ensures 0 < |w| <= chunkSize && start + |w| <= |tokens| && w == tokens[start..start + |w|]
    ensures |w| == chunkSize || start + |w| == |tokens|
  {
    tokens[start..start + Min(chunkSize, |tokens| - start)]
  }

  /** The text the window starting at token `k` decodes to. */
  function WindowText(c: Config, chunkSize: int, tokens: seq<int>, k: nat): string
    requires chunkSize > 0 && k < |tokens|
  {
    c.encoding.decode(Window(tokens, k, chunkSize))
  }

  /** The chunk the window starting at token `k` offers for embedding. */
  function ChunkAt(c: Config, chunkSize: int, tokens: seq<int>, k: nat): string
    requires ValidSeparator(c.lineSeparator) && chunkSize > 0 && k < |tokens|
  {
    ChunkTextToAppend(Truncate(WindowText(c, chunkSize, tokens, k), c.minChunkSizeChars), c.keepSeparator, c.lineSeparator)
  }

  /** What one loop iteration does: skip a blank window, or offer at most
      one chunk and move past the tokens of the cut text, or fail in subList. */
  datatype Step = Skip(next: nat) | Emit(out: seq<string>, next: nat) | Overrun

  function StepAt(c: Config, chunkSize: int, tokens: seq<int>, start: nat): (r: Step)
    requires ValidSeparator(c.lineSeparator) && chunkSize > 0 && start < |tokens|
    ensures r.Skip? ==> start < r.next <= |tokens|
    ensures r.Emit? ==> start <= r.next <= |tokens| && |r.out| <= 1
  {
    var text := WindowText(c, chunkSize, tokens, start);
    if IsBlank(text) then Skip(start + Min(chunkSize, |tokens| - start))
    else
      var cut := Truncate(text, c.minChunkSizeChars);
      var out := ChunkTextToAppend(cut, c.keepSeparator, c.lineSeparator);
      var consumed := |c.encoding.encode(cut)|;
      if consumed > |tokens| - start then Overrun
      else Emit(if |out| > c.minChunkLengthToEmbed then [out] else [], start + consumed)
  }

  /** The state in which the loop stops: the chunks it appended, where the
      remaining tokens start, and the counter of non-blank windows. */
  datatype Stop = Stop(chunks: seq<string>, next: nat, numChunks: int)

  /** Chunks appended before the rest of the loop runs. */
  function Prepend(out: seq<string>, r: Result<Stop>): Result<Stop> {
    match r
    case Ok(st) => Ok(Stop(out + st.chunks, st.next, st.numChunks))
    case SubListFails => SubListFails
  }

  lemma PrependNothing(r: Result<Stop>)
    ensures Prepend([], r) == r
  {
    if r.Ok? {
      assert [] + r.value.chunks == r.value.chunks;
    }
  }

  lemma PrependTwice(a: seq<string>, b: seq<string>, r: Result<Stop>)
    ensures Prepend(a, Prepend(b, r)) == Prepend(a + b, r)
  {
    if r.Ok? {
      assert a + (b + r.value.chunks) == (a + b) + r.value.chunks;
    }
  }

  /** The loop of split, from the remaining tokens `tokens[start..]` and the
      counter `numChunks`: it stops when the tokens run out or the counter
      reaches maxNumChunks, and otherwise takes a turn. */
  function Loop(c: Config, chunkSize: int, tokens: seq<int>, start: nat, numChunks: int): (r: Result<Stop>)
    requires ValidSeparator(c.lineSeparator) && chunkSize > 0 && start <= |tokens|
    ensures r.Ok? ==> start <= r.value.next <= |tokens|
    decreases c.maxNumChunks - numChunks, |tokens| - start, 1
  {
    if start == |tokens| || numChunks >= c.maxNumChunks then Ok(Stop([], start, numChunks))
    else Turn(c, chunkSize, tokens, start, numChunks)
  }

  /** One turn of the loop at token `start`, followed by the rest of the loop. */
  function Turn(c: Config, chunkSize: int, tokens: seq<int>, start: nat, numChunks: int): (r: Result<Stop>)
    requires ValidSeparator(c.lineSeparator) && chunkSize > 0 && start < |tokens| && numChunks < c.maxNumChunks
    ensures r.Ok? ==> start <= r.value.next <= |tokens|
    decreases c.maxNumChunks - numChunks, |tokens| - start, 0
  {
    match StepAt(c, chunkSize, tokens, start)
    case Skip(next) => Loop(c, chunkSize, tokens, next, numChunks)
    case Emit(out, next) => Prepend(out, Loop(c, chunkSize, tokens, next, numChunks + 1))
    case Overrun => SubListFails
  }

  /** The loop has appended `chunks` and reached token `start` with counter
      `numChunks`, and the rest of the loop completes `whole`. */
  ghost predicate Resumes(c: Config, chunkSize: int, tokens: seq<int>, whole: Result<Stop>,
                          chunks: seq<string>, start: nat, numChunks: int)
    requires ValidSeparator(c.lineSeparator) && chunkSize > 0 && start <= |tokens|
  {
    whole == Prepend(chunks, Loop(c, chunkSize, tokens, start, numChunks))
  }

  /** A turn keeps Resumes: a skip moves on, an emit appends its chunks and
      counts the window, and an overrun is the result of the whole loop. */
  lemma ResumeStep(c: Config, chunkSize: int, tokens: seq<int>, whole: Result<Stop>,
                   chunks: seq<string>, start: nat, numChunks: int)
    requires ValidSeparator(c.lineSeparator) && chunkSize > 0 && start < |tokens| && numChunks < c.maxNumChunks
    requires Resumes(c, chunkSize, tokens, whole, chunks, start, numChunks)
    ensures match StepAt(c, chunkSize, tokens, start)
            case Skip(next) => Resumes(c, chunkSize, tokens, whole, chunks, next, numChunks)
            case Emit(out, next) => Resumes(c, chunkSize, tokens, whole, chunks + out, next, numChunks + 1)
            case Overrun => whole == SubListFails
  {
    assert Loop(c, chunkSize, tokens, start, numChunks) == Turn(c, chunkSize, tokens, start, numChunks);
    match StepAt(c, chunkSize, tokens, start)
    case Skip(next) =>
    case Emit(out, next) =>
      PrependTwice(chunks, out, Loop(c, chunkSize, tokens, next, numChunks + 1));
    case Overrun =>
  }

  /** The flush after the loop: the remaining tokens decoded, separators
      turned into spaces, trimmed, kept only if long enough. */
  function Remainder(c: Config, tokens: seq<int>, next: nat): seq<string>
    requires ValidSeparator(c.lineSeparator) && next <= |tokens|
  {
    if next < |tokens| then
      var text := Trim(Replace(c.encoding.decode(tokens[next..]), c.lineSeparator, " "));
      if |text| > c.minChunkLengthToEmbed then [text] else []
    else []
  }

  /** split(text, chunkSize) */
  function Split(c: Config, text: Option<string>, chunkSize: int): Result<seq<string>>
    requires ValidSeparator(c.lineSeparator) && chunkSize > 0
  {
    if text.None? || IsBlank(text.value) then Ok([])
    else
      var tokens := c.encoding.encode(text.value);
      match Loop(c, chunkSize, tokens, 0, 0)
      case Ok(st) => Ok(st.chunks + Remainder(c, tokens, st.next))
      case SubListFails => SubListFails
  }

  /** Where the loop stops, split yields the loop's chunks followed by the
      remainder. */
  lemma SplitAfterLoop(c: Config, text: Option<string>, chunkSize: int, tokens: seq<int>,
                       chunks: seq<string>, start: nat, numChunks: int)
    requires ValidSeparator(c.lineSeparator) && chunkSize > 0
    requires text.Some? && !IsBlank(text.value) && tokens == c.encoding.encode(text.value)
    requires start <= |tokens| && (start == |tokens| || numChunks >= c.maxNumChunks)
    requires Resumes(c, chunkSize, tokens, Loop(c, chunkSize, tokens, 0, 0), chunks, start, numChunks)
    ensures Split(c, text, chunkSize) == Ok(chunks + Remainder(c, tokens, start))
  {
    assert chunks + [] == chunks;
  }

  // ----- Properties -----------------------------------------------------

  /** A chunk fit for embedding: trimmed and longer than the minimum. */
  predicate Embeddable(c: Config, x: string) {
    |x| > c.minChunkLengthToEmbed && Trim(x) == x
  }

  /** Every chunk is fit for embedding, and none holds a line separator
      unless separators are kept. */
  predicate ChunksFit(c: Config, cs: seq<string>) {
    forall i :: 0 <= i < |cs| ==>
      Embeddable(c, cs[i]) && (!c.keepSeparator ==> !Contains(cs[i], c.lineSeparator))
  }

  lemma ChunksFitConcat(c: Config, a: seq<string>, b: seq<string>)
    requires ChunksFit(c, a) && ChunksFit(c, b)
    ensures ChunksFit(c, a + b)
  {
    forall i | 0 <= i < |a + b|
      ensures Embeddable(c, (a + b)[i]) && (!c.keepSeparator ==> !Contains((a + b)[i], c.lineSeparator))
    {
      if i >= |a| {
        assert (a + b)[i] == b[i - |a|];
      }
    }
  }

  /** What was appended is trimmed, and carries no line separator unless
      separators are kept. */
  lemma ChunkTextShape(cut: string, keepSeparator: bool, sep: string)
    requires ValidSeparator(sep)
    ensures Trim(ChunkTextToAppend(cut, keepSeparator, sep)) == ChunkTextToAppend(cut, keepSeparator, sep)
    ensures !keepSeparator ==> !Contains(ChunkTextToAppend(cut, keepSeparator, sep), sep)
  {
    if keepSeparator {
      TrimIdempotent(cut);
    } else {
      var replaced := Replace(cut, sep, " ");
      TrimIdempotent(replaced);
      ReplaceRemovesTarget(cut, sep, " ");
      TrimKeepsAbsence(replaced, sep);
    }
  }

  /** Progress of one iteration: a blank window drops the whole window, a
      non-blank one drops as many tokens as the cut text re-encodes to, and,
      when non-empty text never encodes to nothing, at least one token. */
  lemma StepProgress(c: Config, chunkSize: int, tokens: seq<int>, start: nat)
    requires ValidSeparator(c.lineSeparator) && chunkSize > 0 && start < |tokens|
    ensures var text := WindowText(c, chunkSize, tokens, start);
            match StepAt(c, chunkSize, tokens, start)
            case Skip(next) =>
              IsBlank(text) && next == start + Min(chunkSize, |tokens| - start)
            case Emit(_, next) =>
              !IsBlank(text)
              && next == start + |c.encoding.encode(Truncate(text, c.minChunkSizeChars))|
              && (NonEmptyEncoding(c.encoding) ==> start < next)
            case Overrun =>
              !IsBlank(text)
              && |c.encoding.encode(Truncate(text, c.minChunkSizeChars))| > |tokens| - start
  {
    var text := WindowText(c, chunkSize, tokens, start);
    if !IsBlank(text) {
      assert |text| > 0;
      TruncateRule(text, c.minChunkSizeChars);
    }
  }

  /** A step fails only when re-encoding exceeds the remaining tokens, which
      the re-encoding bound rules out. */
  lemma StepNeverOverruns(c: Config, chunkSize: int, tokens: seq<int>, start: nat)
    requires ValidSeparator(c.lineSeparator) && chunkSize > 0 && start < |tokens|
    requires ReencodeBound(c.encoding)
    ensures !StepAt(c, chunkSize, tokens, start).Overrun?
  {
    var w := Window(tokens, start, chunkSize);
    var text := c.encoding.decode(w);
    var cut := Truncate(text, c.minChunkSizeChars);
    TruncateRule(text, c.minChunkSizeChars);
    assert |c.encoding.encode(text[..|cut|])| <= |w|;
  }

  /** A step that does not skip appends the chunk its window offers exactly
      when it is longer than minChunkLengthToEmbed, and nothing else; what it
      appends is fit for embedding. */
  lemma StepChunks(c: Config, chunkSize: int, tokens: seq<int>, start: nat)
    requires ValidSeparator(c.lineSeparator) && chunkSize > 0 && start < |tokens|
    ensures var r := StepAt(c, chunkSize, tokens, start);
            r.Emit? ==>
              && ChunksFit(c, r.out)
              && forall i :: 0 <= i < |r.out| ==> r.out[i] == ChunkAt(c, chunkSize, tokens, start)
    ensures var r := StepAt(c, chunkSize, tokens, start);
            var chunk := ChunkAt(c, chunkSize, tokens, start);
            r.Emit? ==> r.out == (if |chunk| > c.minChunkLengthToEmbed then [chunk] else [])
  {
    var r := StepAt(c, chunkSize, tokens, start);
    if r.Emit? && r.out != [] {
      var cut := Truncate(WindowText(c, chunkSize, tokens, start), c.minChunkSizeChars);
      ChunkTextShape(cut, c.keepSeparator, c.lineSeparator);
      assert r.out == [ChunkTextToAppend(cut, c.keepSeparator, c.lineSeparator)];
    }
  }

  /** Where the loop stops: inside the token list, either with every token
      consumed or with the counter at the cap; the counter only grows, never
      past the cap, and by at least one for every chunk appended. */
  lemma {:induction false} LoopBounds(c: Config, chunkSize: int, tokens: seq<int>, start: nat, numChunks: int)
    requires ValidSeparator(c.lineSeparator) && chunkSize > 0 && start <= |tokens|
    ensures Loop(c, chunkSize, tokens, start, numChunks).Ok? ==>
              var st := Loop(c, chunkSize, tokens, start, numChunks).value;
              && start <= st.next <= |tokens|
              && (st.next == |tokens| || st.numChunks >= c.maxNumChunks)
              && numChunks <= st.numChunks <= Max(numChunks, c.maxNumChunks)
              && |st.chunks| <= st.numChunks - numChunks
    decreases c.maxNumChunks - numChunks, |tokens| - start
  {
    if start < |tokens| && numChunks < c.maxNumChunks {
      match StepAt(c, chunkSize, tokens, start)
      case Skip(next) => LoopBounds(c, chunkSize, tokens, next, numChunks);
      case Emit(out, next) => LoopBounds(c, chunkSize, tokens, next, numChunks + 1);
      case Overrun =>
    }
  }

  /** Every chunk the loop appends is fit for embedding, and free of line
      separators when separators are not kept. */
  lemma {:induction false} LoopChunks(c: Config, chunkSize: int, tokens: seq<int>, start: nat, numChunks: int)
    requires ValidSeparator(c.lineSeparator) && chunkSize > 0 && start <= |tokens|
    ensures Loop(c, chunkSize, tokens, start, numChunks).Ok? ==>
              ChunksFit(c, Loop(c, chunkSize, tokens, start, numChunks).value.chunks)
    decreases c.maxNumChunks - numChunks, |tokens| - start
  {
    if start < |tokens| && numChunks < c.maxNumChunks {
      match StepAt(c, chunkSize, tokens, start)
      case Skip(next) =>
        LoopChunks(c, chunkSize, tokens, next, numChunks);
        assert Loop(c, chunkSize, tokens, start, numChunks) == Loop(c, chunkSize, tokens, next, numChunks);
      case Emit(out, next) =>
        var rest := Loop(c, chunkSize, tokens, next, numChunks + 1);
        LoopChunks(c, chunkSize, tokens, next, numChunks + 1);
        StepChunks(c, chunkSize, tokens, start);
        assert Loop(c, chunkSize, tokens, start, numChunks) == Prepend(out, rest);
        if rest.Ok? {
          ChunksFitConcat(c, out, rest.value.chunks);
        }
      case Overrun =>
    }
  }

  /** Under the re-encoding bound the loop never fails in subList. */
  lemma {:induction false} LoopSucceeds(c: Config, chunkSize: int, tokens: seq<int>, start: nat, numChunks: int)
    requires ValidSeparator(c.lineSeparator) && chunkSize > 0 && start <= |tokens|
    requires ReencodeBound(c.encoding)
    ensures Loop(c, chunkSize, tokens, start, numChunks).Ok?
    decreases c.maxNumChunks - numChunks, |tokens| - start
  {
    if start < |tokens| && numChunks < c.maxNumChunks {
      StepNeverOverruns(c, chunkSize, tokens, start);
      match StepAt(c, chunkSize, tokens, start)
      case Skip(next) => LoopSucceeds(c, chunkSize, tokens, next, numChunks);
      case Emit(out, next) => LoopSucceeds(c, chunkSize, tokens, next, numChunks + 1);
    }
  }

  /** The flush appends the remaining text, separators turned into spaces
      and trimmed, exactly when it is longer than minChunkLengthToEmbed; that
      chunk is fit for embedding and never holds a line separator, whatever
      `keepSeparator` says. */
  lemma RemainderChunk(c: Config, tokens: seq<int>, next: nat)
    requires ValidSeparator(c.lineSeparator) && next <= |tokens|
    ensures |Remainder(c, tokens, next)| <= 1
    ensures next == |tokens| ==> Remainder(c, tokens, next) == []
    ensures ChunksFit(c, Remainder(c, tokens, next))
    ensures forall i :: 0 <= i < |Remainder(c, tokens, next)| ==>
              !Contains(Remainder(c, tokens, next)[i], c.lineSeparator)
    ensures next < |tokens| ==>
              var text := Trim(Replace(c.encoding.decode(tokens[next..]), c.lineSeparator, " "));
              Remainder(c, tokens, next) == (if |text| > c.minChunkLengthToEmbed then [text] else [])
  {
    if next < |tokens| {
      ChunkTextShape(c.encoding.decode(tokens[next..]), false, c.lineSeparator);
    }
  }

  /** What split promises: blank or null text gives no chunks; every chunk
      is trimmed and longer than minChunkLengthToEmbed; separators are gone
      when not kept; there are at most maxNumChunks + 1 chunks; and under the
      re-encoding bound split never fails. */
  lemma SplitChunks(c: Config, text: Option<string>, chunkSize: int)
    requires ValidSeparator(c.lineSeparator) && chunkSize > 0
    ensures text.None? || IsBlank(text.value) ==> Split(c, text, chunkSize) == Ok([])
    ensures Split(c, text, chunkSize).Ok? ==>
              var cs := Split(c, text, chunkSize).value;
              |cs| <= Max(c.maxNumChunks, 0) + 1 && ChunksFit(c, cs)
    ensures ReencodeBound(c.encoding) ==> Split(c, text, chunkSize).Ok?
  {
    if text.Some? && !IsBlank(text.value) {
      var tokens := c.encoding.encode(text.value);
      LoopBounds(c, chunkSize, tokens, 0, 0);
      LoopChunks(c, chunkSize, tokens, 0, 0);
      if ReencodeBound(c.encoding) {
        LoopSucceeds(c, chunkSize, tokens, 0, 0);
      }
      var r := Loop(c, chunkSize, tokens, 0, 0);
      if r.Ok? {
        var st := r.value;
        RemainderChunk(c, tokens, st.next);
        ChunksFitConcat(c, st.chunks, Remainder(c, tokens, st.next));
      }
    }
  }

  // ----- Provenance and order of the chunks ------------------------------

  /** The start index of every window whose chunk the loop appends. */
  ghost function EmittedAt(c: Config, chunkSize: int, tokens: seq<int>, start: nat, numChunks: int): seq<nat>
    requires ValidSeparator(c.lineSeparator) && chunkSize > 0 && start <= |tokens|
    decreases c.maxNumChunks - numChunks, |tokens| - start
  {
    if start == |tokens| || numChunks >= c.maxNumChunks then []
    else
      match StepAt(c, chunkSize, tokens, start)
      case Skip(next) => EmittedAt(c, chunkSize, tokens, next, numChunks)
      case Emit(out, next) => (if out == [] then [] else [start]) + EmittedAt(c, chunkSize, tokens, next, numChunks + 1)
      case Overrun => []
  }

  /** Each chunk is the one the window at the matching offset offers, and
      all offsets lie in `tokens[start..]`. */
  predicate FromWindows(c: Config, chunkSize: int, tokens: seq<int>, start: nat, at: seq<nat>, cs: seq<string>)
    requires ValidSeparator(c.lineSeparator) && chunkSize > 0
  {
    && |at| == |cs|
    && forall i :: 0 <= i < |at| ==>
         start <= at[i] < |tokens| && cs[i] == ChunkAt(c, chunkSize, tokens, at[i])
  }

  /** The offsets strictly increase and all lie below `bound`. */
  predicate IncreasingBelow(at: seq<nat>, bound: nat) {
    && (forall i, j :: 0 <= i < j < |at| ==> at[i] < at[j])
    && (forall i :: 0 <= i < |at| ==> at[i] < bound)
  }

  lemma FromWindowsCons(c: Config, chunkSize: int, tokens: seq<int>, start: nat, next: nat,
                        here: seq<nat>, out: seq<string>, at: seq<nat>, cs: seq<string>)
    requires ValidSeparator(c.lineSeparator) && chunkSize > 0 && start < |tokens| && start <= next
    requires |here| == |out| <= 1
    requires forall i :: 0 <= i < |here| ==> here[i] == start && out[i] == ChunkAt(c, chunkSize, tokens, start)
    requires FromWindows(c, chunkSize, tokens, next, at, cs)
    ensures FromWindows(c, chunkSize, tokens, start, here + at, out + cs)
  {
    forall i | 0 <= i < |here + at|
      ensures start <= (here + at)[i] < |tokens|
      ensures (out + cs)[i] == ChunkAt(c, chunkSize, tokens, (here + at)[i])
    {
      if i >= |here| {
        assert (here + at)[i] == at[i - |here|] && (out + cs)[i] == cs[i - |here|];
      }
    }
  }

  lemma IncreasingBelowCons(here: seq<nat>, start: nat, at: seq<nat>, next: nat, bound: nat)
    requires |here| <= 1 && forall i :: 0 <= i < |here| ==> here[i] == start
    requires start < next
    requires forall i :: 0 <= i < |at| ==> next <= at[i]
    requires start < bound
    requires IncreasingBelow(at, bound)
    ensures IncreasingBelow(here + at, bound)
  {
    var s := here + at;
    forall i, j | 0 <= i < j < |s| ensures s[i] < s[j] {
      if i >= |here| {
        assert s[i] == at[i - |here|] && s[j] == at[j - |here|];
      } else {
        assert s[j] == at[j - |here|];
      }
    }
    forall i | 0 <= i < |s| ensures s[i] < bound {
      if i >= |here| {
        assert s[i] == at[i - |here|];
      }
    }
  }

  /** The loop appends chunks in token order: the i-th chunk is the one the
      window at the i-th emitting offset offers. */
  lemma {:induction false} LoopProvenance(c: Config, chunkSize: int, tokens: seq<int>, start: nat, numChunks: int)
    requires ValidSeparator(c.lineSeparator) && chunkSize > 0 && start <= |tokens|
    ensures Loop(c, chunkSize, tokens, start, numChunks).Ok? ==>
              FromWindows(c, chunkSize, tokens, start, EmittedAt(c, chunkSize, tokens, start, numChunks),
                          Loop(c, chunkSize, tokens, start, numChunks).value.chunks)
    decreases c.maxNumChunks - numChunks, |tokens| - start
  {
    if start < |tokens| && numChunks < c.maxNumChunks {
      match StepAt(c, chunkSize, tokens, start)
      case Skip(next) =>
        LoopProvenance(c, chunkSize, tokens, next, numChunks);
        assert Loop(c, chunkSize, tokens, start, numChunks) == Loop(c, chunkSize, tokens, next, numChunks);
        assert EmittedAt(c, chunkSize, tokens, start, numChunks) == EmittedAt(c, chunkSize, tokens, next, numChunks);
      case Emit(out, next) =>
        var rest := Loop(c, chunkSize, tokens, next, numChunks + 1);
        var at := EmittedAt(c, chunkSize, tokens, next, numChunks + 1);
        LoopProvenance(c, chunkSize, tokens, next, numChunks + 1);
        StepChunks(c, chunkSize, tokens, start);
        assert Loop(c, chunkSize, tokens, start, numChunks) == Prepend(out, rest);
        var here: seq<nat> := if out == [] then [] else [start];
        assert EmittedAt(c, chunkSize, tokens, start, numChunks) == here + at;
        if rest.Ok? {
          FromWindowsCons(c, chunkSize, tokens, start, next, here, out, at, rest.value.chunks);
        }
      case Overrun =>
    }
  }

  /** When non-empty text never encodes to nothing, the offsets of the
      emitting windows strictly increase and all lie before the tokens left
      for the flush. */
  lemma {:induction false} LoopOrder(c: Config, chunkSize: int, tokens: seq<int>, start: nat, numChunks: int)
    requires ValidSeparator(c.lineSeparator) && chunkSize > 0 && start <= |tokens|
    requires NonEmptyEncoding(c.encoding)
    ensures Loop(c, chunkSize, tokens, start, numChunks).Ok? ==>
              IncreasingBelow(EmittedAt(c, chunkSize, tokens, start, numChunks),
                              Loop(c, chunkSize, tokens, start, numChunks).value.next)
    decreases c.maxNumChunks - numChunks, |tokens| - start
  {
    if start < |tokens| && numChunks < c.maxNumChunks {
      match StepAt(c, chunkSize, tokens, start)
      case Skip(next) =>
        LoopOrder(c, chunkSize, tokens, next, numChunks);
        assert Loop(c, chunkSize, tokens, start, numChunks) == Loop(c, chunkSize, tokens, next, numChunks);
        assert EmittedAt(c, chunkSize, tokens, start, numChunks) == EmittedAt(c, chunkSize, tokens, next, numChunks);
      case Emit(out, next) =>
        var rest := Loop(c, chunkSize, tokens, next, numChunks + 1);
        var at := EmittedAt(c, chunkSize, tokens, next, numChunks + 1);
        LoopOrder(c, chunkSize, tokens, next, numChunks + 1);
        StepProgress(c, chunkSize, tokens, start);
        assert Loop(c, chunkSize, tokens, start, numChunks) == Prepend(out, rest);
        var here: seq<nat> := if out == [] then [] else [start];
        assert EmittedAt(c, chunkSize, tokens, start, numChunks) == here + at;
        if rest.Ok? {
          LoopProvenance(c, chunkSize, tokens, next, numChunks + 1);
          IncreasingBelowCons(here, start, at, next, rest.value.next);
        }
      case Overrun =>
    }
  }
}
