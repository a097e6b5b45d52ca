/** A worked example of split with the one-token-per-char encoding, proving
    that the bound of maxNumChunks + 1 chunks is reached. */
module Examples {
  import opened JavaStrings
  import opened Encoding
  import opened Chunking

  /** Sentence ends count past char 0, chunks longer than 0 chars are
      embedded, and a single non-blank window is allowed. */
  function OneWindow(): Config {
    Config(0, 0, 1, true, CharTokenizer(), "\n")
  }

  /** With maxNumChunks = 1, split of a non-blank text yields what the first
      window offers followed by the flushed rest. */
  lemma SplitOfOne(c: Config, text: string, chunkSize: int, out: seq<string>, next: nat, rest: seq<string>,
                   chunks: seq<string>)
    requires ValidSeparator(c.lineSeparator) && chunkSize > 0 && !IsBlank(text) && c.maxNumChunks == 1
    requires 0 < |c.encoding.encode(text)|
    requires StepAt(c, chunkSize, c.encoding.encode(text), 0) == Emit(out, next)
    requires Remainder(c, c.encoding.encode(text), next) == rest
    requires chunks == out + rest
    ensures Split(c, Some(text), chunkSize) == Ok(chunks)
  {
    var tokens := c.encoding.encode(text);
    assert Loop(c, chunkSize, tokens, 0, 0) == Turn(c, chunkSize, tokens, 0, 0);
    assert Loop(c, chunkSize, tokens, next, 1) == Ok(Stop([], next, 1));
    assert out + [] == out;
  }

  /** A text without the target's first char is left as it is. */
  lemma {:induction false} ReplaceAbsent(s: string, target: string, replacement: string)
    requires |target| > 0 && target[0] !in s
    ensures Replace(s, target, replacement) == s
    decreases |s|
  {
    if |s| > 0 {
      assert !(target <= s);
      ReplaceAbsent(s[1..], target, replacement);
      assert [s[0]] + s[1..] == s;
    }
  }

  lemma FirstWindow(tokens: seq<int>)
    requires tokens == [97, 98, 32, 99, 100]
    ensures StepAt(OneWindow(), 2, tokens, 0) == Emit(["ab"], 2)
  {
    assert Window(tokens, 0, 2) == [97, 98];
    var text := FromCodePoints([97, 98]);
    assert text == "ab";
    assert TrimStart(text, 0) == 0;
    LastPunctuationIsLast(text);
    assert Truncate(text, 0) == text;
    assert TrimEnd(text, 0, 2) == 2;
    assert Trim(text) == text[0..2] == text;
    assert !IsBlank(text);
    assert CodePoints(text) == [97, 98];
  }

  lemma FlushedRest(tokens: seq<int>)
    requires tokens == [97, 98, 32, 99, 100]
    ensures Remainder(OneWindow(), tokens, 2) == ["cd"]
  {
    assert tokens[2..] == [32, 99, 100];
    var text := FromCodePoints([32, 99, 100]);
    assert text == " cd";
    ReplaceAbsent(text, "\n", " ");
    assert TrimStart(text, 0) == 1;
    assert TrimEnd(text, 1, 3) == 3;
    assert Trim(text) == text[1..3] == "cd";
  }

  lemma EncodeText(text: string)
    requires text == "ab cd"
    ensures OneWindow().encoding.encode(text) == [97, 98, 32, 99, 100]
    ensures !IsBlank(text)
  {
    assert CodePoints(text) == [97, 98, 32, 99, 100];
    assert TrimStart(text, 0) == 0;
  }

  /** With maxNumChunks = 1 and a text that needs two windows, split yields
      two chunks: the first window and the flushed remainder. */
  lemma CapThenFlush(text: string)
    requires text == "ab cd"
    ensures Split(OneWindow(), Some(text), 2) == Ok(["ab", "cd"])
  {
    var c := OneWindow();
    var tokens := [97, 98, 32, 99, 100];
    EncodeText(text);
    FirstWindow(tokens);
    FlushedRest(tokens);
    assert ["ab"] + ["cd"] == ["ab", "cd"];
    SplitOfOne(c, text, 2, ["ab"], 2, ["cd"], ["ab", "cd"]);
  }
}
