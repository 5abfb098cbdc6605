/**
 * Worked examples of the generator's table, stated on the value model.
 */
module MarkovScenarios {
  import opened JavaString
  import opened Wrappers
  import opened MarkovSpec
  import opened Markov

  // The tables after each word of "The cat sat. The dog ran!".
  const T1: Table := Table(map[Sentinel := ["The"]], "The")
  const T2: Table := Table(map[Sentinel := ["The"], "The" := ["cat"]], "cat")
  const T3: Table := Table(map[Sentinel := ["The"], "The" := ["cat"], "cat" := ["sat."]], "sat.")
  const T4: Table := Table(map[Sentinel := ["The", "The"], "The" := ["cat"], "cat" := ["sat."]], "The")
  const T5: Table := Table(map[Sentinel := ["The", "The"], "The" := ["cat", "dog"], "cat" := ["sat."]], "dog")
  const T6: Table :=
    Table(map[Sentinel := ["The", "The"], "The" := ["cat", "dog"], "cat" := ["sat."], "dog" := ["ran!"]], "ran!")

  /** Two sentences, "The cat sat. The dog ran!": each sentence's first word goes
      to the sentinel's list, every other word to its predecessor's list, and a
      sentence-ending word never becomes a key. */
  lemma TwoSentences()
    ensures IngestAll(Initial, SampleWords) == T6
  {
    var ws := SampleWords;
    Word1(); Word2(); Word3(); Word4(); Word5(); Word6();
    assert IngestAll(T6, []) == T6;
    assert ws[1..] == ["cat", "sat.", "The", "dog", "ran!"];
    assert ws[1..][1..] == ["sat.", "The", "dog", "ran!"];
    assert ws[1..][1..][1..] == ["The", "dog", "ran!"];
    assert ws[1..][1..][1..][1..] == ["dog", "ran!"];
    assert ws[1..][1..][1..][1..][1..] == ["ran!"];
    assert ws[1..][1..][1..][1..][1..][1..] == [];
  }

  /** The keys of the sample table are four different strings. */
  lemma SampleKeysDistinct()
    ensures "The" != Sentinel && "cat" != Sentinel && "dog" != Sentinel
    ensures "cat" != "The" && "dog" != "The" && "dog" != "cat"
  {
  }

  // One lemma per word of the two sentences.

  lemma Word1()
    ensures Observe(Initial, "The") == T1
  {
    SampleKeysDistinct();
    assert IsSentenceEnd(Sentinel);
    Step(Initial, "The", Sentinel);
    assert Bucket(Initial.words, Sentinel) + ["The"] == ["The"];
  }

  lemma Word2()
    ensures Observe(T1, "cat") == T2
  {
    SampleKeysDistinct();
    assert !IsSentenceEnd("The");
    Step(T1, "cat", "The");
    assert Bucket(T1.words, "The") + ["cat"] == ["cat"];
  }

  lemma Word3()
    ensures Observe(T2, "sat.") == T3
  {
    SampleKeysDistinct();
    assert !IsSentenceEnd("cat");
    Step(T2, "sat.", "cat");
    assert Bucket(T2.words, "cat") + ["sat."] == ["sat."];
  }

  lemma Word4()
    ensures Observe(T3, "The") == T4
  {
    SampleKeysDistinct();
    assert IsSentenceEnd("sat.");
    Step(T3, "The", Sentinel);
    assert Bucket(T3.words, Sentinel) + ["The"] == ["The", "The"];
  }

  lemma Word5()
    ensures Observe(T4, "dog") == T5
  {
    SampleKeysDistinct();
    assert !IsSentenceEnd("The");
    Step(T4, "dog", "The");
    assert Bucket(T4.words, "The") + ["dog"] == ["cat", "dog"];
  }

  lemma Word6()
    ensures Observe(T5, "ran!") == T6
  {
    SampleKeysDistinct();
    assert !IsSentenceEnd("dog");
    Step(T5, "ran!", "dog");
    assert Bucket(T5.words, "dog") + ["ran!"] == ["ran!"];
  }

  const SampleWords: seq<string> := ["The", "cat", "sat.", "The", "dog", "ran!"]

  /** The line "The cat sat. The dog ran!" splits into its six words. */
  lemma SampleLineWords()
    ensures LineWords("The cat sat. The dog ran!") == SampleWords
  {
    SampleJoin();
    SampleUntrimmed();
    TrimSplitJoin(SampleWords);
  }

  // Join(SampleWords), one word at a time from the back.

  lemma SampleJoin()
    ensures Join(SampleWords) == "The cat sat. The dog ran!"
  {
    SampleJoin2();
    JoinCons("The", ["cat", "sat.", "The", "dog", "ran!"]);
  }

  lemma SampleJoin2()
    ensures Join(["cat", "sat.", "The", "dog", "ran!"]) == "cat sat. The dog ran!"
  {
    SampleJoin3();
    JoinCons("cat", ["sat.", "The", "dog", "ran!"]);
  }

  lemma SampleJoin3()
    ensures Join(["sat.", "The", "dog", "ran!"]) == "sat. The dog ran!"
  {
    SampleJoin4();
    JoinCons("sat.", ["The", "dog", "ran!"]);
  }

  lemma SampleJoin4()
    ensures Join(["The", "dog", "ran!"]) == "The dog ran!"
  {
    JoinCons("ran!", []);
    JoinCons("dog", ["ran!"]);
    JoinCons("The", ["dog", "ran!"]);
  }

  lemma SampleUntrimmed()
    ensures forall i :: 0 <= i < |SampleWords| ==> SampleWords[i] != [] && !AnyTrimmable(SampleWords[i])
  {
    forall i | 0 <= i < |SampleWords| ensures !AnyTrimmable(SampleWords[i]) {
      forall j | 0 <= j < |SampleWords[i]| ensures !IsTrimmable(SampleWords[i][j]) { }
    }
  }

  /** The keys of the sample table: the sentinel and the three words that do not end
      a sentence; "sat." and "ran!" are not keys. */
  lemma SampleKeys()
    ensures T6.words.Keys == {Sentinel, "The", "cat", "dog"}
    ensures "sat." !in T6.words && "ran!" !in T6.words
  {
    assert "sat." != Sentinel && "sat." != "The" && "sat." != "cat" && "sat." != "dog";
    assert "ran!" != Sentinel && "ran!" != "The" && "ran!" != "cat" && "ran!" != "dog";
  }

  /** A new generator fed the line "The cat sat. The dog ran!" holds exactly the
      table of TwoSentences. */
  method SampleLine() returns (words: map<string, seq<string>>)
    ensures words == T6.words && "sat." !in words
  {
    var g := new Markov();
    SampleLineWords();
    TwoSentences();
    SampleKeys();
    g.AddLine("The cat sat. The dog ran!");
    words := g.words;
  }

  /** One addWord on a table whose cursor routes to key k. */
  lemma Step(t: Table, word: string, k: string)
    requires Sentinel in t.words && Slot(t.prevWord) == k
    ensures Observe(t, word) == Table(t.words[k := Bucket(t.words, k) + [word]], word)
  {
    ObserveWords(t, word);
  }

  /** A line of spaces and tabs gives the single empty token, and the empty word
      counts as sentence-ending. */
  lemma BlankLine()
    ensures LineWords(" \t ") == [""] && IsSentenceEnd("")
  {
  }

  /** A run of several \s characters, a tab among them, is one separator. */
  lemma TabbedLine()
    ensures LineWords("a \t b") == ["a", "b"]
  {
    var line := "a \t b";
    assert !IsTrimmable(line[0]);
    TrimKeeps(line);
    assert Squeeze(line) == "a b";
    JoinCons("a", ["b"]);
    JoinCons("b", []);
    TrimSplitUnique(line, ["a", "b"]);
  }

  /** A zero-length line gives no tokens at all. */
  lemma EmptyLine()
    ensures LineWords("") == []
  {
  }

  /** The line "Hi." is the one word "Hi.", which goes to the sentinel's list. */
  lemma HiTable()
    ensures LineWords("Hi.") == ["Hi."]
    ensures IngestAll(Initial, ["Hi."]) == Table(map[Sentinel := ["Hi."]], "Hi.")
  {
    assert !AnyTrimmable("Hi.") by {
      forall i | 0 <= i < 3 ensures !IsTrimmable("Hi."[i]) { }
    }
    TrimSplitJoin(["Hi."]);
    assert ["Hi."][1..] == [];
    assert IsSentenceEnd(Sentinel);
    Step(Initial, "Hi.", Sentinel);
    assert Bucket(Initial.words, Sentinel) + ["Hi."] == ["Hi."];
  }

  /** In the table of the corpus "Hi.", every linked path starts with "Hi.", and the
      only walk is that one word. */
  lemma HiWalks(m: map<string, seq<string>>, path: seq<string>)
    requires m == map[Sentinel := ["Hi."]] && Linked(m, path)
    ensures path != [] ==> path[0] == "Hi."
    ensures IsWalk(m, path) ==> path == ["Hi."]
  {
    if path != [] {
      assert Before(path, 0) == Sentinel;
      assert path[0] in ["Hi."];
    }
    if IsWalk(m, path) {
      assert IsSentenceEnd("Hi.");
      OneWordWalks(m, path);
    }
  }

  /** A generator fed the single line "Hi." can only produce the sentence "Hi.",
      whatever the random choices and however small the step bound. */
  method OneSentenceCorpus(maxSteps: nat) returns (r: Result<string, Fault>)
    ensures r == Success("Hi.")
  {
    var g := new Markov();
    HiTable();
    g.AddLine("Hi.");
    ghost var path;
    r, path := g.GetSentence(maxSteps);
    HiWalks(g.words, path);
  }
}
