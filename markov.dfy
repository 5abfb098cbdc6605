/**
 * The Markov text generator: a table from each word to the words seen right after
 * it, filled word by word from lines of text, and walked at random to produce a
 * sentence. The fields are updated in place as in the original class; the ghost
 * field `observed` is the sequence of words fed so far, and Valid() ties the fields
 * to the table MarkovSpec.IngestAll computes from it.
 */
module Markov {
  import opened Wrappers
  import opened JavaString
  import opened MarkovSpec
  import opened SeqFacts

  /** The exceptions getSentence can raise. NullPointer: the word has no list
      (words.get gave null). IllegalArgument: the word's list is empty
      (Random.nextInt(0)). StepLimitExceeded: the walk ran out of the step bound
      that stands in for the unbounded loop. */
  datatype Fault = NullPointer(word: string) | IllegalArgument(word: string) | StepLimitExceeded

  /** How a walk got stuck with fault f: f names the word the walk stood on, and
      that word has no list (NullPointer) or an empty one (IllegalArgument). */
  ghost predicate Stuck(m: map<string, seq<string>>, path: seq<string>, f: Fault)
    requires !f.StepLimitExceeded?
  {
    var w := Cursor(path);
    && f.word == w
    && (f.NullPointer? <==> w !in m)
    && (f.IllegalArgument? <==> w in m && m[w] == [])
  }

  /** In a closed table whose sentinel list is non-empty, a walk that has not reached
      a sentence-ending word can always take another step, so it never gets stuck. */
  lemma NeverStuck(m: map<string, seq<string>>, path: seq<string>, f: Fault)
    requires Closed(m) && Sentinel in m && m[Sentinel] != []
    requires Linked(m, path) && NoneEnds(path, |path|) && !f.StepLimitExceeded?
    ensures !Stuck(m, path, f)
  {
    if path != [] {
      ClosedContinues(m, path);
    }
  }

  class Markov {
    var words: map<string, seq<string>>
    var prevWord: string
    ghost var observed: seq<string>

    ghost function State(): Table
      reads this
    {
      Table(words, prevWord)
    }

    /** The fields are the table of the words fed so far. The first conjunct follows
        from the second; stating it keeps the proof of AddWord small. */
    ghost predicate Valid()
      reads this
    {
      Sentinel in words && State() == IngestAll(Initial, observed)
    }

    /** What a valid generator's table keeps true: the table invariant, the cursor,
        one entry per word fed so far, and each list in closed form. */
    lemma ValidFacts()
      requires Valid()
      ensures Inv(State())
      ensures prevWord == if observed == [] then Sentinel else observed[|observed| - 1]
      ensures TotalLength(words) == |observed|
      ensures forall k :: Bucket(words, k) == Followers(Sentinel, observed, k)
    {
      Ingested(observed);
      forall k ensures Bucket(words, k) == Followers(Sentinel, observed, k) {
        IngestedBuckets(observed, k);
      }
    }

    /** A generator fed at least one word, the last of them sentence-ending, has a
        closed table with a non-empty sentinel list; by NeverStuck, GetSentence on it
        can then fail only by reaching its step limit. */
    lemma Settled()
      requires Valid() && observed != [] && IsSentenceEnd(observed[|observed| - 1])
      ensures Closed(words) && Sentinel in words && words[Sentinel] != []
    {
      IngestedClosed(observed);
      IngestedBuckets(observed, Sentinel);
      SentinelAndEmptyEnd();
      PositionFollower(Sentinel, observed, Sentinel, 0);
    }

    /** A table whose only key is the sentinel, with an empty list, and the sentinel
        as the previous word. */
    constructor ()
      ensures Valid() && observed == []
      ensures words == map[Sentinel := []] && prevWord == Sentinel
    {
      words := map[Sentinel := []];
      prevWord := Sentinel;
      observed := [];
    }

    /** Records word as a successor of the previous word, or of the sentinel when the
        previous word ended a sentence, and makes it the previous word. */
    method AddWord(word: string)
      requires Valid()
      modifies this
      ensures Valid() && observed == old(observed) + [word]
      ensures prevWord == word
      ensures EndsWithPunctuation(old(prevWord)) ==>
                words == old(words)[Sentinel := old(words)[Sentinel] + [word]]
      ensures !EndsWithPunctuation(old(prevWord)) ==>
                words == old(words)[old(prevWord) := Bucket(old(words), old(prevWord)) + [word]]
      ensures State() == Observe(old(State()), word)
    {
      ghost var t := State();
      ghost var slot := Slot(prevWord);
      ghost var list := Bucket(words, slot) + [word];
      if EndsWithPunctuation(prevWord) {
        assert slot == Sentinel && words[Sentinel] + [word] == list;
        words := words[Sentinel := words[Sentinel] + [word]];
      } else {
        if prevWord !in words {
          words := words[prevWord := []];
        }
        assert slot == prevWord && words[prevWord] + [word] == list;
        words := words[prevWord := words[prevWord] + [word]];
        if prevWord !in t.words {
          UpdateTwice(t.words, prevWord, [], list);
        }
      }
      prevWord := word;
      observed := observed + [word];
      ObserveWords(t, word);
      assert State() == Observe(t, word);
      IngestAllSnoc(Initial, old(observed), word);
    }

    /** Feeds the tokens of line.trim().split("\\s+") to AddWord, left to right;
        a zero-length line changes nothing. */
    method AddLine(line: string)
      requires Valid()
      modifies this
      ensures Valid() && observed == old(observed) + LineWords(line)
      ensures State() == IngestAll(old(State()), LineWords(line))
    {
      if |line| > 0 {
        var wordsInLine := TrimSplit(line);
        for i := 0 to |wordsInLine|
          invariant Valid()
          invariant observed == old(observed) + wordsInLine[..i]
        {
          AddWord(wordsInLine[i]);
          TakeSnoc(wordsInLine, i);
          AppendAssoc(old(observed), wordsInLine[..i], [wordsInLine[i]]);
        }
        TakeAll(wordsInLine);
      }
      IngestAllAppend(Initial, old(observed), LineWords(line));
    }

    /** randomWord(word): some entry of word's list, chosen by the caller's random
        source; the faults Java raises where the list is missing or empty. */
    method RandomWord(word: string) returns (r: Result<string, Fault>)
      ensures word !in words ==> r == Failure(NullPointer(word))
      ensures word in words && words[word] == [] ==> r == Failure(IllegalArgument(word))
      ensures word in words && words[word] != [] ==> r.Success? && r.value in words[word]
    {
      if word !in words {
        return Failure(NullPointer(word));
      }
      var nextWords := words[word];
      if |nextWords| == 0 {
        return Failure(IllegalArgument(word));
      }
      var indexOfRandom :| 0 <= indexOfRandom < |nextWords|;
      return Success(nextWords[indexOfRandom]);
    }

    /** getSentence(): a random walk from the sentinel that stops at the first
        sentence-ending word, returned as its words joined by single spaces. The walk
        takes at most maxSteps steps after its first word. The ghost result path is
        the sequence of words chosen. */
    method GetSentence(maxSteps: nat) returns (r: Result<string, Fault>, ghost path: seq<string>)
      ensures r.Success? ==> IsWalk(words, path) && r.value == Join(path) && |path| <= maxSteps + 1
      ensures r.Failure? ==> Linked(words, path) && NoneEnds(path, |path|)
      ensures r == Failure(StepLimitExceeded) ==> |path| == maxSteps + 1
      ensures r.Failure? && r.error != StepLimitExceeded ==> |path| <= maxSteps && Stuck(words, path, r.error)
      ensures Sentinel !in words ==> r == Failure(NullPointer(Sentinel))
      ensures Sentinel in words && words[Sentinel] == [] ==> r == Failure(IllegalArgument(Sentinel))
    {
      path := [];
      var first := RandomWord(Sentinel);
      if first.Failure? {
        return first, path;
      }
      var currentWord := first.value;
      var sentence := currentWord;
      path := [currentWord];
      var steps := 0;
      while !EndsWithPunctuation(currentWord)
        invariant Sentinel in words && words[Sentinel] != []
        invariant steps <= maxSteps && |path| == steps + 1
        invariant currentWord == path[|path| - 1]
        invariant sentence == Join(path)
        invariant Linked(words, path)
        invariant NoneEnds(path, |path| - 1)
        decreases maxSteps - steps
      {
        if steps == maxSteps {
          return Failure(StepLimitExceeded), path;
        }
        var next := RandomWord(currentWord);
        if next.Failure? {
          return next, path;
        }
        JoinSnoc(path, next.value);
        LinkedSnoc(words, path, next.value);
        NoneEndsSnoc(path, next.value);
        currentWord := next.value;
        sentence := sentence + " " + currentWord;
        path := path + [currentWord];
        steps := steps + 1;
      }
      return Success(sentence), path;
    }
  }
}
