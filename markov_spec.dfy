/**
 * The transition table of the Markov text generator as values: the table, the
 * effect of ingesting one word, of a sequence of words and of a line, the
 * punctuation test, and what a generated sentence is. The class in module
 * Markov is proved against these definitions.
 */
module MarkovSpec {
  import opened Wrappers
  import opened JavaString

  /** The key that stands for "start of a sentence" (ENDS_IN_PUNCTUATION). */
  const Sentinel: string := "__$"

  /** The characters that end a sentence (PUNCTUATION_MARKS). */
  const PunctuationMarks: string := ".!?$"

  /** A sentence-ending word: one that is empty or whose last character is one of
      the punctuation marks. */
  predicate IsSentenceEnd(text: string) {
    |text| == 0 || text[|text| - 1] in PunctuationMarks
  }

  /** endsWithPunctuation(text), step by step: take the substring from the last
      index, keep "" where that throws (the empty string), and ask whether
      PUNCTUATION_MARKS contains it. Because every string contains "", the empty
      string counts as sentence-ending. */
  function EndsWithPunctuation(text: string): (b: bool)
    ensures b == IsSentenceEnd(text)
  {
    var endOfString := match Substring(text, |text| - 1)
      case Some(e) => e
      case None => "";
    if |text| == 0 then
      ContainsEmpty(PunctuationMarks);
      Contains(PunctuationMarks, endOfString)
    else
      assert endOfString == [text[|text| - 1]];
      ContainsChar(PunctuationMarks, text[|text| - 1]);
      Contains(PunctuationMarks, endOfString)
  }

  /** The table: for every key, the words seen right after it, in order and with
      repetitions; and the previous word, the cursor of ingestion. */
  datatype Table = Table(words: map<string, seq<string>>, prevWord: string)

  /** The table a new generator starts with. */
  const Initial: Table := Table(map[Sentinel := []], Sentinel)

  /** The list stored under k, or the empty list where k is not a key. */
  function Bucket(m: map<string, seq<string>>, k: string): seq<string> {
    if k in m then m[k] else []
  }

  /** The key under which a word that follows prev is recorded. */
  function Slot(prev: string): string {
    if IsSentenceEnd(prev) then Sentinel else prev
  }

  /** addWord(word): after a sentence-ending word it goes to the sentinel's list;
      otherwise to the previous word's list, created first if absent; then the
      previous word becomes word. */
  function Observe(t: Table, word: string): (r: Table)
    requires Sentinel in t.words
    ensures Sentinel in r.words && r.prevWord == word
  {
    if IsSentenceEnd(t.prevWord) then
      Table(t.words[Sentinel := t.words[Sentinel] + [word]], word)
    else
      var m := if t.prevWord !in t.words then t.words[t.prevWord := []] else t.words;
      Table(m[t.prevWord := m[t.prevWord] + [word]], word)
  }

  /** Observe in terms of Bucket: the list under the routing key gains word. */
  lemma ObserveWords(t: Table, word: string)
    requires Sentinel in t.words
    ensures Observe(t, word).words ==
              t.words[Slot(t.prevWord) := Bucket(t.words, Slot(t.prevWord)) + [word]]
  {
  }

  /** addWord called on each of ws in turn. */
  function IngestAll(t: Table, ws: seq<string>): (r: Table)
    requires Sentinel in t.words
    ensures Sentinel in r.words
    decreases |ws|
  {
    if ws == [] then t else IngestAll(Observe(t, ws[0]), ws[1..])
  }

  /** The words addLine(line) hands to addWord: none for a zero-length line,
      otherwise the tokens of line.trim().split("\\s+"). */
  function LineWords(line: string): (ws: seq<string>)
    ensures ws == [] <==> |line| == 0
    ensures ws == [""] <==> |line| > 0 && AllTrimmable(line)
  {
    if |line| > 0 then TrimSplit(line) else []
  }

  // ---------------------------------------------------------------------------
  // What ingestion keeps true

  /** A successor that generation can go on from: it ends the sentence, it is a key,
      or it is the cursor, whose list the next addWord will create. */
  ghost predicate Continues(t: Table, x: string) {
    IsSentenceEnd(x) || x in t.words || x == t.prevWord
  }

  /** The table invariant. */
  ghost predicate Inv(t: Table) {
    && Sentinel in t.words
    && (forall k :: k in t.words && k != Sentinel ==> t.words[k] != [] && !IsSentenceEnd(k))
    && (forall k, x :: k in t.words && x in t.words[k] ==> Continues(t, x))
  }

  /** Every successor either ends the sentence or is a key with a non-empty list,
      so that a walk through the table never looks up a missing or empty list. */
  ghost predicate Closed(m: map<string, seq<string>>) {
    forall k, x :: k in m && x in m[k] ==> IsSentenceEnd(x) || (x in m && m[x] != [])
  }

  lemma InitialInv()
    ensures Inv(Initial)
  {
  }

  /** The sentinel is itself sentence-ending, and so is the empty string. */
  lemma SentinelAndEmptyEnd()
    ensures EndsWithPunctuation(Sentinel)
    ensures EndsWithPunctuation("")
  {
  }

  /** Observe appends word to the list of the previous word's slot and to no other list;
      the only key it may add is that slot. */
  lemma ObserveBucket(t: Table, word: string)
    requires Sentinel in t.words
    ensures forall k :: Bucket(Observe(t, word).words, k)
                        == Bucket(t.words, k) + (if k == Slot(t.prevWord) then [word] else [])
    ensures Observe(t, word).words.Keys == t.words.Keys + {Slot(t.prevWord)}
  {
    forall k ensures Bucket(Observe(t, word).words, k)
                     == Bucket(t.words, k) + (if k == Slot(t.prevWord) then [word] else [])
    {
      ObserveBucketAt(t, word, k);
    }
  }

  lemma ObserveBucketAt(t: Table, word: string, k: string)
    requires Sentinel in t.words
    ensures Bucket(Observe(t, word).words, k)
            == Bucket(t.words, k) + (if k == Slot(t.prevWord) then [word] else [])
  {
    if k != Slot(t.prevWord) {
      assert Bucket(t.words, k) + [] == Bucket(t.words, k);
    }
  }

  lemma ObserveInv(t: Table, word: string)
    requires Inv(t)
    ensures Inv(Observe(t, word))
  {
    var r := Observe(t, word);
    forall k, x | k in r.words && x in r.words[k] ensures Continues(r, x) {
      ObserveBucket(t, word);
      assert Bucket(r.words, k) == r.words[k];
      if x != word {
        assert x in Bucket(t.words, k);
        assert Continues(t, x);
        if x == t.prevWord && !IsSentenceEnd(x) {
          assert x == Slot(t.prevWord);
        }
      }
    }
  }

  /** Ingesting a + b is ingesting a, then b. */
  lemma {:induction false} IngestAllAppend(t: Table, a: seq<string>, b: seq<string>)
    requires Sentinel in t.words
    ensures IngestAll(t, a + b) == IngestAll(IngestAll(t, a), b)
    decreases |a|
  {
    if a != [] {
      assert (a + b)[0] == a[0];
      assert (a + b)[1..] == a[1..] + b;
      IngestAllAppend(Observe(t, a[0]), a[1..], b);
    } else {
      assert a + b == b;
    }
  }

  lemma IngestAllSnoc(t: Table, ws: seq<string>, w: string)
    requires Sentinel in t.words
    ensures IngestAll(t, ws + [w]) == Observe(IngestAll(t, ws), w)
  {
    IngestAllAppend(t, ws, [w]);
    assert [w][1..] == [];
  }

  lemma {:induction false} IngestAllInv(t: Table, ws: seq<string>)
    requires Inv(t)
    ensures Inv(IngestAll(t, ws))
    decreases |ws|
  {
    if ws != [] {
      ObserveInv(t, ws[0]);
      IngestAllInv(Observe(t, ws[0]), ws[1..]);
    }
  }

  /** After ingestion the cursor is the last word ingested. */
  lemma {:induction false} IngestAllPrevWord(t: Table, ws: seq<string>)
    requires Sentinel in t.words
    ensures IngestAll(t, ws).prevWord == if ws == [] then t.prevWord else ws[|ws| - 1]
    decreases |ws|
  {
    if |ws| > 1 {
      IngestAllPrevWord(Observe(t, ws[0]), ws[1..]);
    }
  }

  /** When the cursor ends a sentence, the invariant makes the table closed. */
  lemma InvClosed(t: Table)
    requires Inv(t) && IsSentenceEnd(t.prevWord)
    ensures Closed(t.words)
  {
    SentinelAndEmptyEnd();
    forall k, x | k in t.words && x in t.words[k]
      ensures IsSentenceEnd(x) || (x in t.words && t.words[x] != [])
    {
      if !IsSentenceEnd(x) {
        assert Continues(t, x);
        assert x != t.prevWord;
        assert x in t.words && x != Sentinel;
      }
    }
  }

  // ---------------------------------------------------------------------------
  // The table in closed form

  /** The word before position j, where p is the cursor before ws[0]. */
  function PrevAt(p: string, ws: seq<string>, j: nat): string
    requires j < |ws|
  {
    if j == 0 then p else ws[j - 1]
  }

  /** The words of ws recorded under key k, in order, when p is the cursor before
      ws[0]: ws[j] for every j whose preceding word has slot k. */
  function Followers(p: string, ws: seq<string>, k: string): (fs: seq<string>)
    ensures |fs| <= |ws|
    decreases |ws|
  {
    if ws == [] then []
    else (if Slot(p) == k then [ws[0]] else []) + Followers(ws[0], ws[1..], k)
  }

  /** A word is among the followers of k exactly when it occurs at a position whose
      preceding word has slot k. */
  lemma FollowersMember(p: string, ws: seq<string>, k: string, x: string)
    ensures x in Followers(p, ws, k)
            <==> exists j :: 0 <= j < |ws| && Slot(PrevAt(p, ws, j)) == k && ws[j] == x
  {
    if x in Followers(p, ws, k) {
      var j := FollowerPosition(p, ws, k, x);
    }
    if exists j :: 0 <= j < |ws| && Slot(PrevAt(p, ws, j)) == k && ws[j] == x {
      var j :| 0 <= j < |ws| && Slot(PrevAt(p, ws, j)) == k && ws[j] == x;
      PositionFollower(p, ws, k, j);
    }
  }

  lemma {:induction false} FollowerPosition(p: string, ws: seq<string>, k: string, x: string) returns (j: nat)
    requires x in Followers(p, ws, k)
    ensures j < |ws| && Slot(PrevAt(p, ws, j)) == k && ws[j] == x
    decreases |ws|
  {
    if Slot(p) == k && ws[0] == x {
      j := 0;
    } else {
      var i := FollowerPosition(ws[0], ws[1..], k, x);
      assert PrevAt(p, ws, i + 1) == PrevAt(ws[0], ws[1..], i);
      j := i + 1;
    }
  }

  lemma {:induction false} PositionFollower(p: string, ws: seq<string>, k: string, j: nat)
    requires j < |ws| && Slot(PrevAt(p, ws, j)) == k
    ensures ws[j] in Followers(p, ws, k)
    decreases |ws|
  {
    if j > 0 {
      assert PrevAt(ws[0], ws[1..], j - 1) == PrevAt(p, ws, j);
      PositionFollower(ws[0], ws[1..], k, j - 1);
    }
  }

  /** Ingesting ws appends to each key's list exactly the followers of that key. */
  lemma {:induction false} IngestAllBucket(t: Table, ws: seq<string>, k: string)
    requires Sentinel in t.words
    ensures Bucket(IngestAll(t, ws).words, k) == Bucket(t.words, k) + Followers(t.prevWord, ws, k)
    decreases |ws|
  {
    if ws == [] {
      assert Bucket(t.words, k) + [] == Bucket(t.words, k);
    } else {
      var t' := Observe(t, ws[0]);
      var head := if k == Slot(t.prevWord) then [ws[0]] else [];
      var rest := Followers(ws[0], ws[1..], k);
      ObserveBucketAt(t, ws[0], k);
      IngestAllBucket(t', ws[1..], k);
      assert IngestAll(t, ws) == IngestAll(t', ws[1..]);
      assert Followers(t.prevWord, ws, k) == head + rest;
      assert (Bucket(t.words, k) + head) + rest == Bucket(t.words, k) + (head + rest);
    }
  }

  /** The keys after ingesting ws: the old ones and every slot some word was recorded under. */
  lemma {:induction false} IngestAllKeys(t: Table, ws: seq<string>, k: string)
    requires Sentinel in t.words
    ensures k in IngestAll(t, ws).words <==> k in t.words || Followers(t.prevWord, ws, k) != []
    decreases |ws|
  {
    if ws != [] {
      var t' := Observe(t, ws[0]);
      ObserveBucket(t, ws[0]);
      IngestAllKeys(t', ws[1..], k);
    }
  }

  /** The table only grows: every key stays, and every list keeps its old entries as
      a prefix, in the same order. */
  lemma IngestAllGrows(t: Table, ws: seq<string>)
    requires Sentinel in t.words
    ensures forall k :: k in t.words ==> k in IngestAll(t, ws).words && t.words[k] <= IngestAll(t, ws).words[k]
  {
    forall k | k in t.words
      ensures k in IngestAll(t, ws).words && t.words[k] <= IngestAll(t, ws).words[k]
    {
      IngestAllBucket(t, ws, k);
      IngestAllKeys(t, ws, k);
    }
  }

  // ---------------------------------------------------------------------------
  // Total number of entries

  /** The sum of the lengths of the lists stored under keys. */
  ghost function SumLengths(m: map<string, seq<string>>, keys: set<string>): nat
    requires keys <= m.Keys
    decreases keys
  {
    if keys == {} then 0
    else var k :| k in keys; |m[k]| + SumLengths(m, keys - {k})
  }

  /** The number of entries in all the lists of the table. */
  ghost function TotalLength(m: map<string, seq<string>>): nat {
    SumLengths(m, m.Keys)
  }

  /** The sum does not depend on which key is taken out first. */
  lemma {:induction false} SumLengthsRemove(m: map<string, seq<string>>, keys: set<string>, k: string)
    requires keys <= m.Keys && k in keys
    ensures SumLengths(m, keys) == |m[k]| + SumLengths(m, keys - {k})
    decreases keys
  {
    var j :| j in keys && SumLengths(m, keys) == |m[j]| + SumLengths(m, keys - {j});
    if j != k {
      SumLengthsRemove(m, keys - {j}, k);
      SumLengthsRemove(m, keys - {k}, j);
      assert keys - {j} - {k} == keys - {k} - {j};
    }
  }

  /** Two maps that agree on keys have the same sum over keys. */
  lemma {:induction false} SumLengthsAgree(m: map<string, seq<string>>, n: map<string, seq<string>>, keys: set<string>)
    requires keys <= m.Keys && keys <= n.Keys
    requires forall k :: k in keys ==> m[k] == n[k]
    ensures SumLengths(m, keys) == SumLengths(n, keys)
    decreases keys
  {
    if keys != {} {
      var k :| k in keys && SumLengths(m, keys) == |m[k]| + SumLengths(m, keys - {k});
      SumLengthsRemove(n, keys, k);
      SumLengthsAgree(m, n, keys - {k});
    }
  }

  /** Appending one word to one list adds one entry to the total. */
  lemma TotalLengthAppend(m: map<string, seq<string>>, k: string, w: string)
    ensures TotalLength(m[k := Bucket(m, k) + [w]]) == TotalLength(m) + 1
  {
    var n := m[k := Bucket(m, k) + [w]];
    SumLengthsRemove(n, n.Keys, k);
    SumLengthsAgree(m, n, m.Keys - {k});
    assert n.Keys - {k} == m.Keys - {k};
    if k in m {
      SumLengthsRemove(m, m.Keys, k);
    } else {
      assert m.Keys - {k} == m.Keys;
    }
  }

  lemma ObserveTotal(t: Table, word: string)
    requires Sentinel in t.words
    ensures TotalLength(Observe(t, word).words) == TotalLength(t.words) + 1
  {
    var k := Slot(t.prevWord);
    assert Observe(t, word).words == t.words[k := Bucket(t.words, k) + [word]];
    TotalLengthAppend(t.words, k, word);
  }

  /** Ingesting n words adds exactly n entries. */
  lemma {:induction false} IngestAllTotal(t: Table, ws: seq<string>)
    requires Sentinel in t.words
    ensures TotalLength(IngestAll(t, ws).words) == TotalLength(t.words) + |ws|
    decreases |ws|
  {
    if ws != [] {
      ObserveTotal(t, ws[0]);
      IngestAllTotal(Observe(t, ws[0]), ws[1..]);
    }
  }

  /** What holds of the table of a generator that has been fed ws since construction:
      the invariant, the cursor, and one entry per word. */
  lemma Ingested(ws: seq<string>)
    ensures Inv(IngestAll(Initial, ws))
    ensures IngestAll(Initial, ws).prevWord == if ws == [] then Sentinel else ws[|ws| - 1]
    ensures TotalLength(IngestAll(Initial, ws).words) == |ws|
  {
    InitialInv();
    IngestAllInv(Initial, ws);
    IngestAllPrevWord(Initial, ws);
    IngestAllTotal(Initial, ws);
    assert Initial.words.Keys == {Sentinel};
    SumLengthsRemove(Initial.words, {Sentinel}, Sentinel);
  }

  /** Every list of the table of a generator fed ws, in closed form: the list under
      k holds the words of ws whose preceding word has slot k, in their order. */
  lemma IngestedBuckets(ws: seq<string>, k: string)
    ensures Bucket(IngestAll(Initial, ws).words, k) == Followers(Sentinel, ws, k)
  {
    IngestAllBucket(Initial, ws, k);
  }

  /** A corpus whose last word ends a sentence (or an empty one) gives a closed table. */
  lemma IngestedClosed(ws: seq<string>)
    requires ws == [] || IsSentenceEnd(ws[|ws| - 1])
    ensures Closed(IngestAll(Initial, ws).words)
  {
    Ingested(ws);
    InvClosed(IngestAll(Initial, ws));
  }

  // ---------------------------------------------------------------------------
  // Generated sentences

  /** The word a walk stands on before its i-th step: the sentinel, then each word. */
  function Before(path: seq<string>, i: nat): string
    requires i < |path|
  {
    if i == 0 then Sentinel else path[i - 1]
  }

  /** Each word of path is an entry of the list of the word before it, the first one
      of the sentinel's list. */
  ghost predicate Linked(m: map<string, seq<string>>, path: seq<string>) {
    forall i :: 0 <= i < |path| ==> Before(path, i) in m && path[i] in m[Before(path, i)]
  }

  /** None of the first n words of path ends a sentence. */
  ghost predicate NoneEnds(path: seq<string>, n: nat)
    requires n <= |path|
  {
    forall i :: 0 <= i < n ==> !IsSentenceEnd(path[i])
  }

  /** A sentence getSentence can produce: a linked walk whose last word ends with
      punctuation and whose earlier words do not. */
  ghost predicate IsWalk(m: map<string, seq<string>>, path: seq<string>) {
    && |path| > 0
    && Linked(m, path)
    && IsSentenceEnd(path[|path| - 1])
    && NoneEnds(path, |path| - 1)
  }

  /** The word a walk stands on: its last word, or the sentinel before the first step. */
  function Cursor(path: seq<string>): string {
    if path == [] then Sentinel else path[|path| - 1]
  }

  /** A linked walk extended by an entry of the list of the word it stands on is
      still linked. */
  lemma LinkedSnoc(m: map<string, seq<string>>, path: seq<string>, x: string)
    requires Linked(m, path) && Cursor(path) in m && x in m[Cursor(path)]
    ensures Linked(m, path + [x])
  {
    var p := path + [x];
    forall i | 0 <= i < |p| ensures Before(p, i) in m && p[i] in m[Before(p, i)] {
      if i < |path| {
        assert p[i] == path[i];
        assert Before(p, i) == Before(path, i);
      } else {
        assert Before(p, i) == Cursor(path);
      }
    }
  }

  lemma NoneEndsSnoc(path: seq<string>, x: string)
    requires |path| > 0 && NoneEnds(path, |path| - 1) && !IsSentenceEnd(path[|path| - 1])
    ensures NoneEnds(path + [x], |path|)
  {
    forall i | 0 <= i < |path| ensures !IsSentenceEnd((path + [x])[i]) {
      assert (path + [x])[i] == path[i];
    }
  }

  /** In a closed table, a linked walk that has not yet ended stands on a word with a
      non-empty list, so the next step can always be taken. */
  lemma ClosedContinues(m: map<string, seq<string>>, path: seq<string>)
    requires Closed(m) && Linked(m, path) && path != [] && !IsSentenceEnd(path[|path| - 1])
    ensures path[|path| - 1] in m && m[path[|path| - 1]] != []
  {
    var i := |path| - 1;
    assert Before(path, i) in m && path[i] in m[Before(path, i)];
  }

  /** Where a sentinel list holds only sentence-ending words, every walk is one word long. */
  lemma {:induction false} OneWordWalks(m: map<string, seq<string>>, path: seq<string>)
    requires Sentinel in m && forall x :: x in m[Sentinel] ==> IsSentenceEnd(x)
    requires IsWalk(m, path)
    ensures |path| == 1 && path[0] in m[Sentinel]
  {
    assert Before(path, 0) == Sentinel;
  }
}
