/**
 * The few java.lang.String operations the Markov generator relies on:
 * substring(begin), contains, trim() followed by split("\\s+"), and the
 * space-separated concatenation built by repeated `+=`.
 * Strings are sequences of characters.
 */
module JavaString {
  import opened Wrappers
  import opened SeqFacts

  /** What String.trim() strips: every character up to U+0020. */
  predicate IsTrimmable(c: char) {
    c as int <= 0x20
  }

  /** The regular-expression class \s: space, tab, newline, U+000B, form feed, carriage return. */
  predicate IsRegexSpace(c: char) {
    c == ' ' || 0x09 <= c as int <= 0x0D
  }

  ghost predicate AllTrimmable(s: string) {
    forall i :: 0 <= i < |s| ==> IsTrimmable(s[i])
  }

  /** s holds a character String.trim() would strip. */
  ghost predicate AnyTrimmable(s: string) {
    exists i :: 0 <= i < |s| && IsTrimmable(s[i])
  }

  ghost predicate NoRegexSpace(s: string) {
    forall i :: 0 <= i < |s| ==> !IsRegexSpace(s[i])
  }

  /** s.substring(begin): the suffix from index begin, or None where Java throws
      StringIndexOutOfBoundsException. */
  function Substring(s: string, begin: int): (r: Option<string>)
    ensures r.Some? <==> 0 <= begin <= |s|
    ensures r.Some? ==> s == s[..begin] + r.value
  {
    if 0 <= begin <= |s| then Some(s[begin..]) else None
  }

  /** hay.contains(needle): needle occurs at some index of hay. */
  predicate Contains(hay: string, needle: string) {
    exists i :: 0 <= i <= |hay| - |needle| && OccursAt(hay, needle, i)
  }

  /** needle occupies hay from index i on. */
  predicate OccursAt(hay: string, needle: string, i: int)
    requires 0 <= i <= |hay| - |needle|
  {
    hay[i..i + |needle|] == needle
  }

  /** The empty string is contained in every string. */
  lemma ContainsEmpty(hay: string)
    ensures Contains(hay, "")
  {
    assert OccursAt(hay, "", 0);
  }

  /** A one-character string is contained exactly when that character occurs. */
  lemma ContainsChar(hay: string, c: char)
    ensures Contains(hay, [c]) <==> c in hay
  {
    if c in hay {
      var i :| 0 <= i < |hay| && hay[i] == c;
      assert hay[i..i + 1] == [c];
      assert OccursAt(hay, [c], i);
    }
    if Contains(hay, [c]) {
      var i :| 0 <= i <= |hay| - 1 && OccursAt(hay, [c], i);
      assert hay[i] == hay[i..i + 1][0];
    }
  }

  /** The index of the first character at or after i that String.trim() keeps,
      or |s| if there is none. */
  function TrimBegin(s: string, i: nat): (b: nat)
    requires i <= |s|
    ensures i <= b <= |s|
    ensures forall j :: i <= j < b ==> IsTrimmable(s[j])
    ensures b < |s| ==> !IsTrimmable(s[b])
    decreases |s| - i
  {
    if i < |s| && IsTrimmable(s[i]) then TrimBegin(s, i + 1) else i
  }

  /** The index just past the last character before e that String.trim() keeps,
      scanning down no further than b. */
  function TrimEnd(s: string, b: nat, e: nat): (r: nat)
    requires b <= e <= |s|
    ensures b <= r <= e
    ensures forall j :: r <= j < e ==> IsTrimmable(s[j])
    ensures b < r ==> !IsTrimmable(s[r - 1])
    decreases e
  {
    if b < e && IsTrimmable(s[e - 1]) then TrimEnd(s, b, e - 1) else e
  }

  /** s.trim(): the part of s between its leading and trailing runs of trimmable
      characters. */
  function Trim(s: string): (r: string)
    ensures r == [] <==> AllTrimmable(s)
    ensures r != [] ==> !IsTrimmable(r[0]) && !IsTrimmable(r[|r| - 1])
    ensures var b := TrimBegin(s, 0); var e := TrimEnd(s, b, |s|);
      && r == s[b..e]
      && (forall j :: 0 <= j < b ==> IsTrimmable(s[j]))
      && (forall j :: e <= j < |s| ==> IsTrimmable(s[j]))
  {
    var b := TrimBegin(s, 0);
    var e := TrimEnd(s, b, |s|);
    assert b == e ==> AllTrimmable(s) by {
      if b == e {
        forall j | 0 <= j < |s| ensures IsTrimmable(s[j]) {
          if j < b { } else { }
        }
      }
    }
    assert b < e ==> !IsTrimmable(s[b]);
    s[b..e]
  }

  /** The index of the first \s character at or after i, or |s| if there is none. */
  function RunEnd(s: string, i: nat): (n: nat)
    requires i <= |s|
    ensures i <= n <= |s|
    ensures forall j :: i <= j < n ==> !IsRegexSpace(s[j])
    ensures n < |s| ==> IsRegexSpace(s[n])
    decreases |s| - i
  {
    if i == |s| || IsRegexSpace(s[i]) then i else RunEnd(s, i + 1)
  }

  /** The maximal runs of characters outside \s, left to right. */
  function Runs(s: string): (ws: seq<string>)
    ensures forall i :: 0 <= i < |ws| ==> ws[i] != [] && NoRegexSpace(ws[i])
    ensures s != [] && !IsRegexSpace(s[0]) ==> ws != []
    decreases |s|
  {
    if |s| == 0 then []
    else if IsRegexSpace(s[0]) then Runs(s[1..])
    else
      var n := RunEnd(s, 0);
      [s[..n]] + Runs(s[n..])
  }

  /** line.trim().split("\\s+"). Because every \s character is also trimmable, the
      trimmed string has no leading or trailing \s, so split yields exactly its maximal
      runs; the one exception is a trimmed empty string, which split returns whole. */
  function TrimSplit(line: string): (ws: seq<string>)
    ensures ws != []
    ensures ws == [""] <==> AllTrimmable(line)
    ensures !AllTrimmable(line) ==> forall i :: 0 <= i < |ws| ==> ws[i] != [] && NoRegexSpace(ws[i])
    ensures Flatten(ws) == RemoveSpaces(Trim(line))
    ensures !AllTrimmable(line) ==> Join(ws) == Squeeze(Trim(line))
  {
    var t := Trim(line);
    if t == [] then [""]
    else
      RunsFlatten(t);
      RunsSqueeze(t);
      assert !IsRegexSpace(t[0]);
      Runs(t)
  }

  /** The strings of ws concatenated with nothing between them. */
  function Flatten(ws: seq<string>): string {
    if ws == [] then "" else ws[0] + Flatten(ws[1..])
  }

  /** s with every \s character deleted. */
  function RemoveSpaces(s: string): string {
    if s == [] then ""
    else if IsRegexSpace(s[0]) then RemoveSpaces(s[1..])
    else [s[0]] + RemoveSpaces(s[1..])
  }

  lemma {:induction false} RemoveSpacesAppend(a: string, b: string)
    ensures RemoveSpaces(a + b) == RemoveSpaces(a) + RemoveSpaces(b)
    decreases |a|
  {
    if a == [] {
      assert a + b == b;
    } else {
      RemoveSpacesAppend(a[1..], b);
      assert (a + b)[0] == a[0];
      assert (a + b)[1..] == a[1..] + b;
    }
  }

  lemma {:induction false} RemoveSpacesNone(a: string)
    requires NoRegexSpace(a)
    ensures RemoveSpaces(a) == a
    decreases |a|
  {
    if a != [] {
      RemoveSpacesNone(a[1..]);
    }
  }

  /** Runs keeps every character outside \s, in order, and drops the rest. */
  lemma {:induction false} RunsFlatten(s: string)
    ensures Flatten(Runs(s)) == RemoveSpaces(s)
    decreases |s|
  {
    if s == [] {
    } else if IsRegexSpace(s[0]) {
      RunsFlatten(s[1..]);
    } else {
      var n := RunEnd(s, 0);
      RunsFlatten(s[n..]);
      assert s == s[..n] + s[n..];
      RemoveSpacesAppend(s[..n], s[n..]);
      RemoveSpacesNone(s[..n]);
      assert ([s[..n]] + Runs(s[n..]))[1..] == Runs(s[n..]);
    }
  }

  /** The words of ws separated by single spaces: the string built by starting from
      ws[0] and appending " " + w for each later w. */
  function Join(ws: seq<string>): string
    decreases |ws|
  {
    if |ws| == 0 then ""
    else if |ws| == 1 then ws[0]
    else ws[0] + " " + Join(ws[1..])
  }

  /** Appending one word to a non-empty list appends a space and that word. */
  lemma {:induction false} JoinSnoc(ws: seq<string>, w: string)
    requires ws != []
    ensures Join(ws + [w]) == Join(ws) + " " + w
    decreases |ws|
  {
    if |ws| > 1 {
      JoinSnoc(ws[1..], w);
      assert (ws + [w])[1..] == ws[1..] + [w];
    }
  }

  /** A run stops exactly at the first \s character. */
  lemma {:induction false} RunEndAt(s: string, i: nat, n: nat)
    requires i <= n <= |s|
    requires forall j :: i <= j < n ==> !IsRegexSpace(s[j])
    requires n < |s| ==> IsRegexSpace(s[n])
    ensures RunEnd(s, i) == n
    decreases n - i
  {
    if i < n {
      RunEndAt(s, i + 1, n);
    }
  }

  /** Splitting a joined sentence of non-empty, space-free words gives the words back. */
  lemma {:induction false} RunsJoin(ws: seq<string>)
    requires forall i :: 0 <= i < |ws| ==> ws[i] != [] && NoRegexSpace(ws[i])
    ensures Runs(Join(ws)) == ws
    decreases |ws|
  {
    if |ws| == 1 {
      RunEndAt(ws[0], 0, |ws[0]|);
      assert ws[0] + "" == ws[0];
      assert ws[0][|ws[0]|..] == [];
      assert ws == [ws[0]];
    } else if |ws| > 1 {
      var rest := Join(ws[1..]);
      var s := ws[0] + " " + rest;
      assert s == ws[0] + (" " + rest);
      assert s[|ws[0]|] == ' ';
      assert forall j :: 0 <= j < |ws[0]| ==> s[j] == ws[0][j];
      RunEndAt(s, 0, |ws[0]|);
      assert s[..|ws[0]|] == ws[0];
      assert s[|ws[0]|..] == " " + rest;
      assert (" " + rest)[1..] == rest;
      RunsJoin(ws[1..]);
      assert ws == [ws[0]] + ws[1..];
    }
  }

  /** A joined sentence starts with its first word's first character and ends with
      its last word's last character. */
  lemma {:induction false} JoinEnds(ws: seq<string>)
    requires ws != [] && forall i :: 0 <= i < |ws| ==> ws[i] != []
    ensures |Join(ws)| >= |ws[0]|
    ensures Join(ws)[0] == ws[0][0]
    ensures Join(ws)[|Join(ws)| - 1] == ws[|ws| - 1][|ws[|ws| - 1]| - 1]
    decreases |ws|
  {
    if |ws| > 1 {
      JoinEnds(ws[1..]);
      var rest := Join(ws[1..]);
      assert Join(ws) == ws[0] + (" " + rest);
      assert ws[1..][|ws[1..]| - 1] == ws[|ws| - 1];
    }
  }

  /** trim() leaves a string alone whose first and last characters it keeps. */
  lemma TrimKeeps(s: string)
    requires s != [] && !IsTrimmable(s[0]) && !IsTrimmable(s[|s| - 1])
    ensures Trim(s) == s
  {
    assert TrimBegin(s, 0) == 0;
    assert TrimEnd(s, 0, |s|) == |s|;
    assert s[0..|s|] == s;
  }

  /** A word without trimmable characters has no \s character either. */
  lemma NoSpaceIn(w: string)
    requires !AnyTrimmable(w)
    ensures NoRegexSpace(w)
  {
    forall j | 0 <= j < |w| ensures !IsRegexSpace(w[j]) {
      assert !IsTrimmable(w[j]);
    }
  }

  /** trim().split("\\s+") of a joined sentence of non-empty words without
      trimmable characters gives the words back. */
  lemma TrimSplitJoin(ws: seq<string>)
    requires ws != []
    requires forall i :: 0 <= i < |ws| ==> ws[i] != [] && !AnyTrimmable(ws[i])
    ensures TrimSplit(Join(ws)) == ws
  {
    var s := Join(ws);
    JoinEnds(ws);
    var first := ws[0];
    var last := ws[|ws| - 1];
    assert !IsTrimmable(first[0]);
    assert !IsTrimmable(last[|last| - 1]);
    TrimKeeps(s);
    forall i | 0 <= i < |ws| ensures NoRegexSpace(ws[i]) {
      NoSpaceIn(ws[i]);
    }
    RunsJoin(ws);
  }

  // ---------------------------------------------------------------------------
  // Where split cuts: each maximal run of \s is one separator

  /** s with leading and trailing \s runs dropped and every inner run of \s
      replaced by one space, read character by character: started says a
      non-space character has been copied, gap that a space is owed before the
      next one. */
  function Tidy(s: string, started: bool, gap: bool): string
    decreases |s|
  {
    if s == [] then ""
    else if IsRegexSpace(s[0]) then Tidy(s[1..], started, started)
    else (if gap then " " else "") + [s[0]] + Tidy(s[1..], true, false)
  }

  function Squeeze(s: string): string {
    Tidy(s, false, false)
  }

  /** Join of a word followed by a list. */
  lemma JoinCons(w: string, rest: seq<string>)
    ensures Join([w] + rest) == if rest == [] then w else w + " " + Join(rest)
  {
    assert ([w] + rest)[1..] == rest;
  }

  /** Tidy copies a run of non-space characters unchanged. */
  lemma {:induction false} TidyRun(w: string, rest: string, started: bool, gap: bool)
    requires w != [] && NoRegexSpace(w)
    ensures Tidy(w + rest, started, gap) == (if gap then " " else "") + w + Tidy(rest, true, false)
    decreases |w|
  {
    var s := w + rest;
    assert s[0] == w[0];
    assert s[1..] == w[1..] + rest;
    if |w| == 1 {
      assert w == [w[0]];
      assert w[1..] + rest == rest;
    } else {
      TidyRun(w[1..], rest, true, false);
      assert [w[0]] + w[1..] == w;
      AppendAssoc([w[0]], w[1..], Tidy(rest, true, false));
    }
  }

  /** Reading s in state (gap, gap) gives its runs joined by single spaces, with one
      space in front when gap holds and there is a run. */
  lemma {:induction false} RunsTidy(s: string, gap: bool)
    ensures Tidy(s, gap, gap) == if Runs(s) == [] then "" else (if gap then " " else "") + Join(Runs(s))
    decreases |s|
  {
    if s != [] {
      if IsRegexSpace(s[0]) {
        RunsTidy(s[1..], gap);
      } else {
        var n := RunEnd(s, 0);
        var rest := s[n..];
        if rest != [] {
          RunsTidy(rest[1..], true);
        }
        RunsTidyWord(s, gap);
      }
    }
  }

  /** The step of RunsTidy for a string that starts with a run. */
  lemma RunsTidyWord(s: string, gap: bool)
    requires s != [] && !IsRegexSpace(s[0])
    requires var rest := s[RunEnd(s, 0)..];
      rest != [] ==>
        Tidy(rest[1..], true, true) == (if Runs(rest[1..]) == [] then "" else " " + Join(Runs(rest[1..])))
    ensures Tidy(s, gap, gap) == (if gap then " " else "") + Join(Runs(s))
  {
    var n := RunEnd(s, 0);
    var w := s[..n];
    var rest := s[n..];
    var g := if gap then " " else "";
    assert s == w + rest;
    assert NoRegexSpace(w);
    TidyRun(w, rest, gap, gap);
    assert Runs(s) == [w] + Runs(rest);
    JoinCons(w, Runs(rest));
    if rest == [] {
      assert Tidy(s, gap, gap) == g + w + "";
    } else {
      assert IsRegexSpace(rest[0]);
      assert Tidy(rest, true, false) == Tidy(rest[1..], true, true);
      assert Runs(rest) == Runs(rest[1..]);
      if Runs(rest) != [] {
        AppendAssoc(g + w, " ", Join(Runs(rest)));
        AppendAssoc(g, w + " ", Join(Runs(rest)));
        AppendAssoc(g, w, " ");
      }
    }
  }

  /** The runs of s, joined by single spaces, are s squeezed. */
  lemma RunsSqueeze(s: string)
    ensures Join(Runs(s)) == Squeeze(s)
  {
    RunsTidy(s, false);
  }

  /** Squeezing does not move a cut: s and Squeeze(s) have the same runs. */
  lemma SqueezeRuns(s: string)
    ensures Runs(Squeeze(s)) == Runs(s)
  {
    RunsSqueeze(s);
    RunsJoin(Runs(s));
  }

  /** trim().split("\\s+") of a line that is not blank is the one list of non-empty,
      \s-free tokens that, joined by single spaces, is the trimmed line squeezed. */
  lemma TrimSplitUnique(line: string, ws: seq<string>)
    requires !AllTrimmable(line)
    requires forall i :: 0 <= i < |ws| ==> ws[i] != [] && NoRegexSpace(ws[i])
    requires Join(ws) == Squeeze(Trim(line))
    ensures ws == TrimSplit(line)
  {
    RunsJoin(ws);
    SqueezeRuns(Trim(line));
  }
}
