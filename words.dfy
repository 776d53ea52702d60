/**
 * Python's `str.split()` with no separator, as the abstract word count uses
 * it, and `" ".join`, as the title corpus uses it.
 */
module Words {

  /**
   * Python's `str.isspace` for one character: the ASCII controls tab to
   * carriage return, the information separators 0x1C-0x1F, space, and the
   * Unicode spaces and line/paragraph separators CPython treats as white space.
   */
  predicate IsWhitespace(c: char) {
    || c == ' '
    || '\t' <= c <= '\r'
    || '\U{1c}' <= c <= '\U{1f}'
    || c == '\U{85}' || c == '\U{a0}' || c == '\U{1680}'
    || '\U{2000}' <= c <= '\U{200a}'
    || c == '\U{2028}' || c == '\U{2029}' || c == '\U{202f}' || c == '\U{205f}' || c == '\U{3000}'
  }

  /** A token `split()` can produce: non-empty and free of white space. */
  predicate IsWord(w: string) {
    |w| > 0 && forall i :: 0 <= i < |w| ==> !IsWhitespace(w[i])
  }

  /** Length of the run of non-white-space characters that starts `s`. */
  function RunLength(s: string): (n: nat)
    ensures n <= |s|
    ensures forall i :: 0 <= i < n ==> !IsWhitespace(s[i])
    ensures n < |s| ==> IsWhitespace(s[n])
  {
    if s == [] || IsWhitespace(s[0]) then 0 else 1 + RunLength(s[1..])
  }

  /** `s.split()`: the maximal runs of non-white-space characters, in order. */
  function Split(s: string): (words: seq<string>)
    ensures forall w :: w in words ==> IsWord(w)
    decreases |s|
  {
    if s == [] then []
    else if IsWhitespace(s[0]) then Split(s[1..])
    else
      var n := RunLength(s);
      [s[..n]] + Split(s[n..])
  }

  /** `len(s.split())`. */
  function WordCount(s: string): nat {
    |Split(s)|
  }

  /**
   * Counts the maximal runs by a left-to-right scan; `inRun` says whether the
   * previous character belonged to a run. A run is counted where it starts.
   */
  function Runs(s: string, inRun: bool): nat {
    if s == [] then 0
    else if IsWhitespace(s[0]) then Runs(s[1..], false)
    else (if inRun then 0 else 1) + Runs(s[1..], true)
  }

  /** Inside a run, the scan counts nothing until the run ends. */
  lemma {:induction false} RunsSkipRun(s: string)
    ensures Runs(s, true) == Runs(s[RunLength(s)..], false)
  {
    if s != [] && !IsWhitespace(s[0]) {
      RunsSkipRun(s[1..]);
      assert s[1..][RunLength(s[1..])..] == s[RunLength(s)..];
    }
  }

  /** The word count is the number of maximal non-white-space runs. */
  lemma {:induction false} WordCountIsRuns(s: string)
    ensures WordCount(s) == Runs(s, false)
    decreases |s|
  {
    if s != [] {
      if IsWhitespace(s[0]) {
        WordCountIsRuns(s[1..]);
      } else {
        var n := RunLength(s);
        WordCountIsRuns(s[n..]);
        RunsSkipRun(s[1..]);
        assert s[1..][RunLength(s[1..])..] == s[n..];
      }
    }
  }

  /** `" ".join(ws)`. */
  function Join(ws: seq<string>): (s: string)
    ensures ws == [] ==> s == []
  {
    if ws == [] then []
    else if |ws| == 1 then ws[0]
    else ws[0] + " " + Join(ws[1..])
  }

  /** Joining one more string appends a single space and that string. */
  lemma {:induction false} JoinSnoc(ws: seq<string>, w: string)
    ensures Join(ws + [w]) == if ws == [] then w else Join(ws) + " " + w
  {
    if |ws| >= 2 {
      assert (ws + [w])[1..] == ws[1..] + [w];
      JoinSnoc(ws[1..], w);
    } else if |ws| == 1 {
      assert (ws + [w])[1..] == [w];
    }
  }

  /** Where the `k`-th string starts inside `Join(ws)`. */
  function JoinOffset(ws: seq<string>, k: nat): nat
    requires k < |ws|
  {
    if k == 0 then 0 else |ws[0]| + 1 + JoinOffset(ws[1..], k - 1)
  }

  /** `w` occurs in `s` starting at position `i`. */
  predicate OccursAt(w: string, s: string, i: int) {
    0 <= i && i + |w| <= |s| && s[i..i + |w|] == w
  }

  /** Each joined string occurs in the joined text, at its offset. */
  lemma {:induction false} JoinContains(ws: seq<string>, k: nat)
    requires k < |ws|
    ensures JoinOffset(ws, k) + |ws[k]| <= |Join(ws)|
    ensures Join(ws)[JoinOffset(ws, k)..JoinOffset(ws, k) + |ws[k]|] == ws[k]
  {
    if k > 0 {
      JoinContains(ws[1..], k - 1);
      var tail := Join(ws[1..]);
      var o := JoinOffset(ws[1..], k - 1);
      assert Join(ws) == ws[0] + " " + tail;
      assert Join(ws)[|ws[0]| + 1 + o..|ws[0]| + 1 + o + |ws[k]|] == tail[o..o + |ws[k]|];
    } else if |ws| > 1 {
      assert Join(ws) == ws[0] + (" " + Join(ws[1..]));
    }
  }

  /** `split` stops a word exactly where white space or the text ends. */
  lemma {:induction false} RunLengthOfWord(w: string, tail: string)
    requires IsWord(w)
    requires tail == [] || IsWhitespace(tail[0])
    ensures RunLength(w + tail) == |w|
  {
    if |w| > 1 {
      assert (w + tail)[1..] == w[1..] + tail;
      RunLengthOfWord(w[1..], tail);
    } else {
      assert (w + tail)[1..] == tail;
    }
  }

  lemma SplitWordThen(w: string, tail: string)
    requires IsWord(w)
    requires tail == [] || IsWhitespace(tail[0])
    ensures Split(w + tail) == [w] + Split(tail)
  {
    RunLengthOfWord(w, tail);
    assert (w + tail)[..|w|] == w;
    assert (w + tail)[|w|..] == tail;
  }

  /** Splitting words joined by single spaces gives the words back. */
  lemma {:induction false} SplitJoin(ws: seq<string>)
    requires forall w :: w in ws ==> IsWord(w)
    ensures Split(Join(ws)) == ws
  {
    if |ws| == 1 {
      SplitWordThen(ws[0], []);
      assert ws[0] + [] == ws[0];
    } else if |ws| > 1 {
      var rest := Join(ws[1..]);
      SplitWordThen(ws[0], " " + rest);
      assert Join(ws) == ws[0] + (" " + rest);
      assert (" " + rest)[1..] == rest;
      SplitJoin(ws[1..]);
    }
  }

  /** `"a b  c".split()` has three words. */
  lemma WordCountExample()
    ensures WordCount("a b  c") == 3
    ensures WordCount("") == 0
  {
    assert "a b  c" == "a" + " b  c";
    SplitWordThen("a", " b  c");
    assert " b  c"[1..] == "b  c";
    assert "b  c" == "b" + "  c";
    SplitWordThen("b", "  c");
    assert "  c"[1..] == " c";
    assert " c"[1..] == "c";
    SplitWordThen("c", "");
    assert "c" + "" == "c";
  }
}
