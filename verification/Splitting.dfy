/**
 How `istrm >> command` splits a line into commands (prac/tq.cpp:56).
 */
module Splitting {
  import opened Characters

  function WordEnd(s: string, i: nat): (j: nat)
    requires i <= |s|
    ensures i <= j <= |s|
    decreases |s| - i
  {
    if i == |s| || IsBlank(s[i]) then i else WordEnd(s, i + 1)
  }

  /** What repeated `istrm >> command` reads. */
  function Words(s: string): seq<string>
    decreases |s|
  {
    if s == "" then []
    else if IsBlank(s[0]) then Words(s[1..])
    else
      var n := WordEnd(s, 1);
      [s[..n]] + Words(s[n..])
  }

  // ---------- Lists of words, and how they are written ----------

  /** The six blank characters: space, and those from tab to carriage return. */
  predicate Space(c: char) {
    c as int == 32 || 9 <= c as int <= 13
  }

  lemma BlankIsSpace(c: char)
    ensures IsBlank(c) <==> Space(c)
  {
  }

  ghost predicate AllSpace(s: string) {
    forall i :: 0 <= i < |s| ==> Space(s[i])
  }

  ghost predicate IsWord(w: string) {
    w != "" && forall i :: 0 <= i < |w| ==> !Space(w[i])
  }

  /** The words with the gaps around and between them. */
  function Laid(gaps: seq<string>, words: seq<string>): string
    requires |gaps| == |words| + 1
  {
    if words == [] then gaps[0] else gaps[0] + words[0] + Laid(gaps[1..], words[1..])
  }

  /** The text consists of these words, each apart from the next, and blanks. */
  ghost predicate Written(text: string, gaps: seq<string>, words: seq<string>) {
    && |gaps| == |words| + 1 && text == Laid(gaps, words)
    && (forall i :: 0 <= i < |gaps| ==> AllSpace(gaps[i]))
    && (forall i :: 0 < i < |words| ==> gaps[i] != "")
    && (forall i :: 0 <= i < |words| ==> IsWord(words[i]))
  }

  lemma {:induction false} SkipsGap(gap: string, rest: string)
    requires AllSpace(gap)
    ensures Words(gap + rest) == Words(rest)
  {
    if gap == "" {
      assert gap + rest == rest;
    } else {
      BlankIsSpace(gap[0]);
      assert (gap + rest)[1..] == gap[1..] + rest;
      SkipsGap(gap[1..], rest);
    }
  }

  lemma {:induction false} EndOfWord(s: string, i: nat, n: nat)
    requires i <= n <= |s| && (forall k :: i <= k < n ==> !Space(s[k])) && (n < |s| ==> Space(s[n]))
    ensures WordEnd(s, i) == n
    decreases n - i
  {
    if i < n {
      BlankIsSpace(s[i]);
      EndOfWord(s, i + 1, n);
    } else if n < |s| {
      BlankIsSpace(s[n]);
    }
  }

  lemma TakesWord(w: string, rest: string)
    requires IsWord(w) && (rest != "" ==> Space(rest[0]))
    ensures Words(w + rest) == [w] + Words(rest)
  {
    var s := w + rest;
    BlankIsSpace(s[0]);
    EndOfWord(s, 1, |w|);
    assert s[..|w|] == w && s[|w|..] == rest;
  }

  lemma StartsWithSpace(gaps: seq<string>, words: seq<string>)
    requires |gaps| == |words| + 1 && AllSpace(gaps[0]) && (words != [] ==> gaps[0] != "")
    ensures Laid(gaps, words) != "" ==> Space(Laid(gaps, words)[0])
  {
  }

  /** What is read from a text written with some words is exactly these words. */
  lemma {:induction false} ReadsTheWords(text: string, gaps: seq<string>, words: seq<string>)
    requires Written(text, gaps, words)
    ensures Words(text) == words
    decreases |words|
  {
    if words == [] {
      SkipsGap(gaps[0], "");
      assert gaps[0] + "" == gaps[0];
    } else {
      var rest := Laid(gaps[1..], words[1..]);
      assert text == gaps[0] + (words[0] + rest);
      SkipsGap(gaps[0], words[0] + rest);
      StartsWithSpace(gaps[1..], words[1..]);
      TakesWord(words[0], rest);
      ReadsTheWords(rest, gaps[1..], words[1..]);
    }
  }

  lemma {:induction false} WordEndIsEnd(s: string, i: nat)
    requires i <= |s|
    ensures forall k :: i <= k < WordEnd(s, i) ==> !Space(s[k])
    ensures WordEnd(s, i) < |s| ==> Space(s[WordEnd(s, i)])
    decreases |s| - i
  {
    if i < |s| {
      BlankIsSpace(s[i]);
      if !IsBlank(s[i]) {
        WordEndIsEnd(s, i + 1);
      }
    }
  }

  lemma GapInFront(c: char, rest: string, gaps: seq<string>, words: seq<string>)
    requires Space(c) && Written(rest, gaps, words)
    ensures Written([c] + rest, [[c] + gaps[0]] + gaps[1..], words)
  {
    var gaps' := [[c] + gaps[0]] + gaps[1..];
    assert gaps'[1..] == gaps[1..];
    if words == [] {
      assert Laid(gaps', words) == [c] + rest;
    } else {
      var more := Laid(gaps[1..], words[1..]);
      assert [c] + (gaps[0] + words[0] + more) == [c] + gaps[0] + words[0] + more;
    }
  }

  lemma FirstCharacter(gaps: seq<string>, words: seq<string>)
    requires |gaps| == |words| + 1 && words != [] && words[0] != ""
    ensures Laid(gaps, words) != ""
    ensures gaps[0] == "" ==> Laid(gaps, words)[0] == words[0][0]
  {
    var rest := Laid(gaps[1..], words[1..]);
    assert Laid(gaps, words) == gaps[0] + (words[0] + rest);
  }

  lemma WordInFront(w: string, rest: string, gaps: seq<string>, words: seq<string>)
    requires IsWord(w) && (rest != "" ==> Space(rest[0])) && Written(rest, gaps, words)
    ensures Written(w + rest, [""] + gaps, [w] + words)
  {
    var gaps', words' := [""] + gaps, [w] + words;
    assert gaps'[1..] == gaps && words'[1..] == words;
    assert "" + w + rest == w + rest;
    if words != [] {
      FirstCharacter(gaps, words);
    }
  }

  /** And every text is so written. */
  lemma {:induction false} EveryTextIsWritten(text: string) returns (gaps: seq<string>, words: seq<string>)
    ensures Written(text, gaps, words)
    decreases |text|
  {
    if text == "" {
      gaps, words := [""], [];
    } else {
      BlankIsSpace(text[0]);
      if Space(text[0]) {
        gaps, words := EveryTextIsWritten(text[1..]);
        GapInFront(text[0], text[1..], gaps, words);
        assert [text[0]] + text[1..] == text;
        gaps := [[text[0]] + gaps[0]] + gaps[1..];
      } else {
        var n := WordEnd(text, 1);
        WordEndIsEnd(text, 1);
        gaps, words := EveryTextIsWritten(text[n..]);
        WordInFront(text[..n], text[n..], gaps, words);
        assert text[..n] + text[n..] == text;
        gaps, words := [""] + gaps, [text[..n]] + words;
      }
    }
  }
}
