/**
 * Word wrapping of item descriptions (wrapText in inventory.go): the text is split
 * into words as Go's strings.Fields does, and the words are laid out greedily, a
 * word going onto the current line when the line with it still fits the width.
 * The rendered width of a string is a parameter (the font's bounding box in the game).
 */
module TextWrap {

  /** unicode.IsSpace: the Latin-1 spaces and the other characters with the
      Unicode White_Space property. */
  predicate IsSpace(c: char)
  {
    c == '\t' || c == '\n' || c == '\U{B}' || c == '\U{C}' || c == '\r' || c == ' '
    || c == '\U{85}' || c == '\U{A0}' || c == '\U{1680}'
    || ('\U{2000}' <= c <= '\U{200A}')
    || c == '\U{2028}' || c == '\U{2029}' || c == '\U{202F}' || c == '\U{205F}' || c == '\U{3000}'
  }

  /** A field: a nonempty run of characters none of which is a space. */
  predicate IsWord(w: string)
  {
    w != [] && forall i :: 0 <= i < |w| ==> !IsSpace(w[i])
  }

  /** Length of the run of non-space characters at the start of `s`. */
  function WordLen(s: string): (n: nat)
    ensures n <= |s|
    ensures forall i :: 0 <= i < n ==> !IsSpace(s[i])
    ensures n < |s| ==> IsSpace(s[n])
    decreases |s|
  {
    if s == [] || IsSpace(s[0]) then 0 else 1 + WordLen(s[1..])
  }

  /** strings.Fields: the maximal runs of non-space characters, in order. */
  function Fields(s: string): (ws: seq<string>)
    ensures forall i :: 0 <= i < |ws| ==> IsWord(ws[i])
    ensures ws == [] <==> forall i :: 0 <= i < |s| ==> IsSpace(s[i])
    decreases |s|
  {
    if s == [] then []
    else if IsSpace(s[0]) then Fields(s[1..])
    else
      var n := WordLen(s);
      [s[..n]] + Fields(s[n..])
  }

  /** The words glued together. */
  function Concat(ws: seq<string>): string
    decreases |ws|
  {
    if ws == [] then [] else ws[0] + Concat(ws[1..])
  }

  /** The characters of `s` that are not spaces, in order. */
  function NonSpace(s: string): string
    decreases |s|
  {
    if s == [] then [] else (if IsSpace(s[0]) then [] else [s[0]]) + NonSpace(s[1..])
  }

  lemma {:induction false} NonSpaceAppend(a: string, b: string)
    ensures NonSpace(a + b) == NonSpace(a) + NonSpace(b)
    decreases |a|
  {
    if a != [] {
      assert (a + b)[0] == a[0];
      assert (a + b)[1..] == a[1..] + b;
      NonSpaceAppend(a[1..], b);
    } else {
      assert a + b == b;
    }
  }

  lemma {:induction false} NonSpaceOfWord(w: string)
    requires forall i :: 0 <= i < |w| ==> !IsSpace(w[i])
    ensures NonSpace(w) == w
    decreases |w|
  {
    if w != [] {
      NonSpaceOfWord(w[1..]);
    }
  }

  /** Splitting loses only the spaces: the fields glued back together are the text
      with its spaces removed. */
  lemma {:induction false} FieldsKeepText(s: string)
    ensures Concat(Fields(s)) == NonSpace(s)
    decreases |s|
  {
    if s != [] {
      if IsSpace(s[0]) {
        FieldsKeepText(s[1..]);
      } else {
        var n := WordLen(s);
        assert s == s[..n] + s[n..];
        NonSpaceAppend(s[..n], s[n..]);
        NonSpaceOfWord(s[..n]);
        FieldsKeepText(s[n..]);
        assert Fields(s)[1..] == Fields(s[n..]);
      }
    }
  }

  /** Text after a word that ends at a space (or at the end of `a`, if `t` starts with
      a space) does not change where that word ends. */
  lemma WordLenExtend(a: string, t: string)
    requires WordLen(a) < |a| || (t != [] && IsSpace(t[0]))
    ensures WordLen(a + t) == WordLen(a)
  {
    var m, n := WordLen(a), WordLen(a + t);
    assert (a + t)[m] == if m < |a| then a[m] else t[0];
    assert forall i :: 0 <= i < m ==> (a + t)[i] == a[i];
  }

  /** A space cuts the text into two parts that are split independently. */
  lemma {:induction false} FieldsSplit(a: string, c: char, b: string)
    requires IsSpace(c)
    ensures Fields(a + [c] + b) == Fields(a) + Fields(b)
    decreases |a|
  {
    var s := a + [c] + b;
    if a == [] {
      assert s[1..] == b;
    } else if IsSpace(a[0]) {
      assert s[1..] == a[1..] + [c] + b;
      FieldsSplit(a[1..], c, b);
    } else {
      var m := WordLen(a);
      WordLenExtend(a, [c] + b);
      assert s == a + ([c] + b);
      assert s[..m] == a[..m];
      assert s[m..] == a[m..] + [c] + b;
      assert Fields(s) == [a[..m]] + Fields(a[m..] + [c] + b);
      FieldsSplit(a[m..], c, b);
      assert Fields(a) == [a[..m]] + Fields(a[m..]);
    }
  }

  lemma FieldsOfWord(w: string)
    requires IsWord(w)
    ensures Fields(w) == [w]
  {
    assert WordLen(w) == |w|;
    assert w[..|w|] == w;
    assert w[|w|..] == [];
  }

  /** Adding a word to a line, with a separating space only when the line is not empty:
      the line is then non-empty and splits into its old words followed by the new one. */
  function Append(line: string, word: string): (r: string)
    ensures IsWord(word) ==> r != "" && Fields(r) == Fields(line) + [word]
  {
    var r := (if line != "" then line + " " else "") + word;
    if !IsWord(word) then r
    else if line == "" then FieldsOfWord(word); assert r == word && Fields(line) == []; r
    else FieldsAfterSpace(line, word); assert r == line + [' '] + word; r
  }

  /** A line made of the given words. */
  function JoinWords(ws: seq<string>): string
    decreases |ws|
  {
    if ws == [] then "" else Append(JoinWords(ws[..|ws| - 1]), ws[|ws| - 1])
  }

  /** Joining nonempty words gives a nonempty line. */
  lemma JoinWordsNonEmpty(ws: seq<string>)
    requires ws != [] && IsWord(ws[|ws| - 1])
    ensures JoinWords(ws) != ""
  {
  }

  /** A word after a space becomes one more field. */
  lemma FieldsAfterSpace(a: string, w: string)
    requires IsWord(w)
    ensures Fields(a + [' '] + w) == Fields(a) + [w]
  {
    FieldsOfWord(w);
    FieldsSplit(a, ' ', w);
  }

  /** Splitting a joined line gives back its words. */
  lemma {:induction false} FieldsOfJoin(ws: seq<string>)
    requires forall i :: 0 <= i < |ws| ==> IsWord(ws[i])
    ensures Fields(JoinWords(ws)) == ws
    decreases |ws|
  {
    if ws != [] {
      var init, w := ws[..|ws| - 1], ws[|ws| - 1];
      assert IsWord(w);
      if init == [] {
        FieldsOfWord(w);
        assert ws == [w];
      } else {
        assert forall i :: 0 <= i < |init| ==> init[i] == ws[i];
        var line := JoinWords(init);
        calc {
          Fields(JoinWords(ws));
          { JoinWordsNonEmpty(init); }
          Fields(line + [' '] + w);
          { FieldsAfterSpace(line, w); }
          Fields(line) + [w];
          { FieldsOfJoin(init); }
          init + [w];
        }
      }
    }
  }

  // ------------------------------------------------------------------ greedy layout

  /** The line made of words[s..e] (empty for an invalid range). */
  function Line(words: seq<string>, s: nat, e: nat): string
  {
    if s <= e <= |words| then JoinWords(words[s..e]) else ""
  }

  /** Rendered width of the line made of words[s..e]. */
  function LineWidth(words: seq<string>, s: nat, e: nat, width: string -> int): int
  {
    width(Line(words, s, e))
  }

  /** Lowest word index within line `i` whose addition was not tested against the width:
      every word of the first line was tested, the first word of a later line was not. */
  function Lo(i: nat): nat { if i == 0 then 0 else 1 }

  /** Where line `i` ends when `starts` lists where the lines start and the last one
      runs to word `k`. */
  function End(starts: seq<nat>, i: nat, k: nat): nat
  {
    if i + 1 < |starts| then starts[i + 1] else k
  }

  /** `starts` is the greedy layout of words[..k]: the lines start at the listed word
      indices, the first at 0; only the first line may be empty (its first word was
      already too wide); every word added to a line left it within `maxWidth`; and every
      line break happened because the next word would have taken the line over it. */
  ghost predicate Layout(words: seq<string>, starts: seq<nat>, k: nat, width: string -> int, maxWidth: int)
  {
    k <= |words| && |starts| >= 1 && starts[0] == 0
    && (forall i :: 0 < i < |starts| ==> starts[i] < k)
    && (forall i, j :: 0 < i < j < |starts| ==> starts[i] < starts[j])
    && (forall i, e :: 0 <= i < |starts| && starts[i] + Lo(i) < e <= End(starts, i, k) ==>
          LineWidth(words, starts[i], e, width) <= maxWidth)
    && (forall i :: 0 < i < |starts| ==> BreakWidth(words, starts, i, width) > maxWidth)
  }

  /** Width of line `i - 1` with the first word of line `i` added to it. */
  function BreakWidth(words: seq<string>, starts: seq<nat>, i: nat, width: string -> int): int
  {
    if 0 < i < |starts| then LineWidth(words, starts[i - 1], starts[i] + 1, width) else 0
  }

  /** The next word fits: it joins the current line. */
  lemma LayoutExtend(words: seq<string>, starts: seq<nat>, k: nat, width: string -> int, maxWidth: int)
    requires Layout(words, starts, k, width, maxWidth) && k < |words|
    requires LineWidth(words, starts[|starts| - 1], k + 1, width) <= maxWidth
    ensures Layout(words, starts, k + 1, width, maxWidth)
  {
    var n := |starts| - 1;
    forall i, e | 0 <= i < |starts| && starts[i] + Lo(i) < e <= End(starts, i, k + 1)
      ensures LineWidth(words, starts[i], e, width) <= maxWidth
    {
      if i < n || e <= k {
        assert e <= End(starts, i, k);
      }
    }
  }

  /** The next word does not fit: the current line is closed and the word starts a new one. */
  lemma LayoutBreak(words: seq<string>, starts: seq<nat>, k: nat, width: string -> int, maxWidth: int)
    requires Layout(words, starts, k, width, maxWidth) && k < |words|
    requires LineWidth(words, starts[|starts| - 1], k + 1, width) > maxWidth
    ensures Layout(words, starts + [k], k + 1, width, maxWidth)
  {
    var s := starts + [k];
    var n := |starts|;
    assert forall i :: 0 <= i < n ==> s[i] == starts[i];
    forall i, e | 0 <= i < |s| && s[i] + Lo(i) < e <= End(s, i, k + 1)
      ensures LineWidth(words, s[i], e, width) <= maxWidth
    {
      assert i < n;
      assert End(s, i, k + 1) == End(starts, i, k);
      assert LineWidth(words, starts[i], e, width) <= maxWidth;
    }
    forall i | 0 < i < |s|
      ensures BreakWidth(words, s, i, width) > maxWidth
    {
      if i < n {
        assert BreakWidth(words, s, i, width) == BreakWidth(words, starts, i, width);
      }
    }
  }

  /** Two greedy layouts of the same words agree on the start of line `i` when they agree
      on the start of the line before it. */
  lemma SameNextStart(words: seq<string>, s1: seq<nat>, s2: seq<nat>, k: nat, i: nat,
                      width: string -> int, maxWidth: int)
    requires Layout(words, s1, k, width, maxWidth) && Layout(words, s2, k, width, maxWidth)
    requires 0 < i < |s1| && i < |s2| && s1[i - 1] == s2[i - 1]
    ensures s1[i] == s2[i]
  {
    // A line broken earlier in one layout than in the other would have been broken by a
    // word that the other layout accepted onto the same line.
    assert s1[i] < s2[i] ==> BreakWidth(words, s1, i, width) > maxWidth;
    assert s2[i] < s1[i] ==> BreakWidth(words, s2, i, width) > maxWidth;
  }

  /** A greedy layout of `k` words cannot have more lines than another one. */
  lemma NoExtraLine(words: seq<string>, s1: seq<nat>, s2: seq<nat>, k: nat,
                    width: string -> int, maxWidth: int)
    requires Layout(words, s1, k, width, maxWidth) && Layout(words, s2, k, width, maxWidth)
    requires 1 <= |s1| <= |s2| && s1 == s2[..|s1|]
    ensures |s1| == |s2|
  {
    var m := |s1|;
    // a line m of s2 would start with a word that was accepted onto the last line of s1
    assert m < |s2| ==> s1[m - 1] == s2[m - 1] && s2[m] < k && (m - 1 > 0 ==> s2[m - 1] < s2[m]);
    assert m < |s2| ==> LineWidth(words, s1[m - 1], s2[m] + 1, width) <= maxWidth;
    assert m < |s2| ==> BreakWidth(words, s2, m, width) > maxWidth;
  }

  /** There is only one greedy layout. */
  lemma LayoutUnique(words: seq<string>, s1: seq<nat>, s2: seq<nat>, k: nat,
                     width: string -> int, maxWidth: int)
    requires Layout(words, s1, k, width, maxWidth) && Layout(words, s2, k, width, maxWidth)
    ensures s1 == s2
  {
    var n := 1;
    while n < |s1| && n < |s2|
      invariant 1 <= n <= |s1| && n <= |s2|
      invariant s1[..n] == s2[..n]
    {
      SameNextStart(words, s1, s2, k, n, width, maxWidth);
      assert s1[..n + 1] == s1[..n] + [s1[n]];
      assert s2[..n + 1] == s2[..n] + [s2[n]];
      n := n + 1;
    }
    if |s1| <= |s2| {
      assert s1 == s1[..n];
      NoExtraLine(words, s1, s2, k, width, maxWidth);
    } else {
      assert s2 == s2[..n];
      NoExtraLine(words, s2, s1, k, width, maxWidth);
    }
  }

  /** wrapText: the lines of the greedy layout of the words of `txt` within `maxWidth`,
      none when the text has no words; `starts` says where each line starts in the
      word list. */
  method WrapText(txt: string, width: string -> int, maxWidth: int)
    returns (lines: seq<string>, ghost starts: seq<nat>)
    ensures lines == [] <==> forall i :: 0 <= i < |txt| ==> IsSpace(txt[i])
    ensures Fields(txt) != [] ==> Layout(Fields(txt), starts, |Fields(txt)|, width, maxWidth)
    ensures |lines| == |starts|
    ensures forall i {:trigger lines[i]} :: 0 <= i < |lines| ==>
              lines[i] == Line(Fields(txt), starts[i], End(starts, i, |Fields(txt)|))
  {
    var words := Fields(txt);
    if |words| == 0 {
      return [], [];
    }
    lines, starts := LayOut(words, width, maxWidth);
  }

  /** The loop of wrapText over a nonempty word list. */
  method LayOut(words: seq<string>, width: string -> int, maxWidth: int)
    returns (lines: seq<string>, ghost starts: seq<nat>)
    requires words != [] && forall i :: 0 <= i < |words| ==> IsWord(words[i])
    ensures Layout(words, starts, |words|, width, maxWidth)
    ensures |lines| == |starts|
    ensures forall i {:trigger lines[i]} :: 0 <= i < |lines| ==> lines[i] == Line(words, starts[i], End(starts, i, |words|))
  {
    lines := [];
    var line := "";
    starts := [0];
    for k := 0 to |words|
      invariant Wrapping(words, lines, line, starts, k, width, maxWidth)
    {
      var word := words[k];
      var testLine := Append(line, word);
      if width(testLine) > maxWidth {
        WrapBreak(words, lines, line, starts, k, width, maxWidth);
        lines := lines + [line];
        starts := starts + [k];
        line := word;
      } else {
        WrapExtend(words, lines, line, starts, k, width, maxWidth);
        line := testLine;
      }
    }
    LinesAtEnd(words, lines, line, starts, width, maxWidth);
    if line != "" {
      lines := lines + [line];
    }
  }

  /** The state of the loop after words[..k]: `lines` holds the closed lines of the greedy
      layout `starts`, and `line` the words of its last, open line. */
  ghost predicate Wrapping(words: seq<string>, lines: seq<string>, line: string, starts: seq<nat>,
                           k: nat, width: string -> int, maxWidth: int)
  {
    Layout(words, starts, k, width, maxWidth)
    && |lines| == |starts| - 1
    && (forall i {:trigger lines[i]} :: 0 <= i < |lines| ==> lines[i] == Line(words, starts[i], starts[i + 1]))
    && line == Line(words, starts[|starts| - 1], k)
  }

  /** Word `k` does not fit on the open line: the line is closed and the word opens the next. */
  lemma WrapBreak(words: seq<string>, lines: seq<string>, line: string, starts: seq<nat>,
                  k: nat, width: string -> int, maxWidth: int)
    requires Wrapping(words, lines, line, starts, k, width, maxWidth) && k < |words|
    requires width(Append(line, words[k])) > maxWidth
    ensures Wrapping(words, lines + [line], words[k], starts + [k], k + 1, width, maxWidth)
  {
    JoinStep(words, starts[|starts| - 1], k);
    LayoutBreak(words, starts, k, width, maxWidth);
    LinesAfterBreak(words, lines, line, starts, k);
    JoinOne(words, k);
  }

  /** Word `k` fits: it joins the open line. */
  lemma WrapExtend(words: seq<string>, lines: seq<string>, line: string, starts: seq<nat>,
                   k: nat, width: string -> int, maxWidth: int)
    requires Wrapping(words, lines, line, starts, k, width, maxWidth) && k < |words|
    requires width(Append(line, words[k])) <= maxWidth
    ensures Wrapping(words, lines, Append(line, words[k]), starts, k + 1, width, maxWidth)
  {
    JoinStep(words, starts[|starts| - 1], k);
    LayoutExtend(words, starts, k, width, maxWidth);
  }

  /** The last line runs to the end of the words. */
  lemma LinesAtEnd(words: seq<string>, lines: seq<string>, line: string, starts: seq<nat>,
                   width: string -> int, maxWidth: int)
    requires Wrapping(words, lines, line, starts, |words|, width, maxWidth)
    requires words != [] && forall i :: 0 <= i < |words| ==> IsWord(words[i])
    ensures forall i {:trigger (lines + [line])[i]} :: 0 <= i < |lines| + 1 ==>
              (lines + [line])[i] == Line(words, starts[i], End(starts, i, |words|))
    ensures line != ""
  {
    // The open line holds at least the last word.
    var last := starts[|starts| - 1];
    assert words[last..|words|] != [] && words[last..|words|][|words| - 1 - last] == words[|words| - 1];
    JoinWordsNonEmpty(words[last..|words|]);
  }

  /** Closing the current line at word `k` keeps every line equal to its words. */
  lemma LinesAfterBreak(words: seq<string>, lines: seq<string>, line: string, starts: seq<nat>, k: nat)
    requires |lines| == |starts| - 1
    requires forall i {:trigger lines[i]} :: 0 <= i < |lines| ==> lines[i] == Line(words, starts[i], starts[i + 1])
    requires line == Line(words, starts[|starts| - 1], k)
    ensures forall i {:trigger (lines + [line])[i]} :: 0 <= i < |lines| + 1 ==>
              (lines + [line])[i] == Line(words, (starts + [k])[i], (starts + [k])[i + 1])
  {
  }

  /** A line of one word is that word. */
  lemma JoinOne(words: seq<string>, k: nat)
    requires k < |words|
    ensures Line(words, k, k + 1) == words[k]
  {
    var ws := words[k..k + 1];
    assert ws[..0] == [];
    assert JoinWords(ws) == Append(JoinWords(ws[..0]), ws[0]);
  }

  /** Adding word `k` to the line holding words[s..k]. */
  lemma JoinStep(words: seq<string>, s: nat, k: nat)
    requires s <= k < |words|
    ensures Line(words, s, k + 1) == Append(Line(words, s, k), words[k])
  {
    var ws := words[s..k + 1];
    assert ws[..k - s] == words[s..k];
    assert ws[k - s] == words[k];
    assert JoinWords(ws) == Append(JoinWords(ws[..k - s]), ws[k - s]);
  }
}
