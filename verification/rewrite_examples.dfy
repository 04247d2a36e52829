/**
 Whole-file runs of `processFile` of scripts/translate-comments_02M.js on a
 block of two lines: the opener line and one comment line that also holds
 the closer. Such a file is rewritten on a first run and, when the verb
 rules leave another verb at the head of the line, again on a second.
 */
module RewriteExamples {
  import opened Wrappers
  import opened Text
  import opened Rules
  import opened Block
  import opened Rewrite
  import LineExamples

  /** A comment line that ends the block: bulleted ASCII text whose only closer is its last two characters. */
  predicate ClosingLine(line: string) {
    |line| >= 2 && line[|line| - 2] == '*' && line[|line| - 1] == '/' &&
    (forall k :: 0 <= k < |line| - 2 ==> !(line[k] == '*' && line[k + 1] == '/')) &&
    '\n' !in line && AllAscii(line) && LineExamples.Bulleted(line)
  }

  /** The search finds the first occurrence at or after `from`. */
  lemma {:induction false} IndexOfFirst(hay: string, needle: string, from: nat, q: nat)
    requires from <= q <= |hay| && LiteralAt(hay, q, needle)
    requires forall k :: from <= k < q ==> !LiteralAt(hay, k, needle)
    ensures IndexOf(hay, needle, from) == q
    decreases q - from
  {
    if from < q {
      IndexOfFirst(hay, needle, from + 1, q);
    }
  }

  /** `split` cuts a text with one line feed there, when no carriage return comes before it. */
  lemma LfTwoLines(first: string, second: string, s: string)
    requires '\n' !in first && '\n' !in second
    requires |first| > 0 && first[|first| - 1] != '\r'
    requires s == first + "\n" + second
    ensures SplitLines(s) == [first, second]
  {
    var k := |first|;
    assert s[k] == '\n' && s[k - 1] != '\r';
    forall j | 0 <= j < k
      ensures s[j] != '\n'
    {
      assert s[j] == first[j];
    }
    assert NextLineFeed(s, 0) == k;
    assert s[k + 1..] == second;
    assert SplitLines(second) == [second];
    assert LineBefore(s, k) == first;
  }

  lemma OpenerLineSplit(line: string, block: string)
    requires block == "/**\n" + line && '\n' !in line
    ensures SplitLines(block) == ["/**", line]
  {
    assert block == "/**" + "\n" + line;
    LfTwoLines("/**", line, block);
  }

  /** The translation of a block made of the opener line and one comment line. */
  lemma OpenerLineTranslation(line: string, out: string, block: string)
    requires block == "/**\n" + line && '\n' !in line && IsStarLine(line) && TranslateLine(line) == out
    requires !HasJapanese(block)
    ensures TranslateBlock(block) == Some("/**\n" + out)
  {
    OpenerLineSplit(line, block);
    PlainLedIsNotStarLine("/**");
    TwoLinesTranslated("/**", line);
    TwoLinesJoined("/**", out);
    OpenerJoined(out);
    BlockFromLines(block, ["/**", line], "/**\n" + out);
  }

  lemma OpenerJoined(out: string)
    ensures "/**" + "\n" + out == "/**\n" + out
  {
  }

  /** `translateBlock` from the split of a block and the join of its translated lines. */
  lemma BlockFromLines(block: string, lines: seq<string>, out: string)
    requires !HasJapanese(block) && SplitLines(block) == lines
    requires JoinLines(TranslateLines(lines)) == out
    ensures TranslateBlock(block) == Some(out)
  {
  }

  lemma TwoLinesTranslated(a: string, b: string)
    ensures TranslateLines([a, b]) == [TranslateComment(a), TranslateComment(b)]
  {
    assert [a, b][1..] == [b];
  }

  lemma TwoLinesJoined(a: string, b: string)
    ensures JoinLines([a, b]) == a + "\n" + b
  {
    assert [a, b][1..] == [b];
  }

  /** The first block of a text that starts with the opener line and a closing line. */
  lemma OpenerLineBlock(line: string, rest: string, s: string)
    requires s == "/**\n" + line + rest && ClosingLine(line)
    ensures FindDocBlock(s) == Some(Span(0, 4 + |line|))
    ensures s[0..4 + |line|] == "/**\n" + line && s[4 + |line|..] == rest
  {
    var q := 2 + |line|;
    assert s[..3] == "/**";
    IndexOfFirst(s, "/**", 0, 0);
    assert s[q] == line[|line| - 2] && s[q + 1] == line[|line| - 1];
    assert s[q..q + 2] == "*/";
    forall k | 3 <= k < q
      ensures !LiteralAt(s, k, "*/")
    {
      assert s[k..k + 2][0] == s[k] && s[k..k + 2][1] == s[k + 1];
      if k > 3 {
        assert s[k] == line[k - 4] && s[k + 1] == line[k - 3];
      }
    }
    IndexOfFirst(s, "*/", 3, q);
  }

  /** A bulleted ASCII line is a plain ASCII block once the opener line is put before it. */
  lemma OpenerLineAscii(line: string, block: string)
    requires AllAscii(line) && block == "/**\n" + line
    ensures AllAscii(block)
  {
    forall k | 0 <= k < |block|
      ensures IsAscii(block[k])
    {
      if k >= 4 {
        assert block[k] == line[k - 4];
      }
    }
  }

  /**
   A file made of the opener line, a closing line and any text after the
   closer: when the rules change the line, the rewrite replaces it by its
   translation and keeps the text after the closer.
   */
  lemma OpenerLineRewrite(line: string, out: string, rest: string, s: string)
    requires s == "/**\n" + line + rest && ClosingLine(line)
    requires TranslateLine(line) == out && out != line
    ensures Rewritten(s) == Some("/**\n" + out + rest)
  {
    var b := Span(0, 4 + |line|);
    var block := "/**\n" + line;
    var t := "/**\n" + out;
    OpenerLineBlock(line, rest, s);
    LineExamples.BulletPrefix(line);
    OpenerLineAscii(line, block);
    AsciiHasNoJapanese(block);
    OpenerLineTranslation(line, out, block);
    assert t[4..] == out && block[4..] == line;
    DecideFromParts(s, b, t);
    assert Splice(s, b, t) == t + rest;
  }

  lemma DrawChangeClosing(line: string)
    requires line == " * draw change x */"
    ensures ClosingLine(line)
  {
  }

  lemma ChangeClosing(line: string)
    requires line == " * change x */"
    ensures ClosingLine(line)
  {
  }

  lemma FirstRunInput(s1: string, line: string)
    requires s1 == "/**\n * draw change x */" && line == " * draw change x */"
    ensures s1 == "/**\n" + line + ""
  {
  }

  lemma FirstRunOutput(s2: string, out: string)
    requires s2 == "/**\n * change x */を描画します。" && out == " * change x */を描画します。"
    ensures s2 == "/**\n" + out + ""
  {
  }

  lemma SecondRunInput(s2: string, line: string)
    requires s2 == "/**\n * change x */を描画します。" && line == " * change x */"
    ensures s2 == "/**\n" + line + "を描画します。"
  {
  }

  lemma SecondRunOutput(s3: string, out: string)
    requires s3 == "/**\n * x */を変化させます。を描画します。" && out == " * x */を変化させます。"
    ensures s3 == "/**\n" + out + "を描画します。"
  {
  }

  /** The first run over the sample file: the `draws?` rule moves the closer before its suffix. */
  lemma VerbFileFirstRun(s1: string, s2: string)
    requires s1 == "/**\n * draw change x */" && s2 == "/**\n * change x */を描画します。"
    ensures Rewritten(s1) == Some(s2)
  {
    var line := " * draw change x */";
    var out := " * change x */を描画します。";
    LineExamples.DrawChangeLine(line, out);
    DrawChangeClosing(line);
    FirstRunInput(s1, line);
    FirstRunOutput(s2, out);
    OpenerLineRewrite(line, out, "", s1);
  }

  /**
   The second run over the output of the first: the block now ends before
   the Japanese suffix, its line starts with `change`, and the rewrite
   changes the file again.
   */
  lemma VerbFileSecondRun(s2: string, s3: string)
    requires s2 == "/**\n * change x */を描画します。" && s3 == "/**\n * x */を変化させます。を描画します。"
    ensures Rewritten(s2) == Some(s3)
  {
    var line := " * change x */";
    var out := " * x */を変化させます。";
    LineExamples.ChangeLine(line, out);
    ChangeClosing(line);
    SecondRunInput(s2, line);
    SecondRunOutput(s3, out);
    OpenerLineRewrite(line, out, "を描画します。", s2);
  }

  /**
   Running the tool over its own output is not always a no-op: on a block
   whose one comment line carries the closer, a leading verb rule appends
   its suffix after the closer, outside the block, and a second leading verb
   is translated by the next run.
   */
  lemma VerbOnClosingLineRewritesTwice(s1: string, s2: string, s3: string)
    requires s1 == "/**\n * draw change x */"
    requires s2 == "/**\n * change x */を描画します。"
    requires s3 == "/**\n * x */を変化させます。を描画します。"
    ensures Rewritten(s1) == Some(s2)
    ensures Rewritten(s2) == Some(s3)
  {
    VerbFileFirstRun(s1, s2);
    VerbFileSecondRun(s2, s3);
  }
}
