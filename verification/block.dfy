/**
 `hasJapanese` and `translateBlock` of scripts/translate-comments_02M.js: the
 already-translated gate, the split of a documentation block into lines on
 `\r?\n`, the per-line classification, and the rejoin with `\n`.
 */
module Block {
  import opened Wrappers
  import opened Text
  import opened Rules
  import RuleFacts

  /** Hiragana and Katakana (U+3040..U+30FF) or CJK Unified Ideographs (U+4E00..U+9FFF). */
  predicate IsJapanese(c: char) {
    var n := c as int;
    (0x3040 <= n <= 0x30FF) || (0x4E00 <= n <= 0x9FFF)
  }

  /** `hasJapanese`: the character class test of the whole text. */
  function HasJapanese(t: string): (r: bool)
    ensures r <==> exists k :: 0 <= k < |t| && IsJapanese(t[k])
  {
    if |t| == 0 then false
    else if IsJapanese(t[0]) then true
    else
      var r := HasJapanese(t[1..]);
      assert forall k :: 1 <= k < |t| ==> t[k] == t[1..][k - 1];
      r
  }

  /** Plain ASCII text holds no Japanese. */
  lemma AsciiHasNoJapanese(s: string)
    requires AllAscii(s)
    ensures !HasJapanese(s)
  {
    forall k | 0 <= k < |s|
      ensures !IsJapanese(s[k])
    {
      assert IsAscii(s[k]);
    }
  }

  // ---------------------------------------------------------------------------
  // Lines
  // ---------------------------------------------------------------------------

  /** The first line feed at or after `i`, or `|s|` when there is none. */
  function NextLineFeed(s: string, i: nat): (k: nat)
    requires i <= |s|
    ensures i <= k <= |s|
    ensures k == |s| || s[k] == '\n'
    ensures forall j :: i <= j < k ==> s[j] != '\n'
    decreases |s| - i
  {
    if i == |s| || s[i] == '\n' then i else NextLineFeed(s, i + 1)
  }

  /** The text before the line feed at `k`, without the carriage return that `\r?\n` takes along. */
  function LineBefore(s: string, k: nat): string
    requires k <= |s|
  {
    if k > 0 && s[k - 1] == '\r' then s[..k - 1] else s[..k]
  }

  /** `block.split(/\r?\n/)`. */
  function SplitLines(s: string): (lines: seq<string>)
    ensures |lines| == CountChar(s, '\n') + 1
    ensures forall k :: 0 <= k < |lines| ==> '\n' !in lines[k]
    decreases |s|
  {
    var k := NextLineFeed(s, 0);
    if k == |s| then
      CountLineFeeds(s, k);
      [s]
    else
      CountLineFeeds(s, k);
      [LineBefore(s, k)] + SplitLines(s[k + 1..])
  }

  /** Splitting at the first line feed `k` splits the count of line feeds there. */
  lemma CountLineFeeds(s: string, k: nat)
    requires k <= |s|
    requires forall j :: 0 <= j < k ==> s[j] != '\n'
    requires k == |s| || s[k] == '\n'
    ensures k == |s| ==> CountChar(s, '\n') == 0
    ensures k < |s| ==> CountChar(s, '\n') == 1 + CountChar(s[k + 1..], '\n')
    ensures '\n' !in LineBefore(s, k)
  {
    assert '\n' !in s[..k];
    CountCharAbsent(s[..k], '\n');
    if k == |s| {
      assert s[..k] == s;
    } else {
      assert s == s[..k] + ([s[k]] + s[k + 1..]);
      CountCharAppend(s[..k], [s[k]] + s[k + 1..], '\n');
      CountCharAppend([s[k]], s[k + 1..], '\n');
    }
  }

  /** `lines.join('\n')`. */
  function JoinLines(lines: seq<string>): string
    decreases |lines|
  {
    if |lines| == 0 then ""
    else if |lines| == 1 then lines[0]
    else lines[0] + "\n" + JoinLines(lines[1..])
  }

  /** Joining lines free of line feeds puts exactly one line feed between neighbours. */
  lemma {:induction false} JoinLinesCount(lines: seq<string>)
    requires |lines| > 0
    requires forall k :: 0 <= k < |lines| ==> '\n' !in lines[k]
    ensures CountChar(JoinLines(lines), '\n') == |lines| - 1
    decreases |lines|
  {
    CountCharAbsent(lines[0], '\n');
    if |lines| > 1 {
      var rest := JoinLines(lines[1..]);
      JoinLinesCount(lines[1..]);
      CountCharAppend(lines[0], "\n" + rest, '\n');
      CountCharAppend("\n", rest, '\n');
      assert lines[0] + "\n" + rest == lines[0] + ("\n" + rest);
    }
  }

  /** The effect of the split and rejoin on the text itself: each `\r` right before a `\n` disappears. */
  function Normalize(s: string): string
    decreases |s|
  {
    if |s| == 0 then ""
    else if |s| >= 2 && s[0] == '\r' && s[1] == '\n' then Normalize(s[1..])
    else [s[0]] + Normalize(s[1..])
  }

  /** One step of `Normalize` on a text that does not start with CRLF. */
  lemma NormalizeKeepsFirst(s: string)
    requires |s| > 0
    requires !(|s| >= 2 && s[0] == '\r' && s[1] == '\n')
    ensures Normalize(s) == [s[0]] + Normalize(s[1..])
  {
  }

  /** `Normalize` of a text whose first line feed is at `k`, cut there. */
  lemma {:induction false} NormalizeFirstLine(s: string, k: nat)
    requires k < |s| && s[k] == '\n'
    requires forall j :: 0 <= j < k ==> s[j] != '\n'
    ensures Normalize(s) == LineBefore(s, k) + "\n" + Normalize(s[k + 1..])
    decreases k
  {
    if k == 0 {
      NormalizeAtLineFeed(s);
    } else if k == 1 && s[0] == '\r' {
      NormalizeAtCrLf(s);
    } else {
      var t := s[1..];
      assert forall j :: 0 <= j < k - 1 ==> t[j] == s[j + 1];
      NormalizeFirstLine(t, k - 1);
      assert t[k..] == s[k + 1..];
      NormalizeStep(s, k);
    }
  }

  /** The inductive step of `NormalizeFirstLine`: a first character that is not part of a CRLF is kept. */
  lemma NormalizeStep(s: string, k: nat)
    requires 0 < k < |s| && s[k] == '\n'
    requires !(k == 1 && s[0] == '\r')
    requires k > 1 ==> s[1] != '\n'
    requires Normalize(s[1..]) == LineBefore(s[1..], k - 1) + "\n" + Normalize(s[k + 1..])
    ensures Normalize(s) == LineBefore(s, k) + "\n" + Normalize(s[k + 1..])
  {
    var a := LineBefore(s[1..], k - 1);
    var n := Normalize(s[k + 1..]);
    NormalizeKeepsFirst(s);
    LineBeforeShift(s, k);
    assert Normalize(s) == [s[0]] + (a + "\n" + n);
    Regroup(s[0], a, n);
  }

  lemma Regroup(c: char, a: string, n: string)
    ensures [c] + (a + "\n" + n) == ([c] + a) + "\n" + n
  {
  }

  lemma NormalizeAtLineFeed(s: string)
    requires 0 < |s| && s[0] == '\n'
    ensures Normalize(s) == LineBefore(s, 0) + "\n" + Normalize(s[1..])
  {
    NormalizeKeepsFirst(s);
    assert LineBefore(s, 0) == "";
  }

  lemma NormalizeAtCrLf(s: string)
    requires 1 < |s| && s[0] == '\r' && s[1] == '\n'
    ensures Normalize(s) == LineBefore(s, 1) + "\n" + Normalize(s[2..])
  {
    assert Normalize(s) == Normalize(s[1..]);
    NormalizeAtLineFeed(s[1..]);
    assert s[1..][1..] == s[2..];
    assert LineBefore(s, 1) == "";
  }

  /** Dropping the first character of a line that is longer than one character. */
  lemma LineBeforeShift(s: string, k: nat)
    requires 0 < k <= |s|
    requires !(k == 1 && s[0] == '\r')
    ensures LineBefore(s, k) == [s[0]] + LineBefore(s[1..], k - 1)
  {
    if k > 1 && s[k - 1] == '\r' {
      assert s[..k - 1] == [s[0]] + s[1..][..k - 2];
    } else {
      assert s[..k] == [s[0]] + s[1..][..k - 1];
    }
  }

  /** Splitting on `\r?\n` and joining with `\n` turns every CRLF into LF and changes nothing else. */
  lemma {:induction false} JoinSplitNormalizes(s: string)
    ensures JoinLines(SplitLines(s)) == Normalize(s)
    decreases |s|
  {
    var k := NextLineFeed(s, 0);
    if k == |s| {
      NormalizeWithoutLineFeed(s);
    } else {
      JoinSplitNormalizes(s[k + 1..]);
      NormalizeFirstLine(s, k);
      var tail := SplitLines(s[k + 1..]);
      assert SplitLines(s) == [LineBefore(s, k)] + tail;
      assert ([LineBefore(s, k)] + tail)[1..] == tail;
    }
  }

  /** Without a line feed there is no CRLF to drop. */
  lemma {:induction false} NormalizeWithoutLineFeed(s: string)
    requires forall j :: 0 <= j < |s| ==> s[j] != '\n'
    ensures Normalize(s) == s
    decreases |s|
  {
    if |s| > 0 {
      NormalizeWithoutLineFeed(s[1..]);
      assert s == [s[0]] + s[1..];
    }
  }

  /** A text without carriage returns is already normal. */
  lemma {:induction false} NormalizeWithoutCarriageReturn(s: string)
    requires '\r' !in s
    ensures Normalize(s) == s
    decreases |s|
  {
    if |s| > 0 {
      assert s == [s[0]] + s[1..];
      assert '\r' !in s[1..];
      NormalizeWithoutCarriageReturn(s[1..]);
    }
  }

  // ---------------------------------------------------------------------------
  // The block
  // ---------------------------------------------------------------------------

  /**
   The callback of `lines.map` in `translateBlock`: a comment line is
   translated and stays a comment line; any other line is kept as it is.
   */
  function TranslateComment(l: string): (r: string)
    ensures !IsStarLine(l) ==> r == l
    ensures IsStarLine(l) ==> r == TranslateLine(l) && IsStarLine(r)
    ensures '\n' !in l ==> '\n' !in r
  {
    RuleFacts.TranslateLineKeepsShape(l);
    if IsStarLine(l) then TranslateLine(l) else l
  }

  /** `lines.map(...)`: each line through the callback, in order. */
  function TranslateLines(lines: seq<string>): (r: seq<string>)
    ensures |r| == |lines|
    ensures forall k :: 0 <= k < |lines| ==> r[k] == TranslateComment(lines[k])
    decreases |lines|
  {
    if |lines| == 0 then []
    else [TranslateComment(lines[0])] + TranslateLines(lines[1..])
  }

  /**
   `translateBlock`: nothing when the block already holds Japanese, otherwise
   the block with its comment lines translated and its lines joined by `\n`.
   */
  function TranslateBlock(block: string): (r: Option<string>)
    ensures r.None? <==> HasJapanese(block)
    ensures r.Some? ==> CountChar(r.value, '\n') == CountChar(block, '\n')
    ensures r.Some? ==> |SplitLines(r.value)| == |SplitLines(block)|
  {
    if HasJapanese(block) then None
    else
      var lines := SplitLines(block);
      var out := TranslateLines(lines);
      JoinLinesCount(out);
      Some(JoinLines(out))
  }

  /**
   When the rules change no comment line, translation only turns the block's
   CRLF line ends into LF: the block comes back as it was exactly when it has
   no carriage return before a line feed.
   */
  lemma UnchangedLinesOnlyNormalize(block: string)
    requires !HasJapanese(block)
    requires forall k :: 0 <= k < |SplitLines(block)| && IsStarLine(SplitLines(block)[k]) ==>
      TranslateLine(SplitLines(block)[k]) == SplitLines(block)[k]
    ensures TranslateBlock(block) == Some(Normalize(block))
  {
    var lines := SplitLines(block);
    assert TranslateLines(lines) == lines;
    JoinSplitNormalizes(block);
  }

  // ---------------------------------------------------------------------------
  // The opening line
  // ---------------------------------------------------------------------------

  /** A line that starts with neither whitespace nor a star is not a comment line, whatever follows. */
  lemma PlainLedIsNotStarLine(s: string)
    requires |s| > 0 && !IsJsSpace(s[0]) && s[0] != '*'
    ensures !IsStarLine(s)
  {
    assert !IsJsSpace(s[0]);
    assert SkipSpaces(s, 0) == 0;
  }

  /**
   The first line `split` returns keeps the first three characters of a text
   when no line feed is among them and the third is not a carriage return.
   */
  lemma FirstLineKeepsOpener(s: string)
    requires |s| >= 3 && '\n' !in s[..3] && s[2] != '\r'
    ensures |SplitLines(s)[0]| >= 3 && SplitLines(s)[0][..3] == s[..3]
  {
    var k := NextLineFeed(s, 0);
    assert s[..3][0] == s[0] && s[..3][1] == s[1] && s[..3][2] == s[2];
    assert k >= 3;
    if k == |s| {
      assert SplitLines(s)[0] == s;
    } else {
      assert SplitLines(s)[0] == LineBefore(s, k);
      if s[k - 1] == '\r' {
        assert k > 3;
        assert s[..k - 1][..3] == s[..3];
      } else {
        assert s[..k][..3] == s[..3];
      }
    }
  }

  /** Joining starts with the first line. */
  lemma JoinLinesStartsWithFirst(lines: seq<string>)
    requires |lines| > 0
    ensures |JoinLines(lines)| >= |lines[0]| && JoinLines(lines)[..|lines[0]|] == lines[0]
  {
  }

  /** Lines whose first starts with the opener still start with it once translated and joined. */
  lemma JoinedTranslationKeepsOpener(lines: seq<string>)
    requires |lines| > 0 && |lines[0]| >= 3 && lines[0][..3] == "/**"
    ensures LiteralAt(JoinLines(TranslateLines(lines)), 0, "/**")
  {
    assert lines[0][..3][0] == lines[0][0];
    PlainLedIsNotStarLine(lines[0]);
    var out := TranslateLines(lines);
    assert out[0] == lines[0];
    JoinLinesStartsWithFirst(out);
    assert JoinLines(out)[..3] == lines[0][..3];
  }

  /**
   The opener of a documentation block survives translation: its line
   starts with a slash, so it is never a comment line, and it is the first
   line of the join.
   */
  lemma TranslationKeepsOpener(block: string)
    requires LiteralAt(block, 0, "/**")
    requires !HasJapanese(block)
    ensures LiteralAt(TranslateBlock(block).value, 0, "/**")
  {
    assert block[..3] == "/**";
    FirstLineKeepsOpener(block);
    var lines := SplitLines(block);
    JoinedTranslationKeepsOpener(lines);
    assert TranslateBlock(block) == Some(JoinLines(TranslateLines(lines)));
  }
}
