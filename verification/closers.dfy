/**
 The closer (star, slash) of a documentation block survives `translateLine`
 and `translateBlock` of scripts/translate-comments_02M.js: no literal of a
 global rule holds a star, no verb form holds a slash, and a verb rule keeps
 every character from its capture on. So the translation of a block still
 holds a closer after its opener, and a rewritten file still has a block
 where the old one started.
 */
module Closers {
  import opened Wrappers
  import opened Text
  import opened Rules
  import RuleFacts
  import opened Block

  /** No literal of the pattern holds a star. */
  predicate StarFree(p: Pattern) {
    match p
    case Bounded(w) => '*' !in w
    case Folded(alts) => forall a :: a in alts ==> '*' !in a
  }

  /** What a rule needs so that it cannot break a closer: letter-led, star-free literals or slash-free verb forms. */
  predicate KeepsClosers(r: Rule) {
    match r
    case Global(p, _) => RuleFacts.LetterLed(p) && StarFree(p)
    case Leading(verbs, _) => forall v :: v in verbs ==> '/' !in v
  }

  /** Every rule of `rules[lo..hi]` keeps closers. */
  predicate KeepClosersIn(rules: seq<Rule>, lo: nat, hi: nat)
    requires lo <= hi <= |rules|
  {
    forall i :: lo <= i < hi ==> KeepsClosers(rules[i])
  }

  /** Two halves that keep closers make a section that does. */
  lemma HalvesKeepClosers(rules: seq<Rule>, m: nat)
    requires m <= |rules| && KeepClosersIn(rules, 0, m) && KeepClosersIn(rules, m, |rules|)
    ensures forall r :: r in rules ==> KeepsClosers(r)
  {
    forall r | r in rules
      ensures KeepsClosers(r)
    {
      var i :| 0 <= i < |rules| && rules[i] == r;
    }
  }

  lemma HeadersKeepClosers()
    ensures forall r :: r in Headers ==> KeepsClosers(r)
  {
  }

  lemma LegendsFrontKeepClosers()
    ensures KeepClosersIn(Legends, 0, 5)
  {
  }

  lemma LegendsBackKeepClosers()
    ensures KeepClosersIn(Legends, 5, 9)
  {
  }

  lemma LegendsKeepClosers()
    ensures forall r :: r in Legends ==> KeepsClosers(r)
  {
    LegendsFrontKeepClosers();
    LegendsBackKeepClosers();
    HalvesKeepClosers(Legends, 5);
  }

  lemma SaveActionsKeepClosers()
    ensures forall r :: r in SaveActions ==> KeepsClosers(r)
  {
  }

  lemma KeysFrontKeepClosers()
    ensures KeepClosersIn(Keys, 0, 5)
  {
  }

  lemma KeysBackKeepClosers()
    ensures KeepClosersIn(Keys, 5, 10)
  {
  }

  lemma KeysKeepClosers()
    ensures forall r :: r in Keys ==> KeepsClosers(r)
  {
    KeysFrontKeepClosers();
    KeysBackKeepClosers();
    HalvesKeepClosers(Keys, 5);
  }

  lemma EntitiesFrontKeepClosers()
    ensures KeepClosersIn(Entities, 0, 3)
  {
  }

  lemma EntitiesBackKeepClosers()
    ensures KeepClosersIn(Entities, 3, 6)
  {
  }

  lemma EntitiesKeepClosers()
    ensures forall r :: r in Entities ==> KeepsClosers(r)
  {
    EntitiesFrontKeepClosers();
    EntitiesBackKeepClosers();
    HalvesKeepClosers(Entities, 3);
  }

  lemma AttributesFrontKeepClosers()
    ensures KeepClosersIn(Attributes, 0, 4)
  {
  }

  lemma AttributesMiddleKeepClosers()
    ensures KeepClosersIn(Attributes, 4, 8)
  {
  }

  lemma AttributesLateKeepClosers()
    ensures KeepClosersIn(Attributes, 8, 12)
  {
  }

  lemma AttributesBackKeepClosers()
    ensures KeepClosersIn(Attributes, 12, 16)
  {
  }

  lemma AttributesKeepClosers()
    ensures forall r :: r in Attributes ==> KeepsClosers(r)
  {
    AttributesFrontKeepClosers();
    AttributesMiddleKeepClosers();
    AttributesLateKeepClosers();
    AttributesBackKeepClosers();
    HalvesKeepClosers(Attributes, 8);
  }

  lemma ActionsKeepClosers()
    ensures forall r :: r in Actions ==> KeepsClosers(r)
  {
  }

  lemma VerbsKeepClosers()
    ensures forall r :: r in Verbs ==> KeepsClosers(r)
  {
  }

  lemma TableKeepsClosers()
    ensures forall r :: r in Table ==> KeepsClosers(r)
  {
    HeadersKeepClosers();
    LegendsKeepClosers();
    SaveActionsKeepClosers();
    KeysKeepClosers();
    EntitiesKeepClosers();
    AttributesKeepClosers();
    ActionsKeepClosers();
    VerbsKeepClosers();
  }

  // ---------------------------------------------------------------------------
  // Positions of a closer
  // ---------------------------------------------------------------------------

  lemma CloserChars(s: string, k: nat)
    requires LiteralAt(s, k, "*/")
    ensures k + 1 < |s| && s[k] == '*' && s[k + 1] == '/'
  {
    assert s[k..k + 2][0] == s[k] && s[k..k + 2][1] == s[k + 1];
  }

  lemma CloserFromChars(s: string, k: nat)
    requires k + 1 < |s| && s[k] == '*' && s[k + 1] == '/'
    ensures LiteralAt(s, k, "*/")
  {
    assert s[k..k + 2] == [s[k], s[k + 1]];
  }

  /** A closer keeps its place when text is appended, and moves by the length of text put in front. */
  lemma CloserInContext(x: string, t: string, z: string, k: nat)
    requires LiteralAt(t, k, "*/")
    ensures LiteralAt(x + t + z, |x| + k, "*/")
  {
    CloserChars(t, k);
    var o := x + t + z;
    assert o[|x| + k] == t[k] && o[|x| + k + 1] == t[k + 1];
    CloserFromChars(o, |x| + k);
  }

  /** A closer inside a slice. */
  lemma CloserInSlice(s: string, i: nat, j: nat, k: nat)
    requires i <= k && k + 2 <= j <= |s| && LiteralAt(s, k, "*/")
    ensures LiteralAt(s[i..j], k - i, "*/")
  {
    CloserChars(s, k);
    assert s[i..j][k - i] == s[k] && s[i..j][k - i + 1] == s[k + 1];
    CloserFromChars(s[i..j], k - i);
  }

  // ---------------------------------------------------------------------------
  // Global rules
  // ---------------------------------------------------------------------------

  /** A code unit that folds to a pattern character other than a star is not a star. */
  lemma FoldsToNonStar(c: char, d: char)
    requires FoldEq(c, d) && d != '*'
    ensures c != '*'
  {
  }

  /** A code unit that folds to a pattern character other than a slash is not a slash. */
  lemma FoldsToNonSlash(c: char, d: char)
    requires FoldEq(c, d) && d != '/'
    ensures c != '/'
  {
  }

  /** The text a match of a star-free pattern covers holds no star. */
  lemma MatchHasNoStar(p: Pattern, s: string, i: nat)
    requires StarFree(p) && MatchAt(p, s, i).Some?
    ensures forall x :: i <= x < i + MatchAt(p, s, i).value ==> s[x] != '*'
  {
    var n := MatchAt(p, s, i).value;
    match p
    case Bounded(w) =>
      forall x | i <= x < i + n
        ensures s[x] != '*'
      {
        assert s[i..i + |w|][x - i] == s[x];
        assert w[x - i] in w;
      }
    case Folded(alts) =>
      var m :| 0 <= m < |alts| && FirstFolding(alts, s, i, m) && n == |alts[m]|;
      var w := alts[m];
      assert w in alts;
      forall x | i <= x < i + n
        ensures s[x] != '*'
      {
        assert w[x - i] in w;
        FoldsToNonStar(s[i + (x - i)], w[x - i]);
      }
  }

  /** A match of a star-free pattern that starts at or before a star ends before it. */
  lemma MatchStopsBeforeStar(p: Pattern, s: string, i: nat, k: nat)
    requires StarFree(p) && i <= k < |s| && s[k] == '*'
    requires MatchAt(p, s, i).Some?
    ensures i + MatchAt(p, s, i).value <= k
  {
    MatchHasNoStar(p, s, i);
  }

  /** The replace at a closer copies it. */
  lemma ReplaceAtCloser(p: Pattern, rep: Word, s: string, k: nat)
    requires RuleFacts.LetterLed(p) && LiteralAt(s, k, "*/")
    ensures LiteralAt(ReplaceFrom(p, rep, s, k), 0, "*/")
  {
    CloserChars(s, k);
    RuleFacts.NoMatchAtNonLetter(p, s, k);
    RuleFacts.NoMatchAtNonLetter(p, s, k + 1);
    RuleFacts.ReplaceStep(p, rep, s, k);
    RuleFacts.ReplaceStep(p, rep, s, k + 1);
    CloserFromChars(ReplaceFrom(p, rep, s, k), 0);
  }

  /** A closer moves by the length of the text put in front of it. */
  lemma CloserAfter(x: string, t: string, o: string, k: nat)
    requires o == x + t && LiteralAt(t, k, "*/")
    ensures LiteralAt(o, |x| + k, "*/")
  {
    CloserInContext(x, t, [], k);
    assert x + t + [] == o;
  }

  /** One step of a replace: what it emits at `i`, and where it resumes. */
  lemma ReplaceNext(p: Pattern, rep: Word, s: string, i: nat) returns (front: string, j: nat)
    requires i < |s|
    ensures i < j <= |s|
    ensures ReplaceFrom(p, rep, s, i) == front + ReplaceFrom(p, rep, s, j)
    ensures MatchAt(p, s, i).None? ==> j == i + 1
    ensures MatchAt(p, s, i).Some? ==> j == i + MatchAt(p, s, i).value
  {
    RuleFacts.ReplaceStep(p, rep, s, i);
    var m := MatchAt(p, s, i);
    front := if m.Some? then rep else [s[i]];
    j := if m.Some? then i + m.value else i + 1;
  }

  /** A global replace from a position at or before a closer keeps a closer in its output. */
  lemma {:induction false} ReplaceKeepsCloser(p: Pattern, rep: Word, s: string, i: nat, k: nat) returns (k': nat)
    requires RuleFacts.LetterLed(p) && StarFree(p)
    requires i <= k && LiteralAt(s, k, "*/")
    ensures LiteralAt(ReplaceFrom(p, rep, s, i), k', "*/")
    decreases |s| - i
  {
    if i == k {
      ReplaceAtCloser(p, rep, s, k);
      k' := 0;
    } else {
      CloserChars(s, k);
      var front, j := ReplaceNext(p, rep, s, i);
      if MatchAt(p, s, i).Some? {
        MatchStopsBeforeStar(p, s, i, k);
      }
      var k1 := ReplaceKeepsCloser(p, rep, s, j, k);
      CloserAfter(front, ReplaceFrom(p, rep, s, j), ReplaceFrom(p, rep, s, i), k1);
      k' := |front| + k1;
    }
  }

  // ---------------------------------------------------------------------------
  // Leading verb rules
  // ---------------------------------------------------------------------------

  /** A verb form without a slash, matched at `b`, puts no slash there. */
  lemma VerbHasNoSlash(s: string, b: nat, v: Word)
    requires FoldsAt(s, b, v) && '/' !in v
    ensures forall x :: b <= x < b + |v| ==> s[x] != '/'
  {
    forall x | b <= x < b + |v|
      ensures s[x] != '/'
    {
      var y := x - b;
      assert FoldEq(s[b + y], v[y]);
      assert v[y] in v;
      FoldsToNonSlash(s[b + y], v[y]);
    }
  }

  /** Whitespace holds no slash and no star. */
  lemma SpacesHaveNoSlash(s: string, i: nat)
    requires i <= |s|
    ensures forall x :: i <= x < SkipSpaces(s, i) ==> s[x] != '/' && s[x] != '*'
  {
  }

  /**
   A line start made of whitespace, a star, whitespace, slash-free text and
   whitespace again holds no slash, and its last character is whitespace.
   */
  lemma PrefixHasNoSlash(s: string, a: nat, b: nat, j0: nat, start: nat)
    requires a < b <= j0 < start <= |s|
    requires forall x :: 0 <= x < a ==> IsJsSpace(s[x])
    requires s[a] == '*'
    requires forall x :: a < x < b ==> IsJsSpace(s[x])
    requires forall x :: b <= x < j0 ==> s[x] != '/'
    requires forall x :: j0 <= x < start ==> IsJsSpace(s[x])
    ensures forall x :: 0 <= x < start ==> s[x] != '/'
    ensures s[start - 1] != '*'
  {
  }

  /** The pieces of a line a verb rule matches, up to its capture. */
  lemma CaptureParts(verbs: seq<Word>, s: string) returns (a: nat, b: nat, v: Word, j0: nat)
    requires LeadCapture(verbs, s).Some?
    ensures var start := LeadCapture(verbs, s).value.start;
      a < b <= j0 < start <= |s| && v in verbs && FoldsAt(s, b, v) && j0 == b + |v| &&
      (forall x :: 0 <= x < a ==> IsJsSpace(s[x])) && s[a] == '*' &&
      (forall x :: a < x < b ==> IsJsSpace(s[x])) &&
      (forall x :: j0 <= x < start ==> IsJsSpace(s[x]))
  {
    var start := LeadCapture(verbs, s).value.start;
    a := SkipSpaces(s, 0);
    b := StarPrefix(s).value;
    assert b == SkipSpaces(s, a + 1);
    var n :| 0 <= n < |verbs| && CapturedBy(verbs, s, b, n, start);
    v := verbs[n];
    j0 := b + |v|;
    var j := SkipSpaces(s, j0);
    assert j0 + 1 <= start <= j;
  }

  /**
   What comes before the capture of a verb rule: no slash (it is whitespace,
   the leading star and verb letters), and whitespace right before it.
   */
  lemma BeforeCapture(verbs: seq<Word>, s: string)
    requires forall v :: v in verbs ==> '/' !in v
    requires LeadCapture(verbs, s).Some?
    ensures var c := LeadCapture(verbs, s).value;
      (forall x :: 0 <= x < c.start ==> s[x] != '/') && s[c.start - 1] != '*'
  {
    var a, b, v, j0 := CaptureParts(verbs, s);
    VerbHasNoSlash(s, b, v);
    PrefixHasNoSlash(s, a, b, j0, LeadCapture(verbs, s).value.start);
  }

  /** The capture of a verb rule starts at or before any closer of the line. */
  lemma CaptureStartsBeforeCloser(verbs: seq<Word>, s: string, k: nat)
    requires forall v :: v in verbs ==> '/' !in v
    requires LeadCapture(verbs, s).Some? && LiteralAt(s, k, "*/")
    ensures LeadCapture(verbs, s).value.start <= k
  {
    CloserChars(s, k);
    BeforeCapture(verbs, s);
  }

  /** A closer that ends before the line end stays in the capture a verb rule writes back. */
  lemma BulletKeepsCloserInCapture(x: string, suffix: string, y: string, k: nat)
    requires LiteralAt(x, k, "*/")
    ensures LiteralAt(" * " + (x + suffix + y), 3 + k, "*/")
  {
    CloserInContext(" * ", x, suffix + y, k);
    assert " * " + x + (suffix + y) == " * " + (x + suffix + y);
  }

  /** A closer after the line end stays after the suffix a verb rule inserts. */
  lemma BulletKeepsCloserAfter(x: string, suffix: string, y: string, k: nat)
    requires LiteralAt(y, k, "*/")
    ensures LiteralAt(" * " + (x + suffix + y), 3 + |x| + |suffix| + k, "*/")
  {
    CloserInContext(" * " + (x + suffix), y, [], k);
    assert " * " + (x + suffix) + y + [] == " * " + (x + suffix + y);
  }

  /** Where a closer of the line sits relative to the capture: inside it, or at or after its end. */
  lemma CloserAroundCaptureEnd(s: string, start: nat, k: nat)
    requires start <= k && LiteralAt(s, k, "*/")
    ensures var e := LineEnd(s, start); k + 2 <= e || e <= k
  {
    CloserChars(s, k);
  }

  /** A closer in the text from `i` on. */
  lemma CloserInTail(s: string, i: nat, k: nat)
    requires i <= k && LiteralAt(s, k, "*/")
    ensures LiteralAt(s[i..], k - i, "*/")
  {
    CloserChars(s, k);
    assert s[i..][k - i] == s[k] && s[i..][k - i + 1] == s[k + 1];
    CloserFromChars(s[i..], k - i);
  }

  /** A verb rule that matches keeps a closer of the line, in the capture or after the line end. */
  lemma MatchedVerbKeepsCloser(x: string, suffix: string, y: string, s: string, start: nat, end: nat, k: nat, o: string)
    returns (k': nat)
    requires start <= k && start <= end <= |s| && LiteralAt(s, k, "*/")
    requires k + 2 <= end || end <= k
    requires x == s[start..end] && y == s[end..] && o == " * " + (x + suffix + y)
    ensures LiteralAt(o, k', "*/")
  {
    if k + 2 <= end {
      CloserInSlice(s, start, end, k);
      BulletKeepsCloserInCapture(x, suffix, y, k - start);
      k' := 3 + (k - start);
    } else {
      CloserInTail(s, end, k);
      BulletKeepsCloserAfter(x, suffix, y, k - end);
      k' := 3 + |x| + |suffix| + (k - end);
    }
  }

  /** A verb rule keeps a closer: it lies in the capture or after the line end, both of which the rule writes back. */
  lemma LeadingKeepsCloser(verbs: seq<Word>, suffix: string, s: string, k: nat) returns (k': nat)
    requires forall v :: v in verbs ==> '/' !in v
    requires LiteralAt(s, k, "*/")
    ensures LiteralAt(ApplyRule(Leading(verbs, suffix), s), k', "*/")
  {
    var o := ApplyRule(Leading(verbs, suffix), s);
    if LeadCapture(verbs, s).None? {
      k' := k;
    } else {
      var c := LeadCapture(verbs, s).value;
      CaptureStartsBeforeCloser(verbs, s, k);
      CloserAroundCaptureEnd(s, c.start, k);
      k' := MatchedVerbKeepsCloser(s[c.start..c.end], suffix, s[c.end..], s, c.start, c.end, k, o);
    }
  }

  // ---------------------------------------------------------------------------
  // Lines
  // ---------------------------------------------------------------------------

  lemma ApplyRuleKeepsCloser(r: Rule, s: string, k: nat) returns (k': nat)
    requires KeepsClosers(r) && LiteralAt(s, k, "*/")
    ensures LiteralAt(ApplyRule(r, s), k', "*/")
  {
    match r
    case Global(p, rep) => k' := ReplaceKeepsCloser(p, rep, s, 0, k);
    case Leading(verbs, suffix) => k' := LeadingKeepsCloser(verbs, suffix, s, k);
  }

  lemma {:induction false} ApplyRulesKeepCloser(rules: seq<Rule>, s: string, k: nat) returns (k': nat)
    requires forall r :: r in rules ==> KeepsClosers(r)
    requires LiteralAt(s, k, "*/")
    ensures LiteralAt(ApplyRules(rules, s), k', "*/")
    decreases |rules|
  {
    if |rules| == 0 {
      k' := k;
    } else {
      var k1 := ApplyRuleKeepsCloser(rules[0], s, k);
      assert forall r :: r in rules[1..] ==> r in rules;
      k' := ApplyRulesKeepCloser(rules[1..], ApplyRule(rules[0], s), k1);
    }
  }

  /** `translateLine` keeps a closer somewhere in the line. */
  lemma TranslateLineKeepsCloser(s: string, k: nat) returns (k': nat)
    requires LiteralAt(s, k, "*/")
    ensures LiteralAt(TranslateLine(s), k', "*/")
  {
    TableKeepsClosers();
    k' := ApplyRulesKeepCloser(Table, s, k);
  }

  // ---------------------------------------------------------------------------
  // Blocks
  // ---------------------------------------------------------------------------

  /** `split` at the first line feed. */
  lemma SplitAtFirst(s: string, k: nat)
    requires k == NextLineFeed(s, 0) && k < |s|
    ensures SplitLines(s) == [LineBefore(s, k)] + SplitLines(s[k + 1..])
  {
  }

  lemma Regroup(s: string, a: string, t: string, b: string, c: string)
    requires s == a + t && t == b + c
    ensures s == (a + b) + c
  {
  }

  /** The last line `split` returns is what follows the last line feed. */
  lemma {:induction false} LastLineIsSuffix(s: string) returns (pre: string)
    ensures s == pre + SplitLines(s)[|SplitLines(s)| - 1]
    ensures |SplitLines(s)| == 1 ==> pre == ""
    ensures |SplitLines(s)| > 1 ==> 0 < |pre| <= |s| && s[|pre| - 1] == '\n'
    decreases |s|
  {
    var k := NextLineFeed(s, 0);
    if k == |s| {
      pre := "";
    } else {
      var tail := s[k + 1..];
      var pre' := LastLineIsSuffix(tail);
      SplitAtFirst(s, k);
      var tl := SplitLines(tail);
      var last := tl[|tl| - 1];
      assert SplitLines(s)[|SplitLines(s)| - 1] == last;
      pre := s[..k + 1] + pre';
      assert s == s[..k + 1] + tail;
      Regroup(s, s[..k + 1], tail, pre', last);
      if |pre'| > 0 {
        assert s[|pre| - 1] == tail[|pre'| - 1];
      }
    }
  }

  /** A text that ends with a closer has a last line that ends with it. */
  lemma LastLineEndsWithCloser(s: string)
    requires |s| >= 2 && LiteralAt(s, |s| - 2, "*/")
    ensures var last := SplitLines(s)[|SplitLines(s)| - 1];
      |last| >= 2 && LiteralAt(last, |last| - 2, "*/")
  {
    var pre := LastLineIsSuffix(s);
    var last := SplitLines(s)[|SplitLines(s)| - 1];
    CloserChars(s, |s| - 2);
    assert |last| >= 2;
    assert s[|s| - 2] == last[|last| - 2] && s[|s| - 1] == last[|last| - 1];
    CloserFromChars(last, |last| - 2);
  }

  /** Joining puts the last line after the join of the others and one line feed. */
  lemma {:induction false} JoinLinesLast(lines: seq<string>)
    requires |lines| >= 2
    ensures JoinLines(lines) == JoinLines(lines[..|lines| - 1]) + "\n" + lines[|lines| - 1]
    decreases |lines|
  {
    var n := |lines|;
    if n > 2 {
      JoinLinesLast(lines[1..]);
      assert lines[1..][..n - 2] == lines[..n - 1][1..];
      assert lines[..n - 1][0] == lines[0];
    } else {
      assert lines[..1] == [lines[0]];
    }
  }

  /** The translation of a comment line keeps a closer; any other line is kept. */
  lemma CommentKeepsCloser(l: string, k: nat) returns (k': nat)
    requires LiteralAt(l, k, "*/")
    ensures LiteralAt(TranslateComment(l), k', "*/")
  {
    if IsStarLine(l) {
      k' := TranslateLineKeepsCloser(l, k);
    } else {
      k' := k;
    }
  }

  lemma OpenerChars(block: string)
    requires LiteralAt(block, 0, "/**")
    ensures block[0] == '/' && block[1] == '*' && block[2] == '*'
  {
    assert block[..3][0] == block[0] && block[..3][1] == block[1] && block[..3][2] == block[2];
  }

  /** Joined lines of which the first has three or more characters and the last holds a closer. */
  lemma JoinedCloser(out: seq<string>, k1: nat) returns (q: nat)
    requires |out| >= 2 && |out[0]| >= 3 && LiteralAt(out[|out| - 1], k1, "*/")
    ensures 3 <= q && LiteralAt(JoinLines(out), q, "*/")
  {
    var n := |out|;
    JoinLinesLast(out);
    var front := JoinLines(out[..n - 1]);
    assert out[..n - 1][0] == out[0];
    JoinLinesStartsWithFirst(out[..n - 1]);
    CloserAfter(front + "\n", out[n - 1], JoinLines(out), k1);
    q := |front| + 1 + k1;
  }

  /** A block of several lines: the first is the opener line, kept, and the last keeps its closer. */
  lemma ManyLinesKeepCloser(block: string, lines: seq<string>) returns (q: nat)
    requires |block| >= 5 && LiteralAt(block, 0, "/**") && LiteralAt(block, |block| - 2, "*/")
    requires lines == SplitLines(block) && |lines| >= 2
    ensures 3 <= q && LiteralAt(JoinLines(TranslateLines(lines)), q, "*/")
  {
    var n := |lines|;
    var out := TranslateLines(lines);
    LastLineEndsWithCloser(block);
    var last := lines[n - 1];
    var k1 := CommentKeepsCloser(last, |last| - 2);
    OpenerChars(block);
    FirstLineKeepsOpener(block);
    assert lines[0][0] == lines[0][..3][0] == block[..3][0] == block[0];
    PlainLedIsNotStarLine(lines[0]);
    q := JoinedCloser(out, k1);
  }

  /** A block of one line is not a comment line and is kept as it is. */
  lemma OneLineKeepsCloser(block: string, lines: seq<string>) returns (q: nat)
    requires |block| >= 5 && LiteralAt(block, 0, "/**") && LiteralAt(block, |block| - 2, "*/")
    requires lines == SplitLines(block) && |lines| == 1
    ensures 3 <= q && LiteralAt(JoinLines(TranslateLines(lines)), q, "*/")
  {
    var pre := LastLineIsSuffix(block);
    assert lines[0] == block;
    OpenerChars(block);
    PlainLedIsNotStarLine(block);
    assert TranslateLines(lines) == [block];
    q := |block| - 2;
  }

  /**
   The translation of a documentation block holds a closer three or more
   characters in, past its opener.
   */
  lemma TranslationKeepsCloser(block: string) returns (q: nat)
    requires |block| >= 5 && LiteralAt(block, 0, "/**") && LiteralAt(block, |block| - 2, "*/")
    requires !HasJapanese(block)
    ensures 3 <= q && LiteralAt(TranslateBlock(block).value, q, "*/")
  {
    var lines := SplitLines(block);
    assert TranslateBlock(block) == Some(JoinLines(TranslateLines(lines)));
    if |lines| == 1 {
      q := OneLineKeepsCloser(block, lines);
    } else {
      q := ManyLinesKeepCloser(block, lines);
    }
  }
}
