/**
 Whole-table runs of `translateLine` from scripts/translate-comments_02M.js on
 a few sample comment lines. A vocabulary rule leaves a line alone when each
 of its literals has a letter the line lacks; the sample lines use few
 letters, so only the verb rules at the end of the table act on them.
 */
module LineExamples {
  import opened Wrappers
  import opened Text
  import opened Rules
  import RuleFacts

  /** The characters, upper-cased, that the sample lines are made of before and after translation. */
  const SampleChars: set<char> := {' ', '*', '/', 'A', 'C', 'D', 'E', 'G', 'H', 'N', 'R', 'W', 'X', '位', '置'}

  /** Every character of `s`, upper-cased, is one of `chars`. */
  predicate Within(s: string, chars: set<char>) {
    forall k :: 0 <= k < |s| ==> AsciiUpper(s[k]) in chars
  }

  /** No character of a line within `chars` matches `c`, in any case. */
  predicate Alien(c: char, chars: set<char>) {
    AsciiUpper(c) !in chars
  }

  /** Rules that each leave a line alone leave it alone together. */
  lemma {:induction false} IdleRules(rules: seq<Rule>, s: string)
    requires forall i :: 0 <= i < |rules| ==> ApplyRule(rules[i], s) == s
    ensures ApplyRules(rules, s) == s
    decreases |rules|
  {
    if |rules| > 0 {
      assert forall i :: 0 <= i < |rules| - 1 ==> rules[1..][i] == rules[i + 1];
      IdleRules(rules[1..], s);
    }
  }

  /**
   The global rule `r` has, in every literal it matches, a character that
   no character of `chars` matches: the one at index `marks[i]` of its
   `i`-th literal.
   */
  predicate Masked(r: Rule, chars: set<char>, marks: seq<nat>) {
    r.Global? &&
    match r.pattern
    case Bounded(w) => |marks| == 1 && marks[0] < |w| && Alien(w[marks[0]], chars)
    case Folded(alts) =>
      |marks| == |alts| && forall i :: 0 <= i < |alts| ==> marks[i] < |alts[i]| && Alien(alts[i][marks[i]], chars)
  }

  /** A masked rule finds no match in a line made of `chars`, so it leaves the line alone. */
  lemma MaskedIdle(r: Rule, s: string, chars: set<char>, marks: seq<nat>)
    requires Within(s, chars) && Masked(r, chars, marks)
    ensures ApplyRule(r, s) == s
  {
    match r.pattern
    case Bounded(w) =>
      assert forall k :: 0 <= k < |s| ==> !LiteralAt(s, k, w);
      RuleFacts.ReplaceWithoutMatchIsIdentity(r.pattern, r.replacement, s, 0);
    case Folded(alts) =>
      forall w, k: nat | w in alts
        ensures !FoldsAt(s, k, w)
      {
        var i :| 0 <= i < |alts| && alts[i] == w;
        assert Alien(w[marks[i]], chars);
      }
      RuleFacts.FoldedRuleWithoutOccurrence(alts, r.replacement, s);
  }

  /** Rules that are each masked leave a line made of `chars` alone. */
  lemma MaskedRulesIdle(rules: seq<Rule>, s: string, chars: set<char>, marks: seq<seq<nat>>)
    requires Within(s, chars) && |marks| == |rules|
    requires forall i :: 0 <= i < |rules| ==> Masked(rules[i], chars, marks[i])
    ensures ApplyRules(rules, s) == s
  {
    forall i | 0 <= i < |rules|
      ensures ApplyRule(rules[i], s) == s
    {
      MaskedIdle(rules[i], s, chars, marks[i]);
    }
    IdleRules(rules, s);
  }

  // For each vocabulary section, the index in each literal of a letter the sample lines lack.

  const HeaderMarks: seq<seq<nat>> := [[0], [0]]

  lemma HeadersMasked()
    ensures |HeaderMarks| == |Headers|
    ensures forall i :: 0 <= i < |Headers| ==> Masked(Headers[i], SampleChars, HeaderMarks[i])
  {
  }

  const LegendMarks: seq<seq<nat>> := [[0], [0], [0], [0], [1], [0], [1], [5, 5], [0, 0]]

  lemma LegendsMasked()
    ensures |LegendMarks| == |Legends|
    ensures forall i :: 0 <= i < |Legends| ==> Masked(Legends[i], SampleChars, LegendMarks[i])
  {
  }

  const SaveActionMarks: seq<seq<nat>> := [[0], [0, 0], [0], [0], [0], [0, 0]]

  lemma SaveActionsMasked()
    ensures |SaveActionMarks| == |SaveActions|
    ensures forall i :: 0 <= i < |SaveActions| ==> Masked(SaveActions[i], SampleChars, SaveActionMarks[i])
  {
  }

  const KeyMarks: seq<seq<nat>> := [[3], [3], [0, 0], [0], [2], [0], [1], [1], [1], [0, 0]]

  lemma KeysMasked()
    ensures |KeyMarks| == |Keys|
    ensures forall i :: 0 <= i < |Keys| ==> Masked(Keys[i], SampleChars, KeyMarks[i])
  {
  }

  const EntityMarks: seq<seq<nat>> := [[1, 1], [3, 3], [0, 0], [0, 0], [2], [1, 1]]

  lemma EntitiesMasked()
    ensures |EntityMarks| == |Entities|
    ensures forall i :: 0 <= i < |Entities| ==> Masked(Entities[i], SampleChars, EntityMarks[i])
  {
  }

  const AttributeMarks: seq<seq<nat>> := [[0], [1], [0], [1], [0], [0], [0], [0], [0], [0], [1], [3], [0, 2], [0], [3], [0]]

  lemma AttributesMasked()
    ensures |AttributeMarks| == |Attributes|
    ensures forall i :: 0 <= i < |Attributes| ==> Masked(Attributes[i], SampleChars, AttributeMarks[i])
  {
  }

  const ActionMarks: seq<seq<nat>> := [[4], [0], [0], [6], [2]]

  lemma ActionsMasked()
    ensures |ActionMarks| == |Actions|
    ensures forall i :: 0 <= i < |Actions| ==> Masked(Actions[i], SampleChars, ActionMarks[i])
  {
  }

  /** A run that takes the line to `t`, followed by rules that leave `t` alone, takes the line to `t`. */
  lemma ExtendIdle(a: seq<Rule>, b: seq<Rule>, s: string, t: string)
    requires ApplyRules(a, s) == t && ApplyRules(b, t) == t
    ensures ApplyRules(a + b, s) == t
  {
    RuleFacts.ApplyRulesAppend(a, b, s);
  }

  /** The headers and the legends leave a line of sample characters alone. */
  lemma HeadIdle(s: string)
    requires Within(s, SampleChars)
    ensures ApplyRules(Headers + Legends, s) == s
  {
    HeadersMasked();
    MaskedRulesIdle(Headers, s, SampleChars, HeaderMarks);
    LegendsMasked();
    MaskedRulesIdle(Legends, s, SampleChars, LegendMarks);
    ExtendIdle(Headers, Legends, s, s);
  }

  /** The save actions and the keys leave a line of sample characters alone. */
  lemma MiddleIdle(s: string, t: string)
    requires ApplyRules(Headers + Legends, s) == t && Within(t, SampleChars)
    ensures ApplyRules(Headers + Legends + SaveActions + Keys, s) == t
  {
    SaveActionsMasked();
    MaskedRulesIdle(SaveActions, t, SampleChars, SaveActionMarks);
    KeysMasked();
    MaskedRulesIdle(Keys, t, SampleChars, KeyMarks);
    ExtendIdle(Headers + Legends, SaveActions, s, t);
    ExtendIdle(Headers + Legends + SaveActions, Keys, s, t);
  }

  /** The entities, the attributes and the actions leave a line of sample characters alone. */
  lemma VocabularyIdle(s: string, t: string)
    requires ApplyRules(Headers + Legends, s) == t && Within(t, SampleChars)
    ensures ApplyRules(Headers + Legends + SaveActions + Keys + Entities + Attributes + Actions, s) == t
  {
    MiddleIdle(s, t);
    EntitiesMasked();
    MaskedRulesIdle(Entities, t, SampleChars, EntityMarks);
    AttributesMasked();
    MaskedRulesIdle(Attributes, t, SampleChars, AttributeMarks);
    ActionsMasked();
    MaskedRulesIdle(Actions, t, SampleChars, ActionMarks);
    ExtendIdle(Headers + Legends + SaveActions + Keys, Entities, s, t);
    ExtendIdle(Headers + Legends + SaveActions + Keys + Entities, Attributes, s, t);
    ExtendIdle(Headers + Legends + SaveActions + Keys + Entities + Attributes, Actions, s, t);
  }

  /**
   Once the headers and the legends have taken a line to one made of the
   sample characters, only the verb rules act on it.
   */
  lemma OnlyVerbsActAfter(s: string, t: string)
    requires ApplyRules(Headers + Legends, s) == t && Within(t, SampleChars)
    ensures TranslateLine(s) == ApplyRules(Verbs, t)
  {
    VocabularyIdle(s, t);
    RuleFacts.ApplyRulesAppend(Headers + Legends + SaveActions + Keys + Entities + Attributes + Actions, Verbs, s);
  }

  /**
   On a line made of the sample characters no vocabulary rule finds
   anything, so `translateLine` comes down to its six verb rules.
   */
  lemma OnlyVerbsAct(s: string)
    requires Within(s, SampleChars)
    ensures TranslateLine(s) == ApplyRules(Verbs, s)
  {
    HeadIdle(s);
    OnlyVerbsActAfter(s, s);
  }

  // ---------------------------------------------------------------------------
  // Verb rules on bulleted lines
  // ---------------------------------------------------------------------------

  /** The line starts with a bullet, a star between two spaces, and then a non-space at index 3. */
  predicate Bulleted(s: string) {
    |s| > 3 && s[0] == ' ' && s[1] == '*' && s[2] == ' ' && !IsJsSpace(s[3])
  }

  /** On a bulleted line the leading-star pattern ends at index 3. */
  lemma BulletPrefix(s: string)
    requires Bulleted(s)
    ensures StarPrefix(s) == Some(3)
  {
    RuleFacts.SkipSpacesStopsAt(s, 0, 1);
    RuleFacts.SkipSpacesStopsAt(s, 2, 3);
  }

  /**
   The verb rule `r` has, in every verb form, a character that differs from
   the bulleted line's character at the same place after the bullet: the
   one at index `marks[i]` of its `i`-th form.
   */
  predicate VerbMasked(r: Rule, s: string, marks: seq<nat>) {
    r.Leading? && |marks| == |r.verbs| &&
    forall i :: 0 <= i < |marks| ==>
      marks[i] < |r.verbs[i]| && 3 + marks[i] < |s| && !FoldEq(s[3 + marks[i]], r.verbs[i][marks[i]])
  }

  /** A verb rule none of whose forms opens the bulleted line leaves the line alone. */
  lemma VerbMaskedIdle(r: Rule, s: string, marks: seq<nat>)
    requires Bulleted(s) && VerbMasked(r, s, marks)
    ensures ApplyRule(r, s) == s
  {
    BulletPrefix(s);
    forall v | v in r.verbs
      ensures !FoldsAt(s, 3, v)
    {
      var i :| 0 <= i < |r.verbs| && r.verbs[i] == v;
      assert !FoldEq(s[3 + marks[i]], v[marks[i]]);
    }
  }

  /** At most one verb form is the first that applies. */
  lemma FirstVerbUnique(verbs: seq<Word>, s: string, b: nat, n: nat, n': nat)
    requires b <= |s| && n < |verbs| && n' < |verbs|
    requires FirstVerb(verbs, s, b, n) && FirstVerb(verbs, s, b, n')
    ensures n == n'
  {
  }

  /**
   The facts under which verb form `n` of `verbs` is the one a verb rule
   settles on, with its capture starting at `p`: the form sits right after
   the bullet, one space follows it, then a non-space at `p`, and no earlier
   form sits there.
   */
  predicate VerbOpens(verbs: seq<Word>, n: nat, s: string, p: nat) {
    n < |verbs| && p == 4 + |verbs[n]| && p < |s| &&
    Bulleted(s) && FoldsAt(s, 3, verbs[n]) && s[p - 1] == ' ' && !IsJsSpace(s[p]) &&
    forall m :: 0 <= m < n ==> !FoldsAt(s, 3, verbs[m])
  }

  /** Where a verb rule's capture starts when one of its forms opens the line. */
  lemma VerbLineStart(verbs: seq<Word>, n: nat, s: string, p: nat)
    requires VerbOpens(verbs, n, s, p)
    ensures StarPrefix(s) == Some(3)
    ensures FirstVerb(verbs, s, 3, n)
    ensures CaptureStart(s, 3, verbs[n]) == p
  {
    BulletPrefix(s);
    RuleFacts.SkipSpacesStopsAt(s, p - 1, p);
    assert GroupStart(s, p, p) == Some(p);
  }

  /** A capture that starts at `p` runs to the end of a line without line terminators from there on. */
  lemma RestRunsToEnd(s: string, p: nat)
    requires p <= |s|
    requires forall k :: p <= k < |s| ==> !IsLineTerminator(s[k])
    ensures LineEnd(s, p) == |s|
  {
  }

  /** The verb rule's output, written with the capture running to the end of the line. */
  lemma BulletJoin(s: string, p: nat, suffix: string)
    requires p <= |s|
    ensures " * " + (s[p..|s|] + suffix + s[|s|..]) == " * " + s[p..] + suffix
  {
    assert s[p..|s|] == s[p..] && s[|s|..] == "";
  }

  /**
   A verb rule whose form `n` opens the bulleted line, on a line with no
   line terminator after the form: the verb and its space are dropped and
   the suffix goes at the end.
   */
  lemma VerbRuleFires(r: Rule, n: nat, s: string, p: nat)
    requires r.Leading? && VerbOpens(r.verbs, n, s, p)
    requires forall k :: p <= k < |s| ==> !IsLineTerminator(s[k])
    ensures ApplyRule(r, s) == " * " + s[p..] + r.suffix
  {
    VerbLineStart(r.verbs, n, s, p);
    RestRunsToEnd(s, p);
    var c := LeadCapture(r.verbs, s).value;
    var n' :| 0 <= n' < |r.verbs| && CapturedBy(r.verbs, s, 3, n', c.start);
    FirstVerbUnique(r.verbs, s, 3, n, n');
    assert c == Capture(p, |s|);
    BulletJoin(s, p, r.suffix);
  }

  /** Verb rules that each miss the bulleted line leave it alone together. */
  lemma VerbsMaskedIdle(rules: seq<Rule>, s: string, marks: seq<seq<nat>>)
    requires Bulleted(s) && |marks| == |rules|
    requires forall i :: 0 <= i < |rules| ==> VerbMasked(rules[i], s, marks[i])
    ensures ApplyRules(rules, s) == s
  {
    forall i | 0 <= i < |rules|
      ensures ApplyRule(rules[i], s) == s
    {
      VerbMaskedIdle(rules[i], s, marks[i]);
    }
    IdleRules(rules, s);
  }

  /** A sequence is what comes before index `k`, the element there, and what follows. */
  lemma AroundIndex<T>(xs: seq<T>, k: nat)
    requires k < |xs|
    ensures xs[..k] + [xs[k]] + xs[k + 1..] == xs
  {
  }

  /** When one rule acts and the rules around it leave the line alone, the run does what that rule does. */
  lemma OneRuleActs(front: seq<Rule>, r: Rule, back: seq<Rule>, s: string, t: string)
    requires ApplyRules(front, s) == s && ApplyRule(r, s) == t && ApplyRules(back, t) == t
    ensures ApplyRules(front + [r] + back, s) == t
  {
    RuleFacts.ApplyRulesAppend(front + [r], back, s);
    RuleFacts.ApplyRulesAppend(front, [r], s);
    assert ApplyRules([r], s) == ApplyRules([], t);
  }

  /** Verb rule `k` of the table acting on a line that one of its forms opens. */
  lemma TableVerbActs(k: nat, n: nat, s: string, p: nat, t: string)
    requires k < |Verbs| && Verbs[k].Leading?
    requires VerbOpens(Verbs[k].verbs, n, s, p) && forall q :: p <= q < |s| ==> !IsLineTerminator(s[q])
    requires t == " * " + s[p..] + Verbs[k].suffix
    ensures ApplyRule(Verbs[k], s) == t
  {
    VerbRuleFires(Verbs[k], n, s, p);
  }

  /**
   `translateLine` takes a line of sample characters `s` to `t` when verb
   rule `k` takes `s` to `t` and the verb rules around it leave the line alone.
   */
  lemma OnlyOneVerbActs(k: nat, s: string, t: string)
    requires Within(s, SampleChars) && k < |Verbs|
    requires ApplyRules(Verbs[..k], s) == s && ApplyRule(Verbs[k], s) == t && ApplyRules(Verbs[k + 1..], t) == t
    ensures TranslateLine(s) == t
  {
    OneRuleActs(Verbs[..k], Verbs[k], Verbs[k + 1..], s, t);
    AroundIndex(Verbs, k);
    OnlyVerbsAct(s);
  }

  // ---------------------------------------------------------------------------
  // A closing line that starts with two verbs
  // ---------------------------------------------------------------------------

  lemma DrawChangeChars(s: string)
    requires s == " * draw change x */"
    ensures Within(s, SampleChars)
  {
  }

  /** How the verb rules see the closing line: only the `draw` form of the fourth rule opens it. */
  lemma DrawChangeOpeners(s: string)
    requires s == " * draw change x */"
    ensures Bulleted(s)
    ensures forall i :: 0 <= i < 3 ==> VerbMasked(Verbs[..3][i], s, [[0], [0], [0, 0]][i])
    ensures VerbOpens(Verbs[3].verbs, 1, s, 8)
    ensures forall k :: 8 <= k < |s| ==> !IsLineTerminator(s[k])
  {
    assert !FoldEq(s[3 + 4], Verbs[3].verbs[0][4]);
  }

  /** The translated closing line is the draw rule's output. */
  lemma DrawChangeOutput(s: string, t: string)
    requires s == " * draw change x */" && t == " * change x */を描画します。"
    ensures Verbs[3].Leading? && t == " * " + s[8..] + Verbs[3].suffix
  {
  }

  /** Neither of the last two verb rules opens the translated closing line. */
  lemma DrawChangeOutputMisses(t: string)
    requires t == " * change x */を描画します。"
    ensures Bulleted(t)
    ensures forall i :: 0 <= i < 2 ==> VerbMasked(Verbs[4..][i], t, [[1, 1], [0, 0]][i])
  {
  }

  lemma DrawChangeBefore(s: string)
    requires s == " * draw change x */"
    ensures ApplyRules(Verbs[..3], s) == s
  {
    DrawChangeOpeners(s);
    VerbsMaskedIdle(Verbs[..3], s, [[0], [0], [0, 0]]);
  }

  lemma DrawChangeActs(s: string, t: string)
    requires s == " * draw change x */" && t == " * change x */を描画します。"
    ensures ApplyRule(Verbs[3], s) == t
  {
    DrawChangeOpeners(s);
    DrawChangeOutput(s, t);
    TableVerbActs(3, 1, s, 8, t);
  }

  lemma DrawChangeAfter(t: string)
    requires t == " * change x */を描画します。"
    ensures ApplyRules(Verbs[4..], t) == t
  {
    DrawChangeOutputMisses(t);
    VerbsMaskedIdle(Verbs[4..], t, [[1, 1], [0, 0]]);
  }

  /**
   On a closing line ` * draw change x` followed by the closer, only the
   `draw` rule fires: the line loses its first verb and gains the drawing
   suffix after the closer.
   */
  lemma DrawChangeLine(s: string, t: string)
    requires s == " * draw change x */" && t == " * change x */を描画します。"
    ensures TranslateLine(s) == t
  {
    DrawChangeChars(s);
    DrawChangeBefore(s);
    DrawChangeActs(s, t);
    DrawChangeAfter(t);
    OnlyOneVerbActs(3, s, t);
  }

  // ---------------------------------------------------------------------------
  // The same closing line after one run
  // ---------------------------------------------------------------------------

  lemma ChangeLineChars(s: string)
    requires s == " * change x */"
    ensures Within(s, SampleChars)
  {
  }

  /** How the verb rules see the line: the first rule misses it and the `change` rule opens it. */
  lemma ChangeLineOpeners(s: string)
    requires s == " * change x */"
    ensures Bulleted(s)
    ensures forall i :: 0 <= i < 1 ==> VerbMasked(Verbs[..1][i], s, [[6]][i])
    ensures VerbOpens(Verbs[1].verbs, 0, s, 10)
    ensures forall k :: 10 <= k < |s| ==> !IsLineTerminator(s[k])
  {
  }

  /** The translated line is the change rule's output. */
  lemma ChangeLineOutput(s: string, t: string)
    requires s == " * change x */" && t == " * x */を変化させます。"
    ensures Verbs[1].Leading? && t == " * " + s[10..] + Verbs[1].suffix
  {
  }

  /** None of the last four verb rules opens the translated line. */
  lemma ChangeLineOutputMisses(t: string)
    requires t == " * x */を変化させます。"
    ensures Bulleted(t)
    ensures forall i :: 0 <= i < 4 ==> VerbMasked(Verbs[2..][i], t, [[0, 0], [0, 0], [0, 0], [0, 0]][i])
  {
  }

  lemma ChangeLineBefore(s: string)
    requires s == " * change x */"
    ensures ApplyRules(Verbs[..1], s) == s
  {
    ChangeLineOpeners(s);
    VerbsMaskedIdle(Verbs[..1], s, [[6]]);
  }

  lemma ChangeLineActs(s: string, t: string)
    requires s == " * change x */" && t == " * x */を変化させます。"
    ensures ApplyRule(Verbs[1], s) == t
  {
    ChangeLineOpeners(s);
    ChangeLineOutput(s, t);
    TableVerbActs(1, 0, s, 10, t);
  }

  lemma ChangeLineAfter(t: string)
    requires t == " * x */を変化させます。"
    ensures ApplyRules(Verbs[2..], t) == t
  {
    ChangeLineOutputMisses(t);
    VerbsMaskedIdle(Verbs[2..], t, [[0, 0], [0, 0], [0, 0], [0, 0]]);
  }

  /**
   On ` * change x` followed by the closer, only the `change` rule fires:
   the line loses its verb and gains the change suffix after the closer.
   */
  lemma ChangeLine(s: string, t: string)
    requires s == " * change x */" && t == " * x */を変化させます。"
    ensures TranslateLine(s) == t
  {
    ChangeLineChars(s);
    ChangeLineBefore(s);
    ChangeLineActs(s, t);
    ChangeLineAfter(t);
    OnlyOneVerbActs(1, s, t);
  }

  // ---------------------------------------------------------------------------
  // Rule order: a legend before an attribute
  // ---------------------------------------------------------------------------

  /** The characters, upper-cased, of the legend sample line. */
  const PositionChars: set<char> := {' ', '*', 'I', 'N', 'O', 'P', 'S', 'T', 'X'}

  /**
   Where a one-literal folded rule matches on a bulleted line whose text
   after the bullet is its literal followed by a tail too short to hold it.
   */
  lemma BulletWordMatches(w: Word, u: string, y: string, s: string)
    requires IsAsciiLetter(w[0]) && s == " * " + u + y && |y| < |w|
    requires |u| == |w| && forall j :: 0 <= j < |w| ==> FoldEq(u[j], w[j])
    ensures MatchAt(Folded([w]), s, 0).None? && MatchAt(Folded([w]), s, 1).None? && MatchAt(Folded([w]), s, 2).None?
    ensures MatchAt(Folded([w]), s, 3) == Some(|w|) && |s| == 3 + |w| + |y|
    ensures s[3 + |w|..] == y && s[0] == ' ' && s[1] == '*' && s[2] == ' '
  {
    var p := Folded([w]);
    assert RuleFacts.LetterLed(p);
    RuleFacts.NoMatchAtNonLetter(p, s, 0);
    RuleFacts.NoMatchAtNonLetter(p, s, 1);
    RuleFacts.NoMatchAtNonLetter(p, s, 2);
    RuleFacts.FoldedMatchesInsideWords(w, u, " * ", y);
  }

  /** A one-literal folded rule cannot match where too little of the line is left. */
  lemma NoRoomForWord(w: Word, s: string, i: nat)
    requires |s| < i + |w|
    ensures forall k :: i <= k < |s| ==> MatchAt(Folded([w]), s, k).None?
  {
  }

  /**
   A one-literal folded rule replaces its literal right after the bullet
   and keeps the short tail that follows it.
   */
  lemma BulletWordReplaced(w: Word, rep: Word, u: string, y: string, s: string)
    requires IsAsciiLetter(w[0]) && s == " * " + u + y && |y| < |w|
    requires |u| == |w| && forall j :: 0 <= j < |w| ==> FoldEq(u[j], w[j])
    ensures ApplyRule(Global(Folded([w]), rep), s) == " * " + rep + y
  {
    BulletWordMatches(w, u, y, s);
    NoRoomForWord(w, s, 3 + |w|);
    BulletMatchReplaced(Folded([w]), |w|, rep, y, s);
  }

  /** The replace on a bulleted line whose only match starts right after the bullet. */
  lemma BulletMatchReplaced(p: Pattern, n: nat, rep: Word, y: string, s: string)
    requires |s| >= 3 + n && s[0] == ' ' && s[1] == '*' && s[2] == ' ' && s[3 + n..] == y
    requires MatchAt(p, s, 0).None? && MatchAt(p, s, 1).None? && MatchAt(p, s, 2).None?
    requires MatchAt(p, s, 3) == Some(n)
    requires forall k :: 3 + n <= k < |s| ==> MatchAt(p, s, k).None?
    ensures ApplyRule(Global(p, rep), s) == " * " + rep + y
  {
    TailKept(p, rep, s, 3 + n, y);
    RuleFacts.ReplaceStep(p, rep, s, 0);
    RuleFacts.ReplaceStep(p, rep, s, 1);
    RuleFacts.ReplaceStep(p, rep, s, 2);
    RuleFacts.ReplaceStep(p, rep, s, 3);
    BulletSpelled(s, rep, y, ReplaceFrom(p, rep, s, 3 + n));
  }

  lemma TailKept(p: Pattern, rep: Word, s: string, i: nat, y: string)
    requires i <= |s| && s[i..] == y
    requires forall k :: i <= k < |s| ==> MatchAt(p, s, k).None?
    ensures ReplaceFrom(p, rep, s, i) == y
  {
    RuleFacts.ReplaceWithoutMatchIsIdentity(p, rep, s, i);
  }

  lemma BulletSpelled(s: string, rep: string, y: string, rest: string)
    requires |s| >= 3 && s[0] == ' ' && s[1] == '*' && s[2] == ' ' && rest == y
    ensures [s[0]] + ([s[1]] + ([s[2]] + (rep + rest))) == " * " + rep + y
  {
  }

  /** The legend sample line: its characters, and the rules before the `position x` legend miss it. */
  lemma PositionLineMisses(s: string)
    requires s == " * Position X"
    ensures Within(s, PositionChars)
    ensures forall i :: 0 <= i < 2 ==> Masked(Headers[i], PositionChars, HeaderMarks[i])
    ensures forall i :: 0 <= i < 1 ==> Masked(Legends[..1][i], PositionChars, [[10]][i])
  {
  }

  /** The legend sample line after the `position x` legend: the rules after that legend miss it. */
  lemma PositionLineTail(t: string)
    requires t == " * 位置 x"
    ensures Within(t, SampleChars)
    ensures forall i :: 0 <= i < 7 ==> Masked(Legends[2..][i], SampleChars, LegendMarks[2..][i])
    ensures Bulleted(t)
    ensures forall i :: 0 <= i < 6 ==> VerbMasked(Verbs[i], t, [[0], [0], [0, 0], [0, 0], [0, 0], [0, 0]][i])
  {
    LegendsMasked();
  }

  /** The `position x` legend on the sample line, spelled out for the replace. */
  lemma PositionLegendParts(s: string, t: string)
    requires s == " * Position X" && t == " * 位置 x"
    ensures Legends[1] == Global(Folded(["position x"]), "位置 x")
    ensures s == " * " + "Position X" + [] && t == " * " + "位置 x" + []
    ensures forall j :: 0 <= j < 10 ==> FoldEq("Position X"[j], "position x"[j])
  {
  }

  lemma PositionLegendActs(s: string, t: string)
    requires s == " * Position X" && t == " * 位置 x"
    ensures ApplyRule(Legends[1], s) == t
  {
    PositionLegendParts(s, t);
    BulletWordReplaced("position x", "位置 x", "Position X", [], s);
  }

  /** The headers and the legends take the legend sample line to its translation. */
  lemma PositionHead(s: string, t: string)
    requires s == " * Position X" && t == " * 位置 x"
    ensures ApplyRules(Headers + Legends, s) == t
  {
    PositionLineMisses(s);
    PositionLineTail(t);
    MaskedRulesIdle(Headers, s, PositionChars, HeaderMarks);
    MaskedRulesIdle(Legends[..1], s, PositionChars, [[10]]);
    PositionLegendActs(s, t);
    MaskedRulesIdle(Legends[2..], t, SampleChars, LegendMarks[2..]);
    OneRuleActs(Legends[..1], Legends[1], Legends[2..], s, t);
    AroundIndex(Legends, 1);
    RuleFacts.ApplyRulesAppend(Headers, Legends, s);
  }

  /** The `position` attribute rule alone on the legend sample line. */
  lemma AttributeOnPositionLine(s: string)
    requires s == " * Position X"
    ensures ApplyRule(Global(Folded(["position"]), "位置"), s) == " * 位置 X"
  {
    AttributeParts(s);
    BulletWordReplaced("position", "位置", "Position", " X", s);
  }

  lemma AttributeParts(s: string)
    requires s == " * Position X"
    ensures s == " * " + "Position" + " X"
    ensures forall j :: 0 <= j < 8 ==> FoldEq("Position"[j], "position"[j])
  {
  }

  /**
   Rule order matters: on ` * Position X` the `position x` legend runs
   before the `position` attribute and writes its own lower-case `x`; the
   attribute rule alone would keep the line's `X`. No later rule touches the
   result.
   */
  lemma LegendRuleRunsFirst(s: string)
    requires s == " * Position X"
    ensures TranslateLine(s) == " * 位置 x"
    ensures ApplyRule(Table[42], s) == " * 位置 X"
  {
    var t := " * 位置 x";
    PositionHead(s, t);
    PositionLineTail(t);
    OnlyVerbsActAfter(s, t);
    VerbsMaskedIdle(Verbs, t, [[0], [0], [0, 0], [0, 0], [0, 0], [0, 0]]);
    RuleFacts.TableLayout();
    AttributeOnPositionLine(s);
  }

  /** The `MOUSE` header rule: only the free-standing upper-case word is replaced. */
  lemma MouseHeaderExamples()
    ensures ApplyRule(Global(Bounded("MOUSE"), "マウス"), "MOUSE") == "マウス"
    ensures ApplyRule(Global(Bounded("MOUSE"), "マウス"), "mouse") == "mouse"
    ensures ApplyRule(Global(Bounded("MOUSE"), "マウス"), "MOUSEY") == "MOUSEY"
  {
  }

  /** The `position x` legend rule lower-cases the `X` it matches, as its replacement is fixed. */
  lemma LegendRuleOnSample(p: Pattern, rep: Word, s: string)
    requires p == Folded(["position x"]) && rep == "位置 x" && s == "Position X"
    ensures ReplaceFrom(p, rep, s, 0) == "位置 x"
  {
    assert FoldsAt(s, 0, "position x") by {
      forall j | 0 <= j < 10
        ensures FoldEq(s[j], "position x"[j])
      {
      }
    }
    assert MatchAt(p, s, 0) == Some(10);
    RuleFacts.ReplaceStep(p, rep, s, 0);
  }

  /** The `position` attribute rule alone keeps the `X` of the sample. */
  lemma AttributeRuleOnSample(p: Pattern, rep: Word, s: string)
    requires p == Folded(["position"]) && rep == "位置" && s == "Position X"
    ensures ReplaceFrom(p, rep, s, 0) == "位置 X"
  {
    assert FoldsAt(s, 0, "position") by {
      forall j | 0 <= j < 8
        ensures FoldEq(s[j], "position"[j])
      {
      }
    }
    assert MatchAt(p, s, 0) == Some(8);
    RuleFacts.ReplaceStep(p, rep, s, 0);
    assert MatchAt(p, s, 8).None? && MatchAt(p, s, 9).None?;
    RuleFacts.ReplaceStep(p, rep, s, 8);
    RuleFacts.ReplaceStep(p, rep, s, 9);
  }

  /**
   The `draws?` rule leaves ` * drawing the letters` alone: after `draw`
   comes `i`, not the whitespace the rule requires.
   */
  lemma DrawingLineUntouched(s: string)
    requires s == " * drawing the letters"
    ensures ApplyRule(Leading(["draws", "draw"], "を描画します。"), s) == s
  {
    DrawingLineShape(s);
    var verbs: seq<Word> := ["draws", "draw"];
    assert forall v :: v in verbs ==> v == "draws" || v == "draw";
    assert LeadCapture(verbs, s) == None;
  }

  /** The sample line is a comment line whose text starts at index 3 and fits neither verb form. */
  lemma DrawingLineShape(s: string)
    requires s == " * drawing the letters"
    ensures StarPrefix(s) == Some(3)
    ensures !FoldsAt(s, 3, "draws")
    ensures !HasRest(s, 7)
  {
    assert SkipSpaces(s, 0) == 1;
    assert SkipSpaces(s, 2) == 3;
    assert !FoldEq(s[3 + 4], "draws"[4]);
    assert SkipSpaces(s, 7) == 7;
  }
}
