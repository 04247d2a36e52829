/**
 Properties of the rule engine: what one global replace can and cannot do,
 how the fold composes, and what follows for the concrete rule table.
 */
module RuleFacts {
  import opened Wrappers
  import opened Text
  import opened Rules

  // ---------------------------------------------------------------------------
  // One global replace
  // ---------------------------------------------------------------------------

  /** A replace emits only characters of its input and of its replacement text. */
  lemma {:induction false} ReplaceIntroducesOnly(p: Pattern, rep: Word, s: string, i: nat, c: char)
    requires i <= |s|
    requires forall k :: i <= k < |s| ==> s[k] != c
    requires c !in rep
    ensures c !in ReplaceFrom(p, rep, s, i)
    decreases |s| - i
  {
    if i < |s| {
      var front, j := ReplaceAdvances(p, rep, s, i);
      ReplaceIntroducesOnly(p, rep, s, j, c);
    }
  }

  /** One step of a replace: the replacement or the copied character, then the rest. */
  lemma ReplaceStep(p: Pattern, rep: Word, s: string, i: nat)
    requires i < |s|
    ensures MatchAt(p, s, i).Some? ==>
      ReplaceFrom(p, rep, s, i) == rep + ReplaceFrom(p, rep, s, i + MatchAt(p, s, i).value)
    ensures MatchAt(p, s, i).None? ==>
      ReplaceFrom(p, rep, s, i) == [s[i]] + ReplaceFrom(p, rep, s, i + 1)
  {
  }

  /** A replace step emits the replacement or the current character, then resumes further on. */
  lemma ReplaceAdvances(p: Pattern, rep: Word, s: string, i: nat) returns (front: string, j: nat)
    requires i < |s|
    ensures i < j <= |s|
    ensures forall c :: c in front ==> c in rep || c == s[i]
    ensures ReplaceFrom(p, rep, s, i) == front + ReplaceFrom(p, rep, s, j)
  {
    ReplaceStep(p, rep, s, i);
    var m := MatchAt(p, s, i);
    front := if m.Some? then rep else [s[i]];
    j := if m.Some? then i + m.value else i + 1;
  }

  /**
   Where no match starts in `i..m`, a replace copies `s[i..m]` unchanged to
   the front of its output.
   */
  lemma {:induction false} ReplaceKeepsUnmatchedPrefix(p: Pattern, rep: Word, s: string, i: nat, m: nat)
    requires i <= m <= |s|
    requires forall k :: i <= k < m ==> MatchAt(p, s, k).None?
    ensures |ReplaceFrom(p, rep, s, i)| >= m - i
    ensures ReplaceFrom(p, rep, s, i)[..m - i] == s[i..m]
    decreases m - i
  {
    if i < m {
      ReplaceKeepsUnmatchedPrefix(p, rep, s, i + 1, m);
      var o := ReplaceFrom(p, rep, s, i);
      assert o == [s[i]] + ReplaceFrom(p, rep, s, i + 1);
    }
  }

  /** Where no match starts anywhere from `i` on, a replace is the identity on `s[i..]`. */
  lemma {:induction false} ReplaceWithoutMatchIsIdentity(p: Pattern, rep: Word, s: string, i: nat)
    requires i <= |s|
    requires forall k :: i <= k < |s| ==> MatchAt(p, s, k).None?
    ensures ReplaceFrom(p, rep, s, i) == s[i..]
    decreases |s| - i
  {
    if i < |s| {
      ReplaceWithoutMatchIsIdentity(p, rep, s, i + 1);
      assert s[i..] == [s[i]] + s[i + 1..];
    }
  }

  /**
   If the first `n` output characters are none of the replacement's
   characters, they were copied from the input and no match starts at `i`.
   */
  lemma {:induction false} CopiedPrefix(p: Pattern, rep: Word, s: string, i: nat, n: nat)
    requires i <= |s|
    requires n <= |ReplaceFrom(p, rep, s, i)|
    requires forall k :: 0 <= k < n ==> ReplaceFrom(p, rep, s, i)[k] !in rep
    ensures i + n <= |s|
    ensures ReplaceFrom(p, rep, s, i)[..n] == s[i..i + n]
    ensures n > 0 ==> MatchAt(p, s, i).None?
    decreases n
  {
    if n > 0 {
      var o := ReplaceFrom(p, rep, s, i);
      ReplaceFirstChar(p, rep, s, i);
      assert MatchAt(p, s, i).None?;
      var t := ReplaceFrom(p, rep, s, i + 1);
      assert o == [s[i]] + t;
      forall k | 0 <= k < n - 1
        ensures t[k] !in rep
      {
        assert t[k] == o[k + 1];
      }
      CopiedPrefix(p, rep, s, i + 1, n - 1);
      assert o[..n] == [s[i]] + t[..n - 1];
      assert s[i..i + n] == [s[i]] + s[i + 1..i + n];
    }
  }

  /** The first character a replace emits: the replacement's when a match starts there, else the input's. */
  lemma ReplaceFirstChar(p: Pattern, rep: Word, s: string, i: nat)
    requires i < |s|
    ensures |ReplaceFrom(p, rep, s, i)| > 0
    ensures MatchAt(p, s, i).Some? ==> ReplaceFrom(p, rep, s, i)[0] == rep[0]
    ensures MatchAt(p, s, i).None? ==> ReplaceFrom(p, rep, s, i)[0] == s[i]
  {
  }

  /** A folded occurrence of `w` in the output avoids every character of a foreign replacement. */
  lemma OccurrenceAvoidsReplacement(o: string, k: nat, w: string, rep: Word)
    requires Foreign(rep, w)
    requires FoldsAt(o, k, w)
    ensures forall q :: k <= q < k + |w| ==> o[q] !in rep
  {
    forall q | k <= q < k + |w|
      ensures o[q] !in rep
    {
      forall m | 0 <= m < |rep|
        ensures rep[m] != o[q]
      {
        assert FoldEq(o[k + (q - k)], w[q - k]);
        assert !FoldEq(rep[m], w[q - k]);
      }
    }
  }

  /** An occurrence past a prefix `x` is an occurrence in what follows `x`. */
  lemma FoldsAtAfter(x: string, t: string, k: nat, w: string)
    requires |x| <= k
    requires FoldsAt(x + t, k, w)
    ensures FoldsAt(t, k - |x|, w)
  {
    forall j | 0 <= j < |w|
      ensures FoldEq(t[k - |x| + j], w[j])
    {
      assert t[k - |x| + j] == (x + t)[k + j];
    }
  }

  /**
   After a global replace whose replacement text is foreign to `w`, `w`
   occurs in the output only where it occurred, unmatched, in the input.
   */
  lemma {:induction false} OutputOccurrenceWasInInput(p: Pattern, rep: Word, s: string, i: nat, k: nat, w: Word)
    requires i <= |s|
    requires Foreign(rep, w)
    requires FoldsAt(ReplaceFrom(p, rep, s, i), k, w)
    ensures exists q :: i <= q && FoldsAt(s, q, w) && MatchAt(p, s, q).None?
    decreases |s| - i, 1
  {
    assert i < |s|;
    if MatchAt(p, s, i).Some? {
      OccurrenceAfterMatch(p, rep, s, i, k, w);
    } else if k == 0 {
      OccurrenceAtFront(p, rep, s, i, w);
    } else {
      OccurrenceAfterCopy(p, rep, s, i, k, w);
    }
  }

  /** The step of the induction where a match starts at `i`. */
  lemma {:induction false} OccurrenceAfterMatch(p: Pattern, rep: Word, s: string, i: nat, k: nat, w: Word)
    requires i < |s| && MatchAt(p, s, i).Some?
    requires Foreign(rep, w)
    requires FoldsAt(ReplaceFrom(p, rep, s, i), k, w)
    ensures exists q :: i <= q && FoldsAt(s, q, w) && MatchAt(p, s, q).None?
    decreases |s| - i, 0
  {
    var n := MatchAt(p, s, i).value;
    OccurrencePastReplacement(p, rep, s, i, n, k, w);
    assert 0 < n && i + n <= |s|;
    OutputOccurrenceWasInInput(p, rep, s, i + n, k - |rep|, w);
    var q :| i + n <= q && FoldsAt(s, q, w) && MatchAt(p, s, q).None?;
    assert i <= q;
  }

  /** The step of the induction where `s[i]` is copied and the occurrence starts later. */
  lemma {:induction false} OccurrenceAfterCopy(p: Pattern, rep: Word, s: string, i: nat, k: nat, w: Word)
    requires i < |s| && MatchAt(p, s, i).None? && k > 0
    requires Foreign(rep, w)
    requires FoldsAt(ReplaceFrom(p, rep, s, i), k, w)
    ensures exists q :: i <= q && FoldsAt(s, q, w) && MatchAt(p, s, q).None?
    decreases |s| - i, 0
  {
    OccurrencePastCopy(p, rep, s, i, k, w);
    OutputOccurrenceWasInInput(p, rep, s, i + 1, k - 1, w);
    var q :| i + 1 <= q && FoldsAt(s, q, w) && MatchAt(p, s, q).None?;
    assert i <= q;
  }

  /** An occurrence past a copied character is an occurrence in the rest of the output. */
  lemma OccurrencePastCopy(p: Pattern, rep: Word, s: string, i: nat, k: nat, w: Word)
    requires i < |s| && MatchAt(p, s, i).None? && k > 0
    requires FoldsAt(ReplaceFrom(p, rep, s, i), k, w)
    ensures FoldsAt(ReplaceFrom(p, rep, s, i + 1), k - 1, w)
  {
    var t := ReplaceFrom(p, rep, s, i + 1);
    assert ReplaceFrom(p, rep, s, i) == [s[i]] + t;
    FoldsAtAfter([s[i]], t, k, w);
  }

  /** An occurrence at the very front of a replace's output, foreign to its replacement, was copied from the input. */
  lemma OccurrenceAtFront(p: Pattern, rep: Word, s: string, i: nat, w: Word)
    requires i <= |s|
    requires Foreign(rep, w)
    requires FoldsAt(ReplaceFrom(p, rep, s, i), 0, w)
    ensures FoldsAt(s, i, w) && MatchAt(p, s, i).None?
  {
    var o := ReplaceFrom(p, rep, s, i);
    OccurrenceAvoidsReplacement(o, 0, w, rep);
    CopiedPrefix(p, rep, s, i, |w|);
    InputOccurrence(o, s, i, w);
  }

  /** An occurrence foreign to the replacement starts past a replacement emitted at `i`. */
  lemma OccurrencePastReplacement(p: Pattern, rep: Word, s: string, i: nat, n: nat, k: nat, w: Word)
    requires i < |s| && MatchAt(p, s, i) == Some(n)
    requires Foreign(rep, w)
    requires FoldsAt(ReplaceFrom(p, rep, s, i), k, w)
    ensures 0 < n && i + n <= |s|
    ensures k >= |rep| && FoldsAt(ReplaceFrom(p, rep, s, i + n), k - |rep|, w)
  {
    var o := ReplaceFrom(p, rep, s, i);
    var t := ReplaceFrom(p, rep, s, i + n);
    assert o == rep + t;
    OccurrenceAvoidsReplacement(o, k, w, rep);
    forall j | 0 <= j < |rep|
      ensures o[j] in rep
    {
      assert o[j] == rep[j];
    }
    assert o[k] !in rep;
    FoldsAtAfter(rep, t, k, w);
  }

  /** An occurrence at the front of a copied prefix is an occurrence in the input. */
  lemma InputOccurrence(o: string, s: string, i: nat, w: string)
    requires FoldsAt(o, 0, w)
    requires i + |w| <= |s|
    requires o[..|w|] == s[i..i + |w|]
    ensures FoldsAt(s, i, w)
  {
    forall j | 0 <= j < |w|
      ensures FoldEq(s[i + j], w[j])
    {
      assert s[i + j] == o[..|w|][j];
    }
  }

  /**
   A global folded replace leaves no match of its own pattern behind when its
   replacement text cannot take part in one: `s.replace(/space( bar)?/gi, 'スペース')`
   leaves no `space` in any case.
   */
  lemma ReplaceExhausts(alts: seq<Word>, rep: Word, s: string, w: Word)
    requires w in alts
    requires Foreign(rep, w)
    ensures forall k :: !FoldsAt(ReplaceFrom(Folded(alts), rep, s, 0), k, w)
  {
    forall k | FoldsAt(ReplaceFrom(Folded(alts), rep, s, 0), k, w)
      ensures false
    {
      OutputOccurrenceWasInInput(Folded(alts), rep, s, 0, k, w);
    }
  }

  /** A global replace whose replacement text is foreign to `w` never creates an occurrence of `w`. */
  lemma ReplaceKeepsAbsent(p: Pattern, rep: Word, s: string, w: Word)
    requires Foreign(rep, w)
    requires forall q :: !FoldsAt(s, q, w)
    ensures forall k :: !FoldsAt(ReplaceFrom(p, rep, s, 0), k, w)
  {
    forall k | FoldsAt(ReplaceFrom(p, rep, s, 0), k, w)
      ensures false
    {
      OutputOccurrenceWasInInput(p, rep, s, 0, k, w);
    }
  }

  // ---------------------------------------------------------------------------
  // The fold
  // ---------------------------------------------------------------------------

  /** Folding a concatenated table is folding its two halves one after the other. */
  lemma {:induction false} ApplyRulesAppend(a: seq<Rule>, b: seq<Rule>, s: string)
    ensures ApplyRules(a + b, s) == ApplyRules(b, ApplyRules(a, s))
    decreases |a|
  {
    if |a| == 0 {
      assert a + b == b;
    } else {
      assert (a + b)[1..] == a[1..] + b;
      ApplyRulesAppend(a[1..], b, ApplyRule(a[0], s));
    }
  }

  /** A rule that finds nothing to replace leaves the line as it is. */
  lemma FoldedRuleWithoutOccurrence(alts: seq<Word>, rep: Word, s: string)
    requires forall w, k :: w in alts ==> !FoldsAt(s, k, w)
    ensures ApplyRule(Global(Folded(alts), rep), s) == s
  {
    ReplaceWithoutMatchIsIdentity(Folded(alts), rep, s, 0);
  }

  /** A run of global rules whose replacement texts are all foreign to `w` keeps `w` absent. */
  lemma {:induction false} RulesKeepAbsent(rules: seq<Rule>, s: string, w: Word)
    requires forall r :: r in rules ==> r.Global? && Foreign(r.replacement, w)
    requires forall q :: !FoldsAt(s, q, w)
    ensures forall q :: !FoldsAt(ApplyRules(rules, s), q, w)
    decreases |rules|
  {
    if |rules| > 0 {
      var r := rules[0];
      ReplaceKeepsAbsent(r.pattern, r.replacement, s, w);
      RulesKeepAbsent(rules[1..], ApplyRule(r, s), w);
    }
  }

  /** A word absent after `front` stays absent through rules whose replacement texts are foreign to it. */
  lemma AbsentAfter(front: seq<Rule>, tail: seq<Rule>, s: string, w: Word)
    requires forall q :: !FoldsAt(ApplyRules(front, s), q, w)
    requires forall r :: r in tail ==> r.Global? && Foreign(r.replacement, w)
    ensures forall q :: !FoldsAt(ApplyRules(front + tail, s), q, w)
  {
    ApplyRulesAppend(front, tail, s);
    RulesKeepAbsent(tail, ApplyRules(front, s), w);
  }

  // ---------------------------------------------------------------------------
  // The concrete table
  // ---------------------------------------------------------------------------

  /** Where the rules discussed below sit in the table. */
  lemma TableLayout()
    ensures |Table| == 60
    ensures Table[0] == Global(Bounded("MOUSE"), "マウス")
    ensures Table[19] == Global(Folded(["space bar", "space"]), "スペース")
    ensures Table[20] == Global(Folded(["backspace"]), "Backspace")
    ensures Table[42] == Global(Folded(["position"]), "位置")
    ensures Table[43..49] == Attributes[10..]
    ensures Table[49] == Global(Folded(["random position"]), "ランダム位置")
  {
    var front := Headers + Legends + SaveActions;
    assert |front| == 17;
    assert Table == front + Keys + Entities + Attributes + Actions + Verbs;
    assert Table[19] == Keys[2];
    assert Table[20] == Keys[3];
    assert Table[42] == Attributes[9];
    assert Table[49] == Actions[0];
    assert Table[43..49] == Attributes[10..];
  }

  /** A text in which `v` never occurs contains no `w` that has `v` inside it. */
  lemma AbsentWithin(s: string, w: Word, v: Word, m: nat)
    requires m + |v| <= |w| && w[m..m + |v|] == v
    requires forall q :: !FoldsAt(s, q, v)
    ensures forall q :: !FoldsAt(s, q, w)
  {
    forall q | FoldsAt(s, q, w)
      ensures false
    {
      FoldsAtSlice(s, q, w, m, m + |v|);
    }
  }

  /**
   The `backspace` rule never changes a line: the `space( bar)?` rule before
   it has already turned every `space` into `スペース`, so `backspace` has
   become `backスペース` by the time it runs.
   */
  lemma BackspaceRuleNeverFires(s: string)
    ensures ApplyRule(Table[20], ApplyRules(Table[..20], s)) == ApplyRules(Table[..20], s)
  {
    TableLayout();
    var u := ApplyRules(Table[..19], s);
    assert Table[..20] == Table[..19] + [Table[19]];
    ApplyRulesAppend(Table[..19], [Table[19]], s);
    SpaceRuleDisablesBackspace(Table[19], Table[20], u);
  }

  lemma BackspaceHoldsSpace()
    ensures "backspace"[4..9] == "space"
  {
  }

  /** After the `space( bar)?` rule, the `backspace` rule finds nothing. */
  lemma SpaceRuleDisablesBackspace(space: Rule, backspace: Rule, u: string)
    requires space == Global(Folded(["space bar", "space"]), "スペース")
    requires backspace == Global(Folded(["backspace"]), "Backspace")
    ensures ApplyRule(backspace, ApplyRule(space, u)) == ApplyRule(space, u)
  {
    var t := ApplyRule(space, u);
    ForeignByScript("スペース", "space");
    ReplaceExhausts(["space bar", "space"], "スペース", u, "space");
    BackspaceHoldsSpace();
    AbsentWithin(t, "backspace", "space", 4);
    FoldedRuleWithoutOccurrence(["backspace"], "Backspace", t);
  }

  /** The replacements of the six attribute rules after `position` are all foreign to an ASCII word. */
  lemma AttributeTailIsForeign(w: string)
    requires AllAscii(w)
    ensures forall r :: r in Attributes[10..] ==> r.Global? && Foreign(r.replacement, w)
  {
    var tail := Attributes[10..];
    assert tail == [
      Global(Folded(["rotation"]), "回転"),
      Global(Folded(["angle"]), "角度"),
      Global(Folded(["thickness", "weight"]), "太さ"),
      Global(Folded(["scale"]), "スケール"),
      Global(Folded(["density"]), "密度"),
      Global(Folded(["speed"]), "速度")
    ];
    forall r | r in tail
      ensures r.Global? && Foreign(r.replacement, w)
    {
      assert NoAscii(r.replacement);
      ForeignByScript(r.replacement, w);
    }
  }

  /**
   A rule that replaces every `w` by a text foreign to it, followed by rules
   whose replacements are foreign to `w` too, leaves no `w` in any case.
   */
  lemma WordStaysGone(front: seq<Rule>, alts: seq<Word>, rep: Word, tail: seq<Rule>, s: string, w: Word)
    requires w in alts && Foreign(rep, w)
    requires forall r :: r in tail ==> r.Global? && Foreign(r.replacement, w)
    ensures forall q :: !FoldsAt(ApplyRules(front + [Global(Folded(alts), rep)] + tail, s), q, w)
  {
    var front' := front + [Global(Folded(alts), rep)];
    ApplyRulesAppend(front, [Global(Folded(alts), rep)], s);
    ReplaceExhausts(alts, rep, ApplyRules(front, s), w);
    AbsentAfter(front', tail, s, w);
  }

  /** Rules 43 to 48 of a list that holds the last six attribute rules there are foreign to `position`. */
  lemma AttributeTailForeignIn(t: seq<Rule>)
    requires |t| >= 49 && t[43..49] == Attributes[10..]
    ensures forall r :: r in t[43..49] ==> r.Global? && Foreign(r.replacement, "position")
  {
    AttributeTailIsForeign("position");
  }

  /**
   In any rule list whose rule 42 replaces every `position` and whose rules
   43 to 48 insert only texts foreign to it, no `position` survives rule 48.
   */
  lemma PositionGoneIn(t: seq<Rule>, s: string)
    requires |t| >= 49 && t[42] == Global(Folded(["position"]), "位置")
    requires forall r :: r in t[43..49] ==> r.Global? && Foreign(r.replacement, "position")
    ensures forall q :: !FoldsAt(ApplyRules(t[..49], s), q, "position")
  {
    assert t[..49] == t[..42] + [t[42]] + t[43..49];
    ForeignByScript("位置", "position");
    WordStaysGone(t[..42], ["position"], "位置", t[43..49], s, "position");
  }

  /**
   Once the `position` rule has run, no `position` is left in any case, and
   the six attribute rules after it insert no ASCII, so none brings it back.
   */
  lemma PositionStaysGone(s: string)
    ensures forall q :: !FoldsAt(ApplyRules(Table[..49], s), q, "position")
  {
    TableLayout();
    AttributeTailForeignIn(Table);
    PositionGoneIn(Table, s);
  }

  /** A text without `position` gives the `random position` rule nothing to replace. */
  lemma RandomPositionFindsNothing(t: string)
    requires forall q :: !FoldsAt(t, q, "position")
    ensures ApplyRule(Global(Folded(["random position"]), "ランダム位置"), t) == t
  {
    AbsentWithin(t, "random position", "position", 7);
    FoldedRuleWithoutOccurrence(["random position"], "ランダム位置", t);
  }

  /**
   The `random position` rule never changes a line: the `position` rule has
   already replaced every `position`, and the rules between them insert no
   ASCII text.
   */
  lemma RandomPositionRuleNeverFires(s: string)
    ensures ApplyRule(Table[49], ApplyRules(Table[..49], s)) == ApplyRules(Table[..49], s)
  {
    TableLayout();
    PositionStaysGone(s);
    RandomPositionFindsNothing(ApplyRules(Table[..49], s));
  }

  /** The table with its two dead rules removed. */
  function LiveTable(): (t: seq<Rule>)
    ensures |t| == |Table| - 2
  {
    TableLayout();
    Table[..20] + Table[21..49] + Table[50..]
  }

  /** Two rules that each find nothing when their turn comes can be dropped from a run. */
  lemma DropIdleRules(a: seq<Rule>, x: Rule, b: seq<Rule>, y: Rule, c: seq<Rule>, s: string)
    requires ApplyRule(x, ApplyRules(a, s)) == ApplyRules(a, s)
    requires ApplyRule(y, ApplyRules(a + [x] + b, s)) == ApplyRules(a + [x] + b, s)
    ensures ApplyRules(a + [x] + b + [y] + c, s) == ApplyRules(a + b + c, s)
  {
    ApplyRulesAppend(a + [x] + b + [y], c, s);
    ApplyRulesAppend(a + [x] + b, [y], s);
    ApplyRulesAppend(a + [x], b, s);
    ApplyRulesAppend(a, [x], s);
    ApplyRulesAppend(a + b, c, s);
    ApplyRulesAppend(a, b, s);
  }

  lemma SplitAround20And49(t: seq<Rule>)
    requires |t| == 60
    ensures t[..49] == t[..20] + [t[20]] + t[21..49]
    ensures t == t[..20] + [t[20]] + t[21..49] + [t[49]] + t[50..]
  {
    assert t[..49] == t[..20] + t[20..49];
    assert t[20..49] == [t[20]] + t[21..49];
    assert t == t[..49] + t[49..];
    assert t[49..] == [t[49]] + t[50..];
  }

  /** In a 60-rule list, rules 20 and 49 can be dropped when neither changes the text it receives. */
  lemma DropRules20And49(t: seq<Rule>, s: string)
    requires |t| == 60
    requires ApplyRule(t[20], ApplyRules(t[..20], s)) == ApplyRules(t[..20], s)
    requires ApplyRule(t[49], ApplyRules(t[..49], s)) == ApplyRules(t[..49], s)
    ensures ApplyRules(t, s) == ApplyRules(t[..20] + t[21..49] + t[50..], s)
  {
    SplitAround20And49(t);
    DropIdleRules(t[..20], t[20], t[21..49], t[49], t[50..], s);
  }

  /** Dropping the `backspace` and `random position` rules translates every line exactly as before. */
  lemma DeadRulesAreRedundant(s: string)
    ensures TranslateLine(s) == ApplyRules(LiveTable(), s)
  {
    TableLayout();
    BackspaceRuleNeverFires(s);
    RandomPositionRuleNeverFires(s);
    DropRules20And49(Table, s);
  }

  // ---------------------------------------------------------------------------
  // Line shape
  // ---------------------------------------------------------------------------

  /** Every literal the pattern matches starts with an ASCII letter. */
  predicate LetterLed(p: Pattern) {
    match p
    case Bounded(w) => IsAsciiLetter(w[0])
    case Folded(alts) => forall a :: a in alts ==> IsAsciiLetter(a[0])
  }

  /** A rule whose matches start with a letter and whose inserted text holds no line feed. */
  predicate Tame(r: Rule) {
    match r
    case Global(p, rep) => LetterLed(p) && '\n' !in rep
    case Leading(_, suffix) => '\n' !in suffix
  }

  lemma HeadersAreTame()
    ensures forall r :: r in Headers ==> Tame(r)
  {
  }

  lemma LegendsAreTame()
    ensures forall r :: r in Legends ==> Tame(r)
  {
  }

  lemma SaveActionsAreTame()
    ensures forall r :: r in SaveActions ==> Tame(r)
  {
  }

  lemma KeysAreTame()
    ensures forall r :: r in Keys ==> Tame(r)
  {
  }

  lemma EntitiesAreTame()
    ensures forall r :: r in Entities ==> Tame(r)
  {
  }

  lemma AttributesAreTame()
    ensures forall r :: r in Attributes ==> Tame(r)
  {
  }

  lemma ActionsAreTame()
    ensures forall r :: r in Actions ==> Tame(r)
  {
  }

  lemma VerbsAreTame()
    ensures forall r :: r in Verbs ==> Tame(r)
  {
  }

  lemma TableIsTame()
    ensures forall r :: r in Table ==> Tame(r)
  {
    HeadersAreTame();
    LegendsAreTame();
    SaveActionsAreTame();
    KeysAreTame();
    EntitiesAreTame();
    AttributesAreTame();
    ActionsAreTame();
    VerbsAreTame();
  }

  /** A pattern whose literals start with a letter has no match where the text holds a non-letter. */
  lemma NoMatchAtNonLetter(p: Pattern, s: string, k: nat)
    requires LetterLed(p)
    requires k < |s| && !IsAsciiLetter(s[k])
    ensures MatchAt(p, s, k).None?
  {
    match p
    case Bounded(w) =>
      if k + |w| <= |s| {
        assert s[k..k + |w|][0] == s[k];
      }
    case Folded(alts) =>
      forall a | a in alts
        ensures !FoldsAt(s, k, a)
      {
        assert IsAsciiLetter(a[0]);
        assert !FoldEq(s[k + 0], a[0]);
      }
  }

  /** `SkipSpaces` stops exactly at the first non-space. */
  lemma SkipSpacesStopsAt(s: string, i: nat, j: nat)
    requires i <= j <= |s|
    requires forall k :: i <= k < j ==> IsJsSpace(s[k])
    requires j == |s| || !IsJsSpace(s[j])
    ensures SkipSpaces(s, i) == j
  {
  }

  /** A global rule of the table never touches the leading `\s*\*` of a comment line. */
  lemma GlobalKeepsStar(p: Pattern, rep: Word, s: string)
    requires LetterLed(p)
    requires IsStarLine(s)
    ensures IsStarLine(ReplaceFrom(p, rep, s, 0))
  {
    var a := SkipSpaces(s, 0);
    forall k | 0 <= k <= a
      ensures MatchAt(p, s, k).None?
    {
      NoMatchAtNonLetter(p, s, k);
    }
    ReplaceKeepsUnmatchedPrefix(p, rep, s, 0, a + 1);
    var o := ReplaceFrom(p, rep, s, 0);
    forall k | 0 <= k <= a
      ensures o[k] == s[k]
    {
      assert o[k] == o[..a + 1][k];
    }
    SkipSpacesStopsAt(o, 0, a);
  }

  /** Every rule of the table turns a comment line into a comment line. */
  lemma ApplyRuleKeepsStar(r: Rule, s: string)
    requires Tame(r)
    requires IsStarLine(s)
    ensures IsStarLine(ApplyRule(r, s))
  {
    match r
    case Global(p, rep) => GlobalKeepsStar(p, rep, s);
    case Leading(verbs, suffix) =>
      if LeadCapture(verbs, s).Some? {
        VerbRuleWritesStarLine(verbs, suffix, s);
      }
  }

  /** A verb rule that matches writes a bullet line. */
  lemma VerbRuleWritesStarLine(verbs: seq<Word>, suffix: string, s: string)
    requires LeadCapture(verbs, s).Some?
    ensures IsStarLine(ApplyRule(Leading(verbs, suffix), s))
  {
    var c := LeadCapture(verbs, s).value;
    BulletIsStar(s[c.start..c.end] + suffix + s[c.end..]);
  }

  /** A verb rule adds a line feed only through its suffix. */
  lemma VerbRuleKeepsLineFeedFree(verbs: seq<Word>, suffix: string, s: string)
    requires '\n' !in s && '\n' !in suffix
    ensures '\n' !in ApplyRule(Leading(verbs, suffix), s)
  {
    if LeadCapture(verbs, s).Some? {
      var c := LeadCapture(verbs, s).value;
      SliceKeepsAbsent(s, c.start, c.end, '\n');
      DropKeepsAbsent(s, c.end, '\n');
      BulletKeepsAbsent(s[c.start..c.end], suffix, s[c.end..], '\n');
    }
  }

  lemma BulletKeepsAbsent(x: string, suffix: string, y: string, c: char)
    requires c != ' ' && c != '*'
    requires c !in x && c !in suffix && c !in y
    ensures c !in " * " + (x + suffix + y)
  {
  }

  lemma DropKeepsAbsent(s: string, i: nat, c: char)
    requires i <= |s| && c !in s
    ensures c !in s[i..]
  {
    forall k | 0 <= k < |s| - i
      ensures s[i..][k] != c
    {
      assert s[i..][k] == s[i + k];
    }
  }

  /** The text a leading verb rule writes, ` * ` followed by anything, is a comment line. */
  lemma BulletIsStar(rest: string)
    ensures IsStarLine(" * " + rest)
  {
    var o := " * " + rest;
    assert o[0] == ' ' && o[1] == '*';
    SkipSpacesStopsAt(o, 0, 1);
  }

  lemma SliceKeepsAbsent(s: string, i: nat, j: nat, c: char)
    requires i <= j <= |s| && c !in s
    ensures c !in s[i..j]
  {
    forall k | 0 <= k < j - i
      ensures s[i..j][k] != c
    {
      assert s[i..j][k] == s[i + k];
    }
  }

  /** Every rule of the table keeps a line free of line feeds. */
  lemma ApplyRuleKeepsLineFeedFree(r: Rule, s: string)
    requires Tame(r)
    requires '\n' !in s
    ensures '\n' !in ApplyRule(r, s)
  {
    match r
    case Global(p, rep) =>
      ReplaceIntroducesOnly(p, rep, s, 0, '\n');
    case Leading(verbs, suffix) => VerbRuleKeepsLineFeedFree(verbs, suffix, s);
  }

  lemma {:induction false} ApplyRulesKeepsShape(rules: seq<Rule>, s: string)
    requires forall r :: r in rules ==> Tame(r)
    ensures IsStarLine(s) ==> IsStarLine(ApplyRules(rules, s))
    ensures '\n' !in s ==> '\n' !in ApplyRules(rules, s)
    decreases |rules|
  {
    if |rules| > 0 {
      if IsStarLine(s) {
        ApplyRuleKeepsStar(rules[0], s);
      }
      if '\n' !in s {
        ApplyRuleKeepsLineFeedFree(rules[0], s);
      }
      ApplyRulesKeepsShape(rules[1..], ApplyRule(rules[0], s));
    }
  }

  /**
   `translateLine` keeps a comment line a comment line, and adds no line
   feed, so the block it sits in keeps its line structure.
   */
  lemma TranslateLineKeepsShape(s: string)
    ensures IsStarLine(s) ==> IsStarLine(TranslateLine(s))
    ensures '\n' !in s ==> '\n' !in TranslateLine(s)
  {
    TableIsTame();
    ApplyRulesKeepsShape(Table, s);
  }

  // ---------------------------------------------------------------------------
  // Case sensitivity and word boundaries
  // ---------------------------------------------------------------------------

  /**
   A vocabulary rule matches any case variant of its literal, wherever it
   stands, even inside a longer word: `compositions` holds a match of
   `position`.
   */
  lemma FoldedMatchesInsideWords(w: Word, u: string, x: string, y: string)
    requires |u| == |w| && forall j :: 0 <= j < |w| ==> FoldEq(u[j], w[j])
    ensures MatchAt(Folded([w]), x + u + y, |x|) == Some(|w|)
  {
    var s := x + u + y;
    forall j | 0 <= j < |w|
      ensures FoldEq(s[|x| + j], w[j])
    {
      assert s[|x| + j] == u[j];
    }
    assert FoldsAt(s, |x|, w);
  }

  /** A header rule does not fire on a word that is glued to a preceding word character. */
  lemma BoundedNeedsBoundaryBefore(w: Word, s: string, k: nat)
    requires IsWordChar(w[0])
    requires 0 < k <= |s| && IsWordChar(s[k - 1])
    ensures MatchAt(Bounded(w), s, k).None?
  {
    if k < |s| && k + |w| <= |s| {
      assert s[k..k + |w|][0] == s[k];
    }
  }

  /** A header rule does not fire on a word that runs on into a following word character. */
  lemma BoundedNeedsBoundaryAfter(w: Word, s: string, k: nat)
    requires IsWordChar(w[|w| - 1])
    requires k + |w| < |s| && IsWordChar(s[k + |w|])
    ensures MatchAt(Bounded(w), s, k).None?
  {
    assert s[k..k + |w|][|w| - 1] == s[k + |w| - 1];
  }

  /** A header rule matches only its exact upper-case spelling. */
  lemma BoundedIsCaseSensitive(w: Word, s: string, k: nat)
    requires MatchAt(Bounded(w), s, k).Some?
    ensures s[k..k + |w|] == w
  {
  }
}
