/**
 The rule engine of scripts/translate-comments_02M.js: the ordered table of
 search-and-replace rules that `translateLine` folds over one comment line.

 Each `s.replace(regex, text)` call of the source becomes one `Rule` value.
 The regular expressions are encoded by hand:
 - `/\bWORD\b/g` is `Global(Bounded(WORD), …)`: case-sensitive, ASCII word boundaries;
 - `/a(b)?c/gi` is `Global(Folded(["abc", "ac"]), …)`: its alternatives in the order
   a backtracking matcher tries them (an optional group is tried present first),
   compared with ASCII case folding;
 - `/^\s*\*\s*VERB\s+(.+)/i` is `Leading([VERB forms…], suffix)`.
 */
module Rules {
  import opened Wrappers
  import opened Text

  /** A non-empty literal: every pattern alternative and every vocabulary replacement. */
  type Word = w: string | |w| > 0 witness "*"

  /** The matcher of a global (`/g`) rule. */
  datatype Pattern =
    | Bounded(word: Word)
    | Folded(alternatives: seq<Word>)

  datatype Rule =
      /** `s.replace(pattern, replacement)` with the `g` flag: every non-overlapping match, left to right. */
    | Global(pattern: Pattern, replacement: Word)
      /** `s.replace(/^\s*\*\s*VERB\s+(.+)/i, ' * $1' + suffix)`: at most one match, at the start of the line. */
    | Leading(verbs: seq<Word>, suffix: string)

  // ---------------------------------------------------------------------------
  // Global rules
  // ---------------------------------------------------------------------------

  /**
   The first alternative, in the order the matcher tries them, that occurs
   (folded) at position `i`, as the length it consumes.
   */
  function FirstFold(alternatives: seq<Word>, s: string, i: nat): (r: Option<nat>)
    ensures r.Some? ==> exists n :: 0 <= n < |alternatives| && FirstFolding(alternatives, s, i, n) && r.value == |alternatives[n]|
    ensures r.None? <==> forall w :: w in alternatives ==> !FoldsAt(s, i, w)
    decreases |alternatives|
  {
    if |alternatives| == 0 then None
    else if FoldsAt(s, i, alternatives[0]) then
      assert FirstFolding(alternatives, s, i, 0);
      Some(|alternatives[0]|)
    else
      var r := FirstFold(alternatives[1..], s, i);
      if r.Some? then
        var n :| 0 <= n < |alternatives| - 1 && FirstFolding(alternatives[1..], s, i, n) && r.value == |alternatives[1..][n]|;
        assert FirstFolding(alternatives, s, i, n + 1);
        r
      else
        r
  }

  /** Alternative `n` occurs (folded) at `i`, and no alternative before it does. */
  predicate FirstFolding(alternatives: seq<Word>, s: string, i: nat, n: nat)
    requires n < |alternatives|
  {
    FoldsAt(s, i, alternatives[n]) && forall m :: 0 <= m < n ==> !FoldsAt(s, i, alternatives[m])
  }

  /** The length of the match of `p` that starts exactly at position `i` of `s`, if there is one. */
  function MatchAt(p: Pattern, s: string, i: nat): (r: Option<nat>)
    ensures r.Some? ==> 0 < r.value && i + r.value <= |s|
    ensures p.Bounded? ==>
      (r.Some? <==> LiteralAt(s, i, p.word) && IsBoundary(s, i) && IsBoundary(s, i + |p.word|))
    ensures p.Bounded? && r.Some? ==> r.value == |p.word|
    ensures p.Folded? ==>
      (r.None? <==> forall w :: w in p.alternatives ==> !FoldsAt(s, i, w))
    ensures p.Folded? && r.Some? ==>
      exists n :: 0 <= n < |p.alternatives| && FirstFolding(p.alternatives, s, i, n) && r.value == |p.alternatives[n]|
  {
    match p
    case Bounded(w) =>
      if LiteralAt(s, i, w) && IsBoundary(s, i) && IsBoundary(s, i + |w|) then Some(|w|) else None
    case Folded(alts) => FirstFold(alts, s, i)
  }

  /**
   The output of a global replace from position `i` on: at each position the
   match starting there, if any, is replaced and scanning resumes after it;
   otherwise the character is copied. Inserted text is never rescanned, and
   word boundaries are judged on the original string.
   */
  function ReplaceFrom(p: Pattern, rep: Word, s: string, i: nat): string
    requires i <= |s|
    decreases |s| - i
  {
    if i == |s| then []
    else match MatchAt(p, s, i)
      case Some(n) => rep + ReplaceFrom(p, rep, s, i + n)
      case None => [s[i]] + ReplaceFrom(p, rep, s, i + 1)
  }

  // ---------------------------------------------------------------------------
  // Leading description verb rules
  // ---------------------------------------------------------------------------

  /** The end of the run of `\s` characters that starts at `i`. */
  function SkipSpaces(s: string, i: nat): (j: nat)
    requires i <= |s|
    ensures i <= j <= |s|
    ensures forall k :: i <= k < j ==> IsJsSpace(s[k])
    ensures j == |s| || !IsJsSpace(s[j])
    decreases |s| - i
  {
    if i < |s| && IsJsSpace(s[i]) then SkipSpaces(s, i + 1) else i
  }

  /**
   Where `(.+)` starts after a greedy `\s+` that may give characters back:
   the last position in `lo..hi` that holds a character `.` accepts.
   */
  function GroupStart(s: string, lo: nat, hi: nat): (r: Option<nat>)
    requires lo <= hi <= |s|
    ensures r.Some? ==> lo <= r.value <= hi && r.value < |s| && !IsLineTerminator(s[r.value])
    ensures r.Some? ==> forall q :: r.value < q <= hi && q < |s| ==> IsLineTerminator(s[q])
    ensures r.None? ==> forall q :: lo <= q <= hi && q < |s| ==> IsLineTerminator(s[q])
    decreases hi
  {
    if hi < |s| && !IsLineTerminator(s[hi]) then Some(hi)
    else if hi == lo then None
    else GroupStart(s, lo, hi - 1)
  }

  /** Where a greedy `.+` begun at `p` stops: the first line terminator at or after `p`, or the end. */
  function LineEnd(s: string, p: nat): (e: nat)
    requires p <= |s|
    ensures p <= e <= |s|
    ensures e == |s| || IsLineTerminator(s[e])
    ensures forall k :: p <= k < e ==> !IsLineTerminator(s[k])
    decreases |s| - p
  {
    if p == |s| || IsLineTerminator(s[p]) then p else LineEnd(s, p + 1)
  }

  /** The span `[start, end)` of the text captured by `(.+)`. */
  datatype Capture = Capture(start: nat, end: nat)

  /**
   The shape after a verb that ends at `j0`: at least one `\s`, then a
   character that `.` accepts somewhere before the whitespace run ends.
   */
  predicate HasRest(s: string, j0: nat)
    requires j0 <= |s|
  {
    var j := SkipSpaces(s, j0);
    j > j0 && GroupStart(s, j0 + 1, j).Some?
  }

  /** Verb form `n` sits at `b` with the rest the rule needs after it, and no earlier form does. */
  predicate FirstVerb(verbs: seq<Word>, s: string, b: nat, n: nat)
    requires b <= |s| && n < |verbs|
  {
    (FoldsAt(s, b, verbs[n]) && HasRest(s, b + |verbs[n]|))
    && forall m :: 0 <= m < n ==> !(FoldsAt(s, b, verbs[m]) && HasRest(s, b + |verbs[m]|))
  }

  /** Where `(.+)` starts when verb form `v` sits at `b`: after the greedy `\s+` has given back what it must. */
  function CaptureStart(s: string, b: nat, v: Word): nat
    requires b + |v| <= |s| && HasRest(s, b + |v|)
  {
    GroupStart(s, b + |v| + 1, SkipSpaces(s, b + |v|)).value
  }

  /** The capture starts at `start` because verb form `n` is the first that applies at `b`. */
  predicate CapturedBy(verbs: seq<Word>, s: string, b: nat, n: nat, start: nat)
    requires b <= |s| && n < |verbs|
  {
    FirstVerb(verbs, s, b, n) && start == CaptureStart(s, b, verbs[n])
  }

  /**
   The verb form the matcher settles on at `b`: it tries the forms in order,
   as it backtracks through `s?`, and takes the first one that is followed by
   the rest the rule needs.
   */
  function FirstVerbAt(verbs: seq<Word>, s: string, b: nat): (r: Option<nat>)
    requires b <= |s|
    ensures r.Some? ==> r.value < |verbs| && FirstVerb(verbs, s, b, r.value)
    ensures r.None? <==> forall v :: v in verbs ==> !(FoldsAt(s, b, v) && HasRest(s, b + |v|))
    decreases |verbs|
  {
    if |verbs| == 0 then None
    else if FoldsAt(s, b, verbs[0]) && HasRest(s, b + |verbs[0]|) then Some(0)
    else
      match FirstVerbAt(verbs[1..], s, b)
      case None => None
      case Some(n) =>
        FirstVerbShift(verbs, s, b, n);
        Some(n + 1)
  }

  /** A form that applies first among the later forms applies first overall when the first form does not apply. */
  lemma FirstVerbShift(verbs: seq<Word>, s: string, b: nat, n: nat)
    requires b <= |s| && n + 1 < |verbs|
    requires !(FoldsAt(s, b, verbs[0]) && HasRest(s, b + |verbs[0]|))
    requires FirstVerb(verbs[1..], s, b, n)
    ensures FirstVerb(verbs, s, b, n + 1)
  {
    assert verbs[n + 1] == verbs[1..][n];
    forall m | 1 <= m < n + 1
      ensures !(FoldsAt(s, b, verbs[m]) && HasRest(s, b + |verbs[m]|))
    {
      assert verbs[m] == verbs[1..][m - 1];
    }
  }

  /**
   A verb rule at position `b`: the first verb form that applies decides
   where the capture starts, and the capture runs to the end of the line.
   */
  function VerbCapture(verbs: seq<Word>, s: string, b: nat): (r: Option<Capture>)
    requires b <= |s|
    ensures r.Some? <==> exists v :: v in verbs && FoldsAt(s, b, v) && HasRest(s, b + |v|)
    ensures r.Some? ==> b < r.value.start < r.value.end <= |s|
    ensures r.Some? ==> exists n :: 0 <= n < |verbs| && CapturedBy(verbs, s, b, n, r.value.start)
    ensures r.Some? ==> r.value.end == LineEnd(s, r.value.start)
  {
    match FirstVerbAt(verbs, s, b)
    case None => None
    case Some(n) =>
      var p := CaptureStart(s, b, verbs[n]);
      assert CapturedBy(verbs, s, b, n, p);
      Some(Capture(p, LineEnd(s, p)))
  }

  /** `^\s*\*\s*`: the position after the leading star and the whitespace around it, if the line has one. */
  function StarPrefix(s: string): (r: Option<nat>)
    ensures r.Some? ==> r.value <= |s|
  {
    var a := SkipSpaces(s, 0);
    if a < |s| && s[a] == '*' then Some(SkipSpaces(s, a + 1)) else None
  }

  /** The `^\s*\*` test of `translateBlock`: the lines the rule table is applied to. */
  predicate IsStarLine(s: string) {
    StarPrefix(s).Some?
  }

  /**
   The captured rest of a line that a leading verb rule matches: the line
   starts with optional whitespace, a star and optional whitespace, then one
   of the verb forms, at least one whitespace character, and a non-empty rest
   that runs to the first line terminator.
   */
  function LeadCapture(verbs: seq<Word>, s: string): (r: Option<Capture>)
    ensures r.Some? <==> (IsStarLine(s) &&
      exists v :: v in verbs && FoldsAt(s, StarPrefix(s).value, v) && HasRest(s, StarPrefix(s).value + |v|))
    ensures r.Some? ==> 0 < r.value.start < r.value.end <= |s|
    ensures r.Some? ==> exists n :: 0 <= n < |verbs| && CapturedBy(verbs, s, StarPrefix(s).value, n, r.value.start)
    ensures r.Some? ==> r.value.end == LineEnd(s, r.value.start)
  {
    match StarPrefix(s)
    case Some(b) => VerbCapture(verbs, s, b)
    case None => None
  }

  // ---------------------------------------------------------------------------
  // The fold
  // ---------------------------------------------------------------------------

  /**
   One `s = s.replace(…)` step of `translateLine`. A verb rule that matches
   replaces the line up to its capture by a bullet, and appends its suffix
   right after the capture, before the line terminator and what follows it.
   */
  function ApplyRule(rule: Rule, s: string): (r: string)
    ensures rule.Leading? && LeadCapture(rule.verbs, s).None? ==> r == s
    ensures rule.Leading? && LeadCapture(rule.verbs, s).Some? ==>
      var c := LeadCapture(rule.verbs, s).value;
      r == " * " + (s[c.start..c.end] + rule.suffix + s[c.end..])
  {
    match rule
    case Global(p, rep) => ReplaceFrom(p, rep, s, 0)
    case Leading(verbs, suffix) =>
      match LeadCapture(verbs, s)
      case Some(c) => " * " + (s[c.start..c.end] + suffix + s[c.end..])
      case None => s
  }

  /** Applies the rules in order, each to the previous rule's output. */
  function ApplyRules(rules: seq<Rule>, s: string): string
    decreases |rules|
  {
    if |rules| == 0 then s else ApplyRules(rules[1..], ApplyRule(rules[0], s))
  }

  /** Section headers. */
  const Headers: seq<Rule> := [
    Global(Bounded("MOUSE"), "マウス"),
    Global(Bounded("KEYS"), "キー")
  ]

  /** Common legends. */
  const Legends: seq<Rule> := [
    Global(Folded(["position x/y"]), "位置 x/y"),
    Global(Folded(["position x"]), "位置 x"),
    Global(Folded(["position y"]), "位置 y"),
    Global(Folded(["left click"]), "左クリック"),
    Global(Folded(["right click"]), "右クリック"),
    Global(Folded(["middle click"]), "ミドルクリック"),
    Global(Folded(["double click"]), "ダブルクリック"),
    Global(Folded(["drag the mouse", "drag mouse"]), "マウスドラッグ"),
    Global(Folded(["move the mouse", "move mouse"]), "マウス移動")
  ]

  /** Save actions. */
  const SaveActions: seq<Rule> := [
    Global(Folded(["save png"]), "PNG を保存"),
    Global(Folded(["save jpg", "save jpeg"]), "JPG を保存"),
    Global(Folded(["save pdf"]), "PDF を保存"),
    Global(Folded(["save svg"]), "SVG を保存"),
    Global(Folded(["save gif"]), "GIF を保存"),
    Global(Folded(["save color palette", "save palette"]), "カラーパレットを保存")
  ]

  /** Arrows and keys. */
  const Keys: seq<Rule> := [
    Global(Folded(["arrow up/down"]), "↑/↓"),
    Global(Folded(["arrow left/right"]), "←/→"),
    Global(Folded(["space bar", "space"]), "スペース"),
    Global(Folded(["backspace"]), "Backspace"),
    Global(Folded(["delete"]), "Delete"),
    Global(Folded(["shift"]), "Shift"),
    Global(Folded(["ctrl"]), "Ctrl"),
    Global(Folded(["cmd"]), "Cmd"),
    Global(Folded(["alt"]), "Alt"),
    Global(Folded(["option", "opt"]), "Option")
  ]

  /** Entities. */
  const Entities: seq<Rule> := [
    Global(Folded(["circles", "circle"]), "円"),
    Global(Folded(["rectangles", "rectangle"]), "四角形"),
    Global(Folded(["lines", "line"]), "線"),
    Global(Folded(["modules", "module"]), "モジュール"),
    Global(Folded(["grid"]), "グリッド"),
    Global(Folded(["row and coloum count", "row and colom count"]), "行数と列数")
  ]

  /** Attributes. */
  const Attributes: seq<Rule> := [
    Global(Folded(["size"]), "サイズ"),
    Global(Folded(["color"]), "色"),
    Global(Folded(["opacity"]), "不透明度"),
    Global(Folded(["alpha"]), "アルファ"),
    Global(Folded(["stroke"]), "線"),
    Global(Folded(["fill"]), "塗り"),
    Global(Folded(["background"]), "背景"),
    Global(Folded(["foreground"]), "前景"),
    Global(Folded(["offset"]), "オフセット"),
    Global(Folded(["position"]), "位置"),
    Global(Folded(["rotation"]), "回転"),
    Global(Folded(["angle"]), "角度"),
    Global(Folded(["thickness", "weight"]), "太さ"),
    Global(Folded(["scale"]), "スケール"),
    Global(Folded(["density"]), "密度"),
    Global(Folded(["speed"]), "速度")
  ]

  /** Actions. */
  const Actions: seq<Rule> := [
    Global(Folded(["random position"]), "ランダム位置"),
    Global(Folded(["toggle"]), "切り替え"),
    Global(Folded(["increase"]), "増やす"),
    Global(Folded(["decrease"]), "減らす"),
    Global(Folded(["reset"]), "リセット")
  ]

  /** Leading description verbs. */
  const Verbs: seq<Rule> := [
    Leading(["changing"], "を変化させます。"),
    Leading(["change"], "を変化させます。"),
    Leading(["generates", "generate"], "を生成します。"),
    Leading(["draws", "draw"], "を描画します。"),
    Leading(["creates", "create"], "を作成します。"),
    Leading(["makes", "make"], "を作ります。")
  ]

  /** The rule table of `translateLine`, in declaration order. */
  const Table: seq<Rule> :=
    Headers + Legends + SaveActions + Keys + Entities + Attributes + Actions + Verbs

  /** `translateLine`: the whole table folded over one line. */
  function TranslateLine(line: string): string
  {
    ApplyRules(Table, line)
  }
}
