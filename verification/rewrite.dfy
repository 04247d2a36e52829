/**
 `processFile` of scripts/translate-comments_02M.js: locate the first
 documentation block of a file, translate it, and write the file back when the
 translation differs. The file system is a value: a map from paths to texts
 plus the set of paths that refuse writing.
 */
module Rewrite {
  import opened Wrappers
  import opened Text
  import opened Block
  import Closers

  /** The half-open range `[start, end)` of a text. */
  datatype Span = Span(start: nat, end: nat)

  /**
   The match of the lazy block-comment pattern: the first opener (slash, star,
   star) that has a closer (star, slash) after it, and the nearest such
   closer. The closer may not share the opener's star, so it starts three or
   more characters after the opener.
   */
  function FindDocBlock(src: string): (r: Option<Span>)
    ensures r.Some? ==> r.value.start + 5 <= r.value.end <= |src|
    ensures r.Some? ==> LiteralAt(src, r.value.start, "/**")
    ensures r.Some? ==> forall k :: 0 <= k < r.value.start ==> !LiteralAt(src, k, "/**")
    ensures r.Some? ==> LiteralAt(src, r.value.end - 2, "*/")
    ensures r.Some? ==> forall k :: r.value.start + 3 <= k < r.value.end - 2 ==> !LiteralAt(src, k, "*/")
    ensures r.None? <==> !exists p: nat, q: nat :: p + 3 <= q && LiteralAt(src, p, "/**") && LiteralAt(src, q, "*/")
  {
    var p := IndexOf(src, "/**", 0);
    if p < 0 then
      None
    else
      var q := IndexOf(src, "*/", p + 3);
      if q < 0 then
        assert forall p': nat, q': nat :: p' + 3 <= q' && LiteralAt(src, p', "/**") && LiteralAt(src, q', "*/") ==> q' <= |src| && p + 3 <= q';
        None
      else
        assert p + 3 <= q && LiteralAt(src, p, "/**") && LiteralAt(src, q, "*/");
        Some(Span(p, q + 2))
  }

  // ---------------------------------------------------------------------------
  // Replacing the block
  // ---------------------------------------------------------------------------

  /**
   The replacement patterns of `String.prototype.replace` with a string
   pattern (GetSubstitution, section 22.1.3.19.1 of ECMA-262 2023): `$$` is a
   dollar, `$&` the matched text, `` $` `` the text before the match, `$'`
   the text after it; any other dollar stands for itself, as there are no
   capture groups.
   */
  function Substitute(rep: string, matched: string, before: string, after: string): string
    decreases |rep|
  {
    if |rep| == 0 then ""
    else if rep[0] == '$' && |rep| >= 2 && rep[1] == '$' then "$" + Substitute(rep[2..], matched, before, after)
    else if rep[0] == '$' && |rep| >= 2 && rep[1] == '&' then matched + Substitute(rep[2..], matched, before, after)
    else if rep[0] == '$' && |rep| >= 2 && rep[1] == '`' then before + Substitute(rep[2..], matched, before, after)
    else if rep[0] == '$' && |rep| >= 2 && rep[1] == '\'' then after + Substitute(rep[2..], matched, before, after)
    else [rep[0]] + Substitute(rep[1..], matched, before, after)
  }

  /** A replacement without a dollar sign is inserted as it is. */
  lemma {:induction false} SubstituteWithoutDollar(rep: string, matched: string, before: string, after: string)
    requires '$' !in rep
    ensures Substitute(rep, matched, before, after) == rep
    decreases |rep|
  {
    if |rep| > 0 {
      assert rep[0] != '$';
      assert '$' !in rep[1..];
      SubstituteWithoutDollar(rep[1..], matched, before, after);
      assert rep == [rep[0]] + rep[1..];
    }
  }

  /** `src.replace(pattern, rep)` with a string pattern: only the first occurrence is replaced. */
  function ReplaceFirst(src: string, pattern: string, rep: string): string
  {
    var i := IndexOf(src, pattern, 0);
    if i < 0 then src
    else
      var after := src[i + |pattern|..];
      src[..i] + Substitute(rep, pattern, src[..i], after) + after
  }

  /** The text with the range `span` replaced by `text`, character for character. */
  function Splice(src: string, span: Span, text: string): (r: string)
    requires span.start <= span.end <= |src|
    ensures |r| == |src| - (span.end - span.start) + |text|
    ensures r[..span.start] == src[..span.start]
    ensures r[span.start..span.start + |text|] == text
    ensures r[span.start + |text|..] == src[span.end..]
  {
    src[..span.start] + text + src[span.end..]
  }

  /** The first documentation block is also the first occurrence of its own text. */
  lemma BlockIsFirstOccurrence(src: string)
    requires FindDocBlock(src).Some?
    ensures var b := FindDocBlock(src).value;
      IndexOf(src, src[b.start..b.end], 0) == b.start
  {
    var b := FindDocBlock(src).value;
    var original := src[b.start..b.end];
    assert original[..3] == "/**";
    forall k | 0 <= k < b.start && LiteralAt(src, k, original)
      ensures false
    {
      assert src[k..k + 3] == original[..3];
      assert LiteralAt(src, k, "/**");
    }
    assert LiteralAt(src, b.start, original);
  }

  /** Without a dollar sign, `replace` puts the replacement exactly where the first occurrence was. */
  lemma ReplaceFirstWithoutDollar(src: string, pattern: string, rep: string, i: nat)
    requires IndexOf(src, pattern, 0) == i && '$' !in rep
    ensures i + |pattern| <= |src|
    ensures ReplaceFirst(src, pattern, rep) == src[..i] + rep + src[i + |pattern|..]
  {
    SubstituteWithoutDollar(rep, pattern, src[..i], src[i + |pattern|..]);
  }

  /**
   As long as the translation holds no dollar sign, the `replace` call of the
   source puts the translation exactly where the block was.
   */
  lemma ReplaceFirstIsSpliceWithoutDollar(src: string, translated: string)
    requires FindDocBlock(src).Some?
    requires '$' !in translated
    ensures var b := FindDocBlock(src).value;
      ReplaceFirst(src, src[b.start..b.end], translated) == Splice(src, b, translated)
  {
    var b := FindDocBlock(src).value;
    var original := src[b.start..b.end];
    BlockIsFirstOccurrence(src);
    ReplaceFirstWithoutDollar(src, original, translated, b.start);
  }

  // ---------------------------------------------------------------------------
  // Deciding what to write
  // ---------------------------------------------------------------------------

  /** What `processFile` does with a text it has read. */
  datatype Decision =
    | NoBlock
    | Keep(block: Span)
    | Change(block: Span, translated: string)

  /**
   No block: nothing to do. A block whose translation is missing (Japanese
   present), empty (JavaScript treats it as false) or equal to the block: keep.
   Otherwise: change.
   */
  function Decide(src: string): (d: Decision)
    ensures d.NoBlock? <==> FindDocBlock(src).None?
    ensures !d.NoBlock? ==> FindDocBlock(src) == Some(d.block)
    ensures d.Change? ==> d.translated != src[d.block.start..d.block.end]
    ensures d.Change? ==> TranslateBlock(src[d.block.start..d.block.end]) == Some(d.translated)
    ensures d.Keep? ==> TranslateBlock(src[d.block.start..d.block.end]) in {None, Some(""), Some(src[d.block.start..d.block.end])}
  {
    match FindDocBlock(src)
    case None => NoBlock
    case Some(b) =>
      var original := src[b.start..b.end];
      var translated := TranslateBlock(original);
      if translated.None? || translated.value == "" || translated.value == original then Keep(b)
      else Change(b, translated.value)
  }

  /** The text `processFile` writes, with the block replaced literally. */
  function Rewritten(src: string): (r: Option<string>)
    ensures r.Some? <==> Decide(src).Change?
  {
    match Decide(src)
    case Change(b, translated) => Some(Splice(src, b, translated))
    case _ => None
  }

  /** The text the source's `src.replace(original, translated)` writes. */
  function RewrittenAsWritten(src: string): (r: Option<string>)
    ensures r.Some? <==> Decide(src).Change?
  {
    match Decide(src)
    case Change(b, translated) => Some(ReplaceFirst(src, src[b.start..b.end], translated))
    case _ => None
  }

  /** A block that already holds Japanese is never rewritten. */
  lemma JapaneseBlockIsKept(src: string)
    requires FindDocBlock(src).Some?
    requires var b := FindDocBlock(src).value; HasJapanese(src[b.start..b.end])
    ensures Decide(src).Keep?
    ensures Rewritten(src).None?
  {
  }

  /**
   A rewrite puts the translation, literally, where the block was and keeps
   everything outside the block: the text before it, the text after it, and a
   length that changes by exactly the growth of the block.
   */
  lemma RewriteKeepsSurroundings(src: string)
    requires Rewritten(src).Some?
    ensures var b := Decide(src).block;
      var t := Decide(src).translated;
      var out := Rewritten(src).value;
      |out| - |src| == |t| - (b.end - b.start) &&
      out[..b.start] == src[..b.start] &&
      out[b.start..b.start + |t|] == t &&
      out[b.start + |t|..] == src[b.end..]
  {
  }

  /** Without a dollar sign in the translation the source's `replace` and the literal splice agree. */
  lemma AsWrittenAgreesWithoutDollar(src: string)
    requires Decide(src).Change? && '$' !in Decide(src).translated
    ensures RewrittenAsWritten(src) == Rewritten(src)
  {
    ReplaceFirstIsSpliceWithoutDollar(src, Decide(src).translated);
  }

  // ---------------------------------------------------------------------------
  // The file system
  // ---------------------------------------------------------------------------

  /** The errors `readFileSync` and `writeFileSync` raise here. */
  datatype FsError = NotFound(path: string) | NotWritable(path: string)

  /** File contents by path, and the paths whose files cannot be written. */
  datatype FileSystem = FileSystem(files: map<string, string>, readOnly: set<string>)

  /** The outcomes `processFile` reports when it returns normally. */
  datatype Outcome = Updated | NoJavadoc | SkipOrNoChange

  /** The state after a call, with its outcome or the exception it raised. */
  datatype Step = Step(result: Result<Outcome, FsError>, fs: FileSystem)

  /**
   `processFile`: read, decide, and write back when the block changes. Reading
   a missing file and writing a read-only one raise errors; only a change
   writes, and only the file itself.
   */
  function ProcessFile(fs: FileSystem, path: string): (s: Step)
    ensures s.fs.readOnly == fs.readOnly && s.fs.files.Keys == fs.files.Keys
    ensures path !in fs.files ==> s == Step(Err(NotFound(path)), fs)
    ensures s.result == Ok(Updated) <==> path in fs.files && Rewritten(fs.files[path]).Some? && path !in fs.readOnly
    ensures s.result == Ok(Updated) ==> s.fs.files == fs.files[path := Rewritten(fs.files[path]).value]
    ensures s.result != Ok(Updated) ==> s.fs == fs
    ensures s.result == Ok(NoJavadoc) <==> path in fs.files && FindDocBlock(fs.files[path]).None?
    ensures s.result == Err(NotWritable(path)) <==> path in fs.files && Rewritten(fs.files[path]).Some? && path in fs.readOnly
    ensures s.result == Ok(SkipOrNoChange) <==> path in fs.files && FindDocBlock(fs.files[path]).Some? && Rewritten(fs.files[path]).None?
    ensures s.result.Err? ==> s.result.error.path == path && (s.result.error.NotFound? <==> path !in fs.files)
  {
    if path !in fs.files then Step(Err(NotFound(path)), fs)
    else
      var src := fs.files[path];
      match Decide(src)
      case NoBlock => Step(Ok(NoJavadoc), fs)
      case Keep(_) => Step(Ok(SkipOrNoChange), fs)
      case Change(b, translated) =>
        if path in fs.readOnly then Step(Err(NotWritable(path)), fs)
        else Step(Ok(Updated), fs.(files := fs.files[path := Splice(src, b, translated)]))
  }

  /** A file whose first block already holds Japanese is left as it is and reported as skipped. */
  lemma TranslatedFileIsSkipped(fs: FileSystem, path: string)
    requires path in fs.files && FindDocBlock(fs.files[path]).Some?
    requires var src := fs.files[path]; var b := FindDocBlock(src).value; HasJapanese(src[b.start..b.end])
    ensures ProcessFile(fs, path) == Step(Ok(SkipOrNoChange), fs)
  {
    JapaneseBlockIsKept(fs.files[path]);
  }

  // ---------------------------------------------------------------------------
  // Running again
  // ---------------------------------------------------------------------------

  /** Splicing a text that starts with an opener where the first opener was keeps the first opener there. */
  lemma SpliceKeepsOpener(src: string, b: Span, t: string)
    requires b.start <= b.end <= |src|
    requires forall k :: 0 <= k < b.start ==> !LiteralAt(src, k, "/**")
    requires LiteralAt(t, 0, "/**")
    ensures LiteralAt(Splice(src, b, t), b.start, "/**")
    ensures forall k :: 0 <= k < b.start ==> !LiteralAt(Splice(src, b, t), k, "/**")
  {
    var out := Splice(src, b, t);
    assert out[b.start..b.start + 3] == t[..3];
    forall k | 0 <= k < b.start
      ensures !LiteralAt(out, k, "/**")
    {
      if k + 3 <= b.start {
        assert out[k..k + 3] == src[k..k + 3];
        assert !LiteralAt(src, k, "/**");
      } else {
        var i := b.start - k;
        assert 1 <= i <= 2 && k + 3 <= |out|;
        assert out[b.start] == t[0] == '/';
        assert out[k..k + 3][i] == out[b.start];
        assert "/**"[i] == '*';
      }
    }
  }

  /** The translation that a change writes starts with the opener of the block it replaces. */
  lemma TranslatedStartsWithOpener(src: string)
    requires Decide(src).Change?
    ensures LiteralAt(Decide(src).translated, 0, "/**")
  {
    var b := Decide(src).block;
    var original := src[b.start..b.end];
    assert original[..3] == src[b.start..b.start + 3];
    assert LiteralAt(original, 0, "/**");
    TranslationKeepsOpener(original);
  }

  /** A slice that starts at an opener starts with it. */
  lemma OpenerInSlice(src: string, i: nat, j: nat)
    requires i + 3 <= j <= |src| && LiteralAt(src, i, "/**")
    ensures LiteralAt(src[i..j], 0, "/**")
  {
    assert forall k :: 0 <= k < 3 ==> src[i..j][..3][k] == src[i + k];
  }

  /** The first block runs from an opener to a closer. */
  lemma BlockShape(src: string, b: Span)
    requires FindDocBlock(src) == Some(b)
    ensures var original := src[b.start..b.end];
      |original| >= 5 && LiteralAt(original, 0, "/**") && LiteralAt(original, |original| - 2, "*/")
  {
    OpenerInSlice(src, b.start, b.end);
    Closers.CloserInSlice(src, b.start, b.end, b.end - 2);
  }

  /** The block a change rewrites: opener first, closer last, and no Japanese. */
  lemma ChangedBlockShape(src: string)
    requires Decide(src).Change?
    ensures var b := Decide(src).block; var original := src[b.start..b.end];
      |original| >= 5 && LiteralAt(original, 0, "/**") && LiteralAt(original, |original| - 2, "*/") &&
      !HasJapanese(original) && TranslateBlock(original) == Some(Decide(src).translated)
  {
    BlockShape(src, Decide(src).block);
  }

  /** A closer of the inserted text is a closer of the spliced text. */
  lemma CloserInSplice(src: string, b: Span, t: string, q: nat)
    requires b.start <= b.end <= |src| && LiteralAt(t, q, "*/")
    ensures LiteralAt(Splice(src, b, t), b.start + q, "*/")
  {
    Closers.CloserInContext(src[..b.start], t, src[b.end..], q);
  }

  /**
   The rewritten text still has a first block, and it starts where the old
   one did: the translation keeps the opener in front and a closer after it.
   */
  lemma RewriteKeepsBlockStart(src: string)
    requires Rewritten(src).Some?
    ensures FindDocBlock(Rewritten(src).value).Some?
    ensures FindDocBlock(Rewritten(src).value).value.start == Decide(src).block.start
  {
    var b := Decide(src).block;
    var t := Decide(src).translated;
    var out := Rewritten(src).value;
    assert out == Splice(src, b, t);
    ChangedBlockShape(src);
    var q := Closers.TranslationKeepsCloser(src[b.start..b.end]);
    TranslatedStartsWithOpener(src);
    SpliceKeepsOpener(src, b, t);
    CloserInSplice(src, b, t, q);
    assert b.start + 3 <= b.start + q && LiteralAt(out, b.start, "/**") && LiteralAt(out, b.start + q, "*/");
    var nb := FindDocBlock(out).value;
    assert !(nb.start < b.start);
    assert !(b.start < nb.start);
  }

  /**
   A block that starts where a text `t` sits in `out` reaches past every
   character of `t` that comes before any closer of `t`'s own.
   */
  lemma CharInsideBlock(out: string, nb: Span, t: string, j: nat)
    requires nb.start + 5 <= nb.end <= |out| && nb.start + |t| <= |out|
    requires out[nb.start..nb.start + |t|] == t
    requires LiteralAt(out, nb.end - 2, "*/")
    requires forall k :: nb.start + 3 <= k < nb.end - 2 ==> !LiteralAt(out, k, "*/")
    requires 3 <= j < |t| && forall k :: 3 <= k < j ==> !LiteralAt(t, k, "*/")
    ensures nb.start + j < nb.end && out[nb.start + j] == t[j]
  {
    var a := nb.start;
    forall i | 0 <= i < |t|
      ensures out[a + i] == t[i]
    {
      assert out[a..a + |t|][i] == out[a + i];
    }
    forall p | a + 3 <= p < a + j
      ensures !LiteralAt(out, p, "*/")
    {
      var k := p - a;
      assert out[p] == t[k] && out[p + 1] == t[k + 1];
      assert !LiteralAt(t, k, "*/");
      assert out[p..p + 2] == t[k..k + 2];
    }
    var q := nb.end - 2;
    assert LiteralAt(out, q, "*/");
    assert q - a >= j;
    assert out[a..a + |t|][j] == out[a + j];
  }

  /**
   A block that starts with an opening text `t` holds a Japanese character
   that `t` has before any closer of its own.
   */
  lemma JapaneseInsideBlock(out: string, nb: Span, t: string, j: nat)
    requires nb.start + 5 <= nb.end <= |out| && nb.start + |t| <= |out|
    requires out[nb.start..nb.start + |t|] == t
    requires LiteralAt(out, nb.end - 2, "*/")
    requires forall k :: nb.start + 3 <= k < nb.end - 2 ==> !LiteralAt(out, k, "*/")
    requires LiteralAt(t, 0, "/**")
    requires j < |t| && IsJapanese(t[j]) && forall k :: 3 <= k < j ==> !LiteralAt(t, k, "*/")
    ensures HasJapanese(out[nb.start..nb.end])
  {
    assert t[..3] == "/**";
    assert t[..3][0] == t[0] && t[..3][1] == t[1] && t[..3][2] == t[2];
    assert j >= 3;
    CharInsideBlock(out, nb, t, j);
    var block := out[nb.start..nb.end];
    assert block[j] == t[j];
  }

  /**
   When an inserted text that opens a block holds a Japanese character before
   any closer of its own, and the next block starts where it does, that block
   holds the character.
   */
  lemma SpliceJapaneseInNextBlock(src: string, b: Span, t: string, j: nat)
    requires b.start <= b.end <= |src|
    requires LiteralAt(t, 0, "/**")
    requires FindDocBlock(Splice(src, b, t)).Some? && FindDocBlock(Splice(src, b, t)).value.start == b.start
    requires j < |t| && IsJapanese(t[j]) && forall k :: 3 <= k < j ==> !LiteralAt(t, k, "*/")
    ensures var out := Splice(src, b, t); var nb := FindDocBlock(out).value;
      HasJapanese(out[nb.start..nb.end])
  {
    var out := Splice(src, b, t);
    JapaneseInsideBlock(out, FindDocBlock(out).value, t, j);
  }

  /**
   When the translation holds a Japanese character before any closer of its
   own, the first block of the rewritten text, if there is one, holds it too.
   */
  lemma NextBlockHasJapanese(src: string, b: Span, t: string, j: nat)
    requires Decide(src) == Change(b, t)
    requires j < |t| && IsJapanese(t[j]) && forall k :: 3 <= k < j ==> !LiteralAt(t, k, "*/")
    ensures var out := Splice(src, b, t);
      FindDocBlock(out).Some? ==> HasJapanese(out[FindDocBlock(out).value.start..FindDocBlock(out).value.end])
  {
    var out := Splice(src, b, t);
    if FindDocBlock(out).Some? {
      RewriteKeepsBlockStart(src);
      TranslatedStartsWithOpener(src);
      SpliceJapaneseInNextBlock(src, b, t, j);
    }
  }

  /**
   Rewriting a rewritten text changes nothing when the translation holds a
   Japanese character before any closer of its own: the gate skips the next block.
   */
  lemma RewriteIsIdempotentOnJapanese(src: string, j: nat)
    requires Rewritten(src).Some?
    requires var t := Decide(src).translated;
      j < |t| && IsJapanese(t[j]) && forall k :: 3 <= k < j ==> !LiteralAt(t, k, "*/")
    ensures Rewritten(Rewritten(src).value).None?
  {
    var out := Rewritten(src).value;
    NextBlockHasJapanese(src, Decide(src).block, Decide(src).translated, j);
    if FindDocBlock(out).Some? {
      JapaneseBlockIsKept(out);
    }
  }

  /** The same on the file system: a second run over the rewritten file neither writes nor reports an update. */
  lemma SecondRunIsNoOp(fs: FileSystem, path: string, j: nat)
    requires path in fs.files && path !in fs.readOnly
    requires Rewritten(fs.files[path]).Some?
    requires var t := Decide(fs.files[path]).translated;
      j < |t| && IsJapanese(t[j]) && forall k :: 3 <= k < j ==> !LiteralAt(t, k, "*/")
    ensures var fs' := ProcessFile(fs, path).fs;
      ProcessFile(fs', path).fs == fs' && ProcessFile(fs', path).result != Ok(Updated)
  {
    RewriteIsIdempotentOnJapanese(fs.files[path], j);
  }

  /**
   The translation of a block of two lines that both start with plain
   characters and are separated by CRLF, with an optional extra carriage
   return at the end of the first: the CRLF becomes LF and nothing else changes.
   */
  lemma PlainTwoLineBlock(first: string, extra: string, second: string, s: string, t: string)
    requires |first| > 0 && first[0] == '/' && '\n' !in first
    requires |second| > 0 && second[0] != '*' && !IsJsSpace(second[0]) && '\n' !in second
    requires extra == "" || extra == "\r"
    requires s == first + extra + "\r\n" + second && t == first + extra + "\n" + second
    requires AllAscii(s)
    ensures TranslateBlock(s) == Some(t)
  {
    AsciiHasNoJapanese(s);
    TwoLinesSplit(first, extra, second, s);
    var lines := SplitLines(s);
    PlainLedIsNotStarLine(lines[0]);
    PlainLedIsNotStarLine(second);
    assert TranslateLines(lines) == lines;
    assert JoinLines(lines) == t;
  }

  /** `split` cuts such a block at its one line feed, taking the carriage return before it along. */
  lemma TwoLinesSplit(first: string, extra: string, second: string, s: string)
    requires '\n' !in first && '\n' !in second
    requires extra == "" || extra == "\r"
    requires s == first + extra + "\r\n" + second
    ensures SplitLines(s) == [first + extra, second]
  {
    var k := |first| + |extra| + 1;
    assert s[k] == '\n' && s[k - 1] == '\r';
    forall j | 0 <= j < k
      ensures s[j] != '\n'
    {
      if j < |first| {
        assert s[j] == first[j];
      }
    }
    assert NextLineFeed(s, 0) == k;
    assert s[k + 1..] == second;
    assert SplitLines(second) == [second];
    assert LineBefore(s, k) == first + extra;
  }

  /** A text that is one block from its first character to its last, with no closer in between. */
  lemma WholeTextBlock(s: string)
    requires |s| >= 5 && LiteralAt(s, 0, "/**") && LiteralAt(s, |s| - 2, "*/")
    requires forall k :: 3 <= k < |s| - 2 ==> !LiteralAt(s, k, "*/")
    ensures FindDocBlock(s) == Some(Span(0, |s|))
  {
    assert IndexOf(s, "/**", 0) == 0;
    assert IndexOf(s, "*/", 3) == |s| - 2;
  }

  /** `Decide` on a text whose block and translation are known. */
  lemma DecideFromParts(s: string, b: Span, t: string)
    requires FindDocBlock(s) == Some(b)
    requires TranslateBlock(s[b.start..b.end]) == Some(t)
    requires t != "" && t != s[b.start..b.end]
    ensures Decide(s) == Change(b, t)
    ensures Rewritten(s) == Some(Splice(s, b, t))
  {
  }

  /** The sample file shape is one block from start to end. */
  lemma TwoLineFileBlock(extra: string, rest: string, s: string)
    requires extra == "" || extra == "\r"
    requires '*' !in rest
    requires s == "/**" + extra + "\r\n" + rest + "*/"
    ensures FindDocBlock(s) == Some(Span(0, |s|))
  {
    var n := |extra| + 5;
    forall k | 3 <= k < |s| - 2
      ensures !LiteralAt(s, k, "*/")
    {
      assert s[k..k + 2][0] == s[k];
      if k >= n {
        assert s[k] == rest[k - n];
      }
    }
    assert s[..3] == "/**";
    assert s[|s| - 2..] == "*/";
    WholeTextBlock(s);
  }

  /** The sample file as two lines: no line feed in the closing one, and ASCII throughout. */
  lemma TwoLineFileParts(extra: string, rest: string, s: string, t: string)
    requires extra == "" || extra == "\r"
    requires '\n' !in rest && AllAscii(rest)
    requires s == "/**" + extra + "\r\n" + rest + "*/" && t == "/**" + extra + "\n" + rest + "*/"
    ensures '\n' !in rest + "*/"
    ensures AllAscii(s)
    ensures s == ("/**" + extra) + "" + "\r\n" + (rest + "*/")
    ensures t == ("/**" + extra) + "" + "\n" + (rest + "*/")
  {
    var second := rest + "*/";
    forall k | 0 <= k < |second|
      ensures second[k] != '\n'
    {
      if k < |rest| {
        assert second[k] == rest[k];
      }
    }
    var n := |extra| + 5;
    forall k | 0 <= k < |s|
      ensures IsAscii(s[k])
    {
      if n <= k < n + |rest| {
        assert s[k] == rest[k - n];
      }
    }
  }

  /** The sample file shape translates to itself with LF for CRLF. */
  lemma TwoLineFileTranslation(extra: string, rest: string, s: string, t: string)
    requires extra == "" || extra == "\r"
    requires |rest| > 0 && !IsJsSpace(rest[0]) && '*' !in rest && '\n' !in rest && AllAscii(rest)
    requires s == "/**" + extra + "\r\n" + rest + "*/" && t == "/**" + extra + "\n" + rest + "*/"
    ensures TranslateBlock(s) == Some(t)
  {
    TwoLineFileParts(extra, rest, s, t);
    PlainTwoLineBlock("/**" + extra, "", rest + "*/", s, t);
  }

  /**
   A file that is one block of two ASCII lines, the opener line (with an
   optional extra carriage return) and a plain line without stars, joined by
   CRLF: its rewrite is the same text with LF instead of CRLF.
   */
  lemma TwoLineFile(extra: string, rest: string, s: string, t: string)
    requires extra == "" || extra == "\r"
    requires |rest| > 0 && !IsJsSpace(rest[0]) && '*' !in rest && '\n' !in rest && AllAscii(rest)
    requires s == "/**" + extra + "\r\n" + rest + "*/" && t == "/**" + extra + "\n" + rest + "*/"
    ensures Rewritten(s) == Some(t) && Decide(s) == Change(Span(0, |s|), t)
  {
    TwoLineFileBlock(extra, rest, s);
    TwoLineFileTranslation(extra, rest, s, t);
    assert s[0..|s|] == s;
    assert |t| != |s|;
    DecideFromParts(s, Span(0, |s|), t);
    assert Splice(s, Span(0, |s|), t) == t;
  }

  /** One run over the sample file with a doubled carriage return drops one of them. */
  lemma DoubledCarriageReturnFile(rest: string, s1: string, s2: string)
    requires |rest| > 0 && !IsJsSpace(rest[0]) && '*' !in rest && '\n' !in rest && AllAscii(rest)
    requires s1 == "/**\r\r\n" + rest + "*/" && s2 == "/**\r\n" + rest + "*/"
    ensures Rewritten(s1) == Some(s2)
  {
    assert s1 == "/**" + "\r" + "\r\n" + rest + "*/";
    assert s2 == "/**" + "\r" + "\n" + rest + "*/";
    TwoLineFile("\r", rest, s1, s2);
  }

  /** One run over the sample file with CRLF turns it into LF. */
  lemma CrLfFile(rest: string, s2: string, s3: string)
    requires |rest| > 0 && !IsJsSpace(rest[0]) && '*' !in rest && '\n' !in rest && AllAscii(rest)
    requires s2 == "/**\r\n" + rest + "*/" && s3 == "/**\n" + rest + "*/"
    ensures Rewritten(s2) == Some(s3)
  {
    assert s2 == "/**" + "" + "\r\n" + rest + "*/";
    assert s3 == "/**" + "" + "\n" + rest + "*/";
    TwoLineFile("", rest, s2, s3);
  }

  /**
   Without Japanese in the result a second run may rewrite again: a
   carriage return doubled before a line feed loses one copy per run, as
   `split` takes only one of them along with the line feed. With `rest` = "x"
   the file is the opener, CR, CR, LF and `x` followed by the closer.
   */
  lemma DoubledCarriageReturnChangesTwice(rest: string, s1: string, s2: string, s3: string)
    requires |rest| > 0 && !IsJsSpace(rest[0]) && '*' !in rest && '\n' !in rest && AllAscii(rest)
    requires s1 == "/**\r\r\n" + rest + "*/" && s2 == "/**\r\n" + rest + "*/" && s3 == "/**\n" + rest + "*/"
    ensures Rewritten(s1) == Some(s2)
    ensures Rewritten(s2) == Some(s3)
  {
    DoubledCarriageReturnFile(rest, s1, s2);
    CrLfFile(rest, s2, s3);
  }

  /** A dollar-free start of a replacement is copied as it is. */
  lemma {:induction false} SubstitutePlainPrefix(prefix: string, x: string, matched: string, before: string, after: string)
    requires '$' !in prefix
    ensures Substitute(prefix + x, matched, before, after) == prefix + Substitute(x, matched, before, after)
    decreases |prefix|
  {
    if |prefix| > 0 {
      var r := prefix + x;
      assert r[0] == prefix[0] && r[0] != '$';
      assert r[1..] == prefix[1..] + x;
      assert '$' !in prefix[1..];
      SubstitutePlainPrefix(prefix[1..], x, matched, before, after);
      assert prefix == [prefix[0]] + prefix[1..];
    } else {
      assert prefix + x == x;
    }
  }

  /** The tail of the sample translation after its `$&` has no dollar sign. */
  lemma DollarFreeTail(rest: string)
    requires '$' !in rest
    ensures '$' !in rest + "*/"
  {
    var tail := rest + "*/";
    forall k | 0 <= k < |tail|
      ensures tail[k] != '$'
    {
      if k < |rest| {
        assert tail[k] == rest[k];
      }
    }
  }

  /** The one `$&` of the sample translation expands to the matched text. */
  lemma SubstituteDollarAmpersand(t: string, s: string, rest: string)
    requires t == "/**\n$&" + rest + "*/" && '$' !in rest
    ensures Substitute(t, s, "", "") == "/**\n" + s + rest + "*/"
  {
    var tail := rest + "*/";
    DollarFreeTail(rest);
    var x := "$&" + tail;
    assert t == "/**\n" + x;
    SubstitutePlainPrefix("/**\n", x, s, "", "");
    assert x[2..] == tail && x[0] == '$' && x[1] == '&';
    SubstituteWithoutDollar(tail, s, "", "");
    assert Substitute(x, s, "", "") == s + tail;
    assert "/**\n" + (s + tail) == "/**\n" + s + rest + "*/";
  }

  /** Replacing a whole text by `replace` leaves only the substituted replacement. */
  lemma ReplaceWholeText(s: string, t: string)
    ensures ReplaceFirst(s, s, t) == Substitute(t, s, "", "")
  {
    assert LiteralAt(s, 0, s);
    assert IndexOf(s, s, 0) == 0;
    assert s[..0] == "" && s[|s|..] == "";
  }

  /** The rewrite of the sample file whose second line starts with `$&`. */
  lemma DollarLineFile(rest: string, s: string, t: string)
    requires '*' !in rest && '\n' !in rest && AllAscii(rest)
    requires s == "/**\r\n$&" + rest + "*/" && t == "/**\n$&" + rest + "*/"
    ensures Rewritten(s) == Some(t) && Decide(s) == Change(Span(0, |s|), t)
  {
    var line := "$&" + rest;
    assert line[0] == '$';
    assert '*' !in line && '\n' !in line && AllAscii(line) by {
      forall k | 0 <= k < |line|
        ensures line[k] != '*' && line[k] != '\n' && IsAscii(line[k])
      {
        if k >= 2 {
          assert line[k] == rest[k - 2];
        }
      }
    }
    assert s == "/**" + "" + "\r\n" + line + "*/";
    assert t == "/**" + "" + "\n" + line + "*/";
    TwoLineFile("", line, s, t);
  }

  /**
   The source's `replace` call expands `$&` in the translation into the block
   itself: a block whose CRLF is normalised and whose second line starts with
   `$&` is written back with a second copy of the old block inside it. With
   `rest` empty the file is the opener, CR, LF, `$&` and the closer.
   */
  lemma DollarAmpersandDuplicatesBlock(rest: string, s: string, t: string)
    requires '*' !in rest && '\n' !in rest && '$' !in rest && AllAscii(rest)
    requires s == "/**\r\n$&" + rest + "*/" && t == "/**\n$&" + rest + "*/"
    ensures Rewritten(s) == Some(t)
    ensures RewrittenAsWritten(s) == Some("/**\n" + s + rest + "*/")
    ensures RewrittenAsWritten(s) != Rewritten(s)
  {
    DollarLineFile(rest, s, t);
    assert s[0..|s|] == s;
    ReplaceWholeText(s, t);
    SubstituteDollarAmpersand(t, s, rest);
  }
}
