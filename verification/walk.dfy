/**
 `walk` of scripts/translate-comments_02M.js: a depth-first listing of the
 files under a directory, in the order the directory reports its entries,
 keeping the paths a filter accepts. A directory tree is a value; any entry
 that is not a directory (a symbolic link included) is offered to the filter.
 */
module Walk {

  /** A directory entry: a directory with its entries, or anything else. */
  datatype Entry = File(name: string) | Dir(name: string, entries: seq<Entry>)

  /** `path.join(dir, name)` for a plain entry name. */
  function Join(dir: string, name: string): string {
    dir + "/" + name
  }

  /** `walk(dir, filterFn)` over the entries of `dir`, in their order. */
  function WalkDir(dir: string, entries: seq<Entry>, keep: string -> bool): (r: seq<string>)
    ensures forall k :: 0 <= k < |r| ==> keep(r[k])
    decreases entries
  {
    if |entries| == 0 then []
    else
      var e := entries[0];
      var full := Join(dir, e.name);
      var here := match e
        case Dir(_, children) => WalkDir(full, children, keep)
        case File(_) => if keep(full) then [full] else [];
      here + WalkDir(dir, entries[1..], keep)
  }

  /** Every file path under `dir`, in depth-first entry order, before any filtering. */
  function AllFiles(dir: string, entries: seq<Entry>): seq<string>
    decreases entries
  {
    if |entries| == 0 then []
    else
      var e := entries[0];
      var full := Join(dir, e.name);
      (if e.Dir? then AllFiles(full, e.entries) else [full]) + AllFiles(dir, entries[1..])
  }

  /** The paths of `s` that `keep` accepts, in order. */
  function Filter(s: seq<string>, keep: string -> bool): (r: seq<string>)
    ensures forall p :: p in r <==> p in s && keep(p)
  {
    if |s| == 0 then []
    else (if keep(s[0]) then [s[0]] else []) + Filter(s[1..], keep)
  }

  lemma {:induction false} FilterAppend(a: seq<string>, b: seq<string>, keep: string -> bool)
    ensures Filter(a + b, keep) == Filter(a, keep) + Filter(b, keep)
  {
    if |a| == 0 {
      assert a + b == b;
    } else {
      assert (a + b)[1..] == a[1..] + b;
      FilterAppend(a[1..], b, keep);
    }
  }

  /**
   The walk lists exactly the accepted files of the tree, in depth-first
   order: filtering during the descent is filtering the full listing.
   */
  lemma {:induction false} WalkIsFilteredListing(dir: string, entries: seq<Entry>, keep: string -> bool)
    ensures WalkDir(dir, entries, keep) == Filter(AllFiles(dir, entries), keep)
    decreases entries
  {
    if |entries| > 0 {
      var e := entries[0];
      var full := Join(dir, e.name);
      WalkIsFilteredListing(dir, entries[1..], keep);
      if e.Dir? {
        WalkIsFilteredListing(full, e.entries, keep);
      }
      FilterAppend(if e.Dir? then AllFiles(full, e.entries) else [full], AllFiles(dir, entries[1..]), keep);
    }
  }

  /** A path is listed exactly when it names a file of the tree and the filter accepts it. */
  lemma WalkMembership(dir: string, entries: seq<Entry>, keep: string -> bool, p: string)
    ensures p in WalkDir(dir, entries, keep) <==> p in AllFiles(dir, entries) && keep(p)
  {
    WalkIsFilteredListing(dir, entries, keep);
  }

  /** The listing has one path per file entry at any depth. */
  function FileCount(entries: seq<Entry>): nat
    decreases entries
  {
    if |entries| == 0 then 0
    else
      (match entries[0] case Dir(_, children) => FileCount(children) case File(_) => 1)
      + FileCount(entries[1..])
  }

  lemma {:induction false} AllFilesCount(dir: string, entries: seq<Entry>)
    ensures |AllFiles(dir, entries)| == FileCount(entries)
    decreases entries
  {
    if |entries| > 0 {
      var e := entries[0];
      AllFilesCount(dir, entries[1..]);
      if e.Dir? {
        AllFilesCount(Join(dir, e.name), e.entries);
      }
    }
  }

  /** `/sketch\.js$/`: the path ends with `sketch.js`. */
  predicate IsSketch(p: string) {
    |p| >= 9 && p[|p| - 9..] == "sketch.js"
  }

  /** The files `main` processes: every sketch file of the tree, in walk order. */
  function SketchFiles(dir: string, entries: seq<Entry>): (r: seq<string>)
    ensures forall k :: 0 <= k < |r| ==> IsSketch(r[k])
  {
    WalkDir(dir, entries, IsSketch)
  }
}
