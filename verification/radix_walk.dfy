/**
  `walkDir` and `fixFile` of fix-radix-imports.js over an in-memory directory
  tree: every file whose path ends in `.tsx` or `.ts` is rewritten, and written
  back only when the rewrite changed it. Directories are entered depth first,
  in listing order.
 */
module RadixWalk {
  import opened Wrappers
  import opened RadixRewrite

  /** A directory entry as `readdirSync` lists it, with what `statSync` says about it. */
  datatype Entry = File(name: string, content: string) | Dir(name: string, children: seq<Entry>)

  /** A file together with its full path. */
  datatype FileAt = FileAt(path: string, content: string)

  /** The tree after the walk, and the files written, in the order they were written. */
  datatype Walked = Walked(entries: seq<Entry>, writes: seq<FileAt>)

  /** `s` ends with `suffix`. */
  predicate EndsWith(s: string, suffix: string) {
    |suffix| <= |s| && s[|s| - |suffix|..] == suffix
  }

  /** `path.join(dir, file)` for a directory path and a plain entry name. */
  function Join(dir: string, name: string): string {
    dir + "/" + name
  }

  /** The filter of `walkDir`: the path ends in `.tsx` or in `.ts`. */
  predicate IsSourceFile(path: string) {
    EndsWith(path, ".tsx") || EndsWith(path, ".ts")
  }

  /** Which paths the filter lets through: `.d.ts` files do, maps and plain script files do not. */
  lemma SourceFileExamples()
    ensures IsSourceFile("src/App.tsx") && IsSourceFile("src/vite-env.d.ts")
    ensures !IsSourceFile("src/main.js") && !IsSourceFile("src/App.tsx.map") && !IsSourceFile("ts")
  {
    assert "src/App.tsx"[7..] == ".tsx";
    assert "src/vite-env.d.ts"[14..] == ".ts";
    assert "src/main.js"[8..] != ".ts";
    assert "src/App.tsx.map"[12..] != ".ts";
  }

  /**
    The suffix test sees only the entry name: a suffix without `/` cannot reach
    back across the separator into the directory part.
   */
  lemma EndsWithThroughJoin(dir: string, name: string, suffix: string)
    requires forall k :: 0 <= k < |suffix| ==> suffix[k] != '/'
    ensures EndsWith(Join(dir, name), suffix) <==> EndsWith(name, suffix)
  {
    var p := Join(dir, name);
    assert p == (dir + "/") + name;
    if |suffix| <= |name| {
      assert p[|p| - |suffix|..] == name[|name| - |suffix|..];
    } else if |suffix| <= |p| {
      var k := |suffix| - |name| - 1;
      assert p[|p| - |suffix|..][k] == '/';
    }
  }

  /** Whether `walkDir` hands a file to `fixFile` depends only on the file's own name. */
  lemma SourceFileByName(dir: string, name: string)
    ensures IsSourceFile(Join(dir, name)) <==> IsSourceFile(name)
  {
    EndsWithThroughJoin(dir, name, ".tsx");
    EndsWithThroughJoin(dir, name, ".ts");
  }

  /**
    Two listings name the same files and directories in the same order, with
    directories of the same shape: only file contents may differ.
   */
  predicate SameShape(a: seq<Entry>, b: seq<Entry>)
    decreases a
  {
    && |a| == |b|
    && (|a| > 0 ==>
          && a[0].name == b[0].name
          && a[0].Dir? == b[0].Dir?
          && (a[0].Dir? ==> SameShape(a[0].children, b[0].children))
          && SameShape(a[1..], b[1..]))
  }

  /**
    `walkDir(dir)` over the listing `es`: files that pass the filter go through
    `fixFile`, directories are walked under their joined path, and everything
    else is left alone.
   */
  function WalkEntries(dir: string, es: seq<Entry>): (r: Walked)
    ensures |r.entries| == |es|
    decreases es
  {
    hide FixFile;
    if |es| == 0 then Walked([], [])
    else
      var more := WalkEntries(dir, es[1..]);
      match es[0]
      case File(name, content) =>
        var path := Join(dir, name);
        var write := if IsSourceFile(path) then FixFile(content) else None;
        if write.Some? then
          Walked([File(name, write.value)] + more.entries, [FileAt(path, write.value)] + more.writes)
        else
          Walked([es[0]] + more.entries, more.writes)
      case Dir(name, children) =>
        var sub := WalkEntries(Join(dir, name), children);
        Walked([Dir(name, sub.entries)] + more.entries, sub.writes + more.writes)
  }

  /** The walk renames, adds, removes and reorders nothing: only file contents change. */
  lemma {:induction false} WalkKeepsShape(dir: string, es: seq<Entry>)
    ensures SameShape(es, WalkEntries(dir, es).entries)
    decreases es
  {
    hide FixFile;
    if |es| > 0 {
      var r := WalkEntries(dir, es);
      var more := WalkEntries(dir, es[1..]);
      WalkKeepsShape(dir, es[1..]);
      assert r.entries[1..] == more.entries;
      if es[0].Dir? {
        WalkKeepsShape(Join(dir, es[0].name), es[0].children);
      }
    }
  }

  /** Every file of the listing `es` under `dir`, depth first, in listing order. */
  function Files(dir: string, es: seq<Entry>): seq<FileAt>
    decreases es
  {
    if |es| == 0 then []
    else
      match es[0]
      case File(name, content) => [FileAt(Join(dir, name), content)] + Files(dir, es[1..])
      case Dir(name, children) => Files(Join(dir, name), children) + Files(dir, es[1..])
  }

  /** What a file should hold after the script: source files lose their version suffixes. */
  function Fixed(f: FileAt): FileAt {
    if IsSourceFile(f.path) then FileAt(f.path, Rewrite(f.content)) else f
  }

  /** `Fixed` applied to every file of a list. */
  function AllFixed(fs: seq<FileAt>): (r: seq<FileAt>)
    ensures |r| == |fs|
    ensures forall i :: 0 <= i < |fs| ==> r[i] == Fixed(fs[i])
  {
    if |fs| == 0 then [] else [Fixed(fs[0])] + AllFixed(fs[1..])
  }

  /** What the script writes for one file: the fixed content of a source file with an occurrence, else nothing. */
  ghost function WriteFor(f: FileAt): seq<FileAt> {
    if IsSourceFile(f.path) && ContainsMatch(f.content) then [Fixed(f)] else []
  }

  /** The source files that contain an occurrence, with the content they should get. */
  ghost function Changed(fs: seq<FileAt>): seq<FileAt> {
    if |fs| == 0 then [] else WriteFor(fs[0]) + Changed(fs[1..])
  }

  lemma {:induction false} AllFixedConcat(a: seq<FileAt>, b: seq<FileAt>)
    ensures AllFixed(a + b) == AllFixed(a) + AllFixed(b)
  {
  }

  /** One step of `Changed`, for proofs that keep its definition hidden. */
  lemma ChangedStep(fs: seq<FileAt>)
    ensures |fs| == 0 ==> Changed(fs) == []
    ensures |fs| > 0 ==> Changed(fs) == WriteFor(fs[0]) + Changed(fs[1..])
  {
  }

  lemma {:induction false} ChangedConcat(a: seq<FileAt>, b: seq<FileAt>)
    ensures Changed(a + b) == Changed(a) + Changed(b)
  {
    hide Changed, WriteFor;
    ChangedStep(a);
    if |a| == 0 {
      assert a + b == b;
    } else {
      ChangedConcat(a[1..], b);
      ChangedStep(a + b);
      assert (a + b)[0] == a[0];
      assert (a + b)[1..] == a[1..] + b;
      var w := WriteFor(a[0]);
      assert w + (Changed(a[1..]) + Changed(b)) == (w + Changed(a[1..])) + Changed(b);
    }
  }


  /**
    After the walk, every file holds what `Fixed` says it should, at the same
    path, in the same order: source files are rewritten, other files untouched.
   */
  lemma {:induction false} WalkFixesEveryFile(dir: string, es: seq<Entry>)
    ensures Files(dir, WalkEntries(dir, es).entries) == AllFixed(Files(dir, es))
    decreases es
  {
    if |es| > 0 {
      var r := WalkEntries(dir, es);
      var more := WalkEntries(dir, es[1..]);
      WalkFixesEveryFile(dir, es[1..]);
      assert r.entries[1..] == more.entries;
      match es[0]
      case File(name, content) =>
        var path := Join(dir, name);
        RewriteUnchangedIffNoMatch(content);
        AllFixedConcat([FileAt(path, content)], Files(dir, es[1..]));
      case Dir(name, children) =>
        WalkFixesEveryFile(Join(dir, name), children);
        AllFixedConcat(Files(Join(dir, name), children), Files(dir, es[1..]));
    }
  }

  /**
    The walk writes exactly the source files that contain an occurrence, in
    traversal order, each with its rewritten content; no other file is written.
   */
  lemma {:induction false} WalkWritesChangedFiles(dir: string, es: seq<Entry>)
    ensures WalkEntries(dir, es).writes == Changed(Files(dir, es))
    decreases es
  {
    if |es| > 0 {
      WalkWritesChangedFiles(dir, es[1..]);
      match es[0]
      case File(name, content) =>
        ChangedConcat([FileAt(Join(dir, name), content)], Files(dir, es[1..]));
      case Dir(name, children) =>
        WalkWritesChangedFiles(Join(dir, name), children);
        ChangedConcat(Files(Join(dir, name), children), Files(dir, es[1..]));
    }
  }
}
