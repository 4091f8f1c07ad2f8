/** The file map: the classification of a site's files by path, the
    exclusion rule, and the list of files found. */
module FileMaps {
  import opened Strings
  import opened Paths

  /** One entry of the file list: a path and its type (`'post md'`,
      `'file jade'`, `'dir'`, ...). */
  datatype FileEntry = FileEntry(name: string, kind: string)

  /** `path.extname(p).substring(1)`: the extension without its dot. */
  function Extension(p: string): string {
    var e := Extname(p);
    if e == [] then [] else e[1..]
  }

  /** The extension is the part of the basename after its last dot (and
      empty when the basename has no dot past its first character). */
  lemma ExtensionSpec(p: string)
    ensures var b, x := Basename(p), Extension(p);
      && '.' !in x && '/' !in x
      && (x != [] ==> |x| < |b| && b[|b| - |x| - 1..] == "." + x)
  {
    var b, e, x := Basename(p), Extname(p), Extension(p);
    ExtnameSuffix(p);
    if e != [] {
      assert x == e[1..] && '.' !in x;
      assert e == "." + x;
      assert |b| - |x| - 1 == |b| - |e|;
      assert b[|b| - |x| - 1..] == e;
      TailFree(e, '/');
    } else {
      assert x == [];
    }
  }

  lemma TailFree(e: string, c: char)
    requires e != [] && c !in e
    ensures c !in e[1..]
  {
    assert e == [e[0]] + e[1..];
  }

  /** The extensions that a plain file is rendered or processed by. */
  const RenderedExtensions: seq<string> := ["jade", "ejs", "styl"]

  /** `fileType(fileName)`: the directory markers are tried in the order
      posts, layouts, includes; otherwise the extension decides. */
  function FileType(p: string): string {
    var ext := Extension(p);
    if Contains(p, "/_posts/") then "post " + ext
    else if Contains(p, "/_layouts/") then "layout " + ext
    else if Contains(p, "/_includes/") then "include " + ext
    else if ext in RenderedExtensions then "file " + ext
    else "file"
  }

  /** The kind word a type starts with is decided by the first directory
      marker the path contains, in the order posts, layouts, includes;
      a path with none of them is a `file`, followed by its extension when
      that is one of the rendered ones. Every type but the bare `file` ends
      in a space and the extension. */
  lemma FileTypeKinds(p: string)
    ensures var t, ext := FileType(p), Extension(p);
      && var posts, layouts, includes := Contains(p, "/_posts/"), Contains(p, "/_layouts/"), Contains(p, "/_includes/");
      && ("post " <= t <==> posts)
      && ("layout " <= t <==> !posts && layouts)
      && ("include " <= t <==> !posts && !layouts && includes)
      && ("file " <= t <==> !posts && !layouts && !includes && ext in RenderedExtensions)
      && (t == "file" <==> !posts && !layouts && !includes && ext !in RenderedExtensions)
      && (t != "file" ==> exists w :: t == w + " " + ext)
  {
    ChosenKind(Contains(p, "/_posts/"), Contains(p, "/_layouts/"), Contains(p, "/_includes/"),
      Extension(p) in RenderedExtensions, Extension(p), FileType(p));
  }

  /** The same, for the four tests taken as given. */
  lemma ChosenKind(posts: bool, layouts: bool, includes: bool, rendered: bool, ext: string, t: string)
    requires t == if posts then "post " + ext else if layouts then "layout " + ext
      else if includes then "include " + ext else if rendered then "file " + ext else "file"
    ensures "post " <= t <==> posts
    ensures "layout " <= t <==> !posts && layouts
    ensures "include " <= t <==> !posts && !layouts && includes
    ensures "file " <= t <==> !posts && !layouts && !includes && rendered
    ensures t == "file" <==> !posts && !layouts && !includes && !rendered
    ensures t != "file" ==> exists w :: t == w + " " + ext
  {
    var w := if posts then "post" else if layouts then "layout" else if includes then "include" else "file";
    if posts || layouts || includes || rendered {
      assert t == w + " " + ext;
      KindWord(w, ext);
    } else {
      assert !("post " <= t) && !("layout " <= t) && !("include " <= t) && !("file " <= t);
    }
  }

  /** `w + " " + ext` starts with the kind word and its space, and with no
      other of the four, and is not the bare `file`. */
  lemma KindWord(w: string, ext: string)
    requires w in ["post", "layout", "include", "file"]
    ensures var t := w + " " + ext;
      && ("post " <= t <==> w == "post")
      && ("layout " <= t <==> w == "layout")
      && ("include " <= t <==> w == "include")
      && ("file " <= t <==> w == "file")
      && t != "file"
  {
    var t := w + " " + ext;
    assert t[..|w| + 1] == w + " ";
    assert |t| > 4 && t[0] == w[0];
  }

  /** Whether some exclusion pattern matches: the `some` over the
      pattern list, with each pattern read as a literal substring. */
  function AnyPatternMatches(file: string, patterns: seq<string>): (r: bool)
    ensures r <==> exists k :: 0 <= k < |patterns| && Contains(file, patterns[k])
  {
    if patterns == [] then false
    else Contains(file, patterns[0]) || AnyPatternMatches(file, patterns[1..])
  }

  /** `isExcludedFile(file)` for a given dot-file switch and pattern list. */
  function Excluded(file: string, ignoreDotFiles: bool, patterns: seq<string>): (r: bool)
    ensures ignoreDotFiles && Contains(file, "/.") ==> r
    ensures r <==> (
      || (ignoreDotFiles && Contains(file, "/."))
      || exists k :: 0 <= k < |patterns| && Contains(file, patterns[k]))
  {
    if ignoreDotFiles && Contains(file, "/.") then true
    else AnyPatternMatches(file, patterns)
  }

  /** Adding a pattern to the list excludes exactly the paths it matches
      on top of those already excluded. */
  lemma ExcludedAppend(file: string, ignoreDotFiles: bool, patterns: seq<string>, pattern: string)
    ensures Excluded(file, ignoreDotFiles, patterns + [pattern])
        <==> Excluded(file, ignoreDotFiles, patterns) || Contains(file, pattern)
  {
    var ps := patterns + [pattern];
    assert ps[|patterns|] == pattern;
    assert forall k :: 0 <= k < |patterns| ==> ps[k] == patterns[k];
  }

  /** The fields of the configuration object that the file map reads and
      writes. The file map keeps a reference to it. */
  class Settings {
    var root: string
    var exclude: seq<string>

    constructor (root: string, exclude: seq<string>)
      ensures this.root == root && this.exclude == exclude
    {
      this.root := root;
      this.exclude := exclude;
    }
  }

  class FileMap {
    const config: Settings
    var ignoreDotFiles: bool
    var root: string
    var files: seq<FileEntry>
    var filesLeft: int
    var dirsLeft: int

    /** `new FileMap(config)`: appends `'/_site'` to the caller's exclude
        list (an absent list is modelled as the empty one) and starts with
        no files, dot files ignored. */
    constructor (config: Settings)
      modifies config
      ensures this.config == config
      ensures config.exclude == old(config.exclude) + ["/_site"]
      ensures config.root == old(config.root)
      ensures ignoreDotFiles && root == config.root
      ensures files == [] && filesLeft == 0 && dirsLeft == 1
      ensures forall p :: Contains(p, "/_site") ==> IsExcludedFile(p)
    {
      config.exclude := config.exclude + ["/_site"];
      this.config := config;
      ignoreDotFiles := true;
      root := config.root;
      files := [];
      filesLeft := 0;
      dirsLeft := 1;
      new;
      var n := |config.exclude|;
      assert config.exclude[n - 1] == "/_site";
    }

    /** `isExcludedFile(file)`, reading the shared exclude list. */
    predicate IsExcludedFile(file: string)
      reads this, config
    {
      Excluded(file, ignoreDotFiles, config.exclude)
    }

    /** No listed file is one the exclusion rule rejects. */
    predicate NoExcludedFiles()
      reads this, config
    {
      forall k :: 0 <= k < |files| ==> !IsExcludedFile(files[k].name)
    }

    /** `addFile(file, type)`: appends one entry unless the path is excluded. */
    method AddFile(file: string, kind: string)
      modifies this
      ensures old(NoExcludedFiles()) ==> NoExcludedFiles()
      ensures old(IsExcludedFile(file)) ==> files == old(files)
      ensures !old(IsExcludedFile(file)) ==> files == old(files) + [FileEntry(file, kind)]
      ensures ignoreDotFiles == old(ignoreDotFiles) && root == old(root)
      ensures filesLeft == old(filesLeft) && dirsLeft == old(dirsLeft)
    {
      if IsExcludedFile(file) {
        return;
      }
      files := files + [FileEntry(file, kind)];
    }
  }
}
