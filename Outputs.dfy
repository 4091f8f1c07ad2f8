/** Where the site builder writes its output: `outFileName`, the target of
    `copyStatic`, the `.css` name of a stylesheet, the `.html` (or inner
    extension) name of a rendered page, and `write`'s empty-content rule. */
module Outputs {
  import opened Strings
  import opened Paths
  import opened Wrappers
  import Plugins

  /** `outFileName(subDir, name)`: `path.join(outputRoot, subDir, name)`
      (an absent `name` is `""`, which `join` skips). */
  function OutFileName(outputRoot: string, subDir: string, name: string): string {
    JoinPath([outputRoot, subDir, name])
  }

  /** The output path is the output root's segments, then the sub-directory's,
      then the name's. */
  lemma OutFileNameSegments(outputRoot: string, subDir: string, name: string)
    ensures Segments(OutFileName(outputRoot, subDir, name))
         == Segments(outputRoot) + Segments(subDir) + Segments(name)
  {
    JoinPathSegments([outputRoot, subDir, name]);
    SegmentsOfThree(outputRoot, subDir, name);
  }

  lemma SegmentsOfThree(x: string, y: string, z: string)
    ensures SegmentsOfAll([x, y, z]) == Segments(x) + Segments(y) + Segments(z)
  {
    assert [x, y, z][1..] == [y, z];
    SegmentsOfTwo(y, z);
  }

  /** An output directory: the output root's segments, then the
      sub-directory's. */
  lemma OutDirSegments(outputRoot: string, dir: string)
    ensures Segments(OutFileName(outputRoot, dir, "")) == Segments(outputRoot) + Segments(dir)
  {
    OutFileNameSegments(outputRoot, dir, "");
    SegmentsEmpty();
    assert Segments(outputRoot) + Segments(dir) + [] == Segments(outputRoot) + Segments(dir);
  }

  /** `copyStatic(file)`'s destination: the file's path with the site root
      removed (first occurrence), mirrored under the output root; `None`
      when the basename starts with `_`, where nothing is copied. */
  function CopyStaticTarget(root: string, outputRoot: string, name: string): Option<string> {
    var base := Basename(name);
    var outDir := OutFileName(outputRoot, Dirname(ReplaceFirst(name, root, "")), "");
    if |base| > 0 && base[0] == '_' then None else Some(JoinPath([outDir, base]))
  }

  /** Removing the root from a path that starts with it leaves the rest. */
  lemma StripRoot(root: string, rel: string)
    ensures ReplaceFirst(root + rel, root, "") == rel
  {
    var s := root + rel;
    assert s[0..|root|] == root;
    assert OccursAt(s, root, 0);
    assert IndexOf(s, root) == 0;
    assert s[|root|..] == rel;
  }

  /** A static file below the root is copied to the same relative path
      below the output root, unless its name starts with `_`. */
  lemma CopyStaticMirrors(root: string, rel: string, outputRoot: string)
    requires '/' in rel
    ensures var t := CopyStaticTarget(root, outputRoot, root + rel);
      && (t.None? <==> |Basename(rel)| > 0 && Basename(rel)[0] == '_')
      && (t.Some? ==> Segments(t.value) == Segments(outputRoot) + Segments(rel))
  {
    var base := Basename(rel);
    var outDir := OutFileName(outputRoot, Dirname(rel), "");
    CopyStaticParts(root, rel, outputRoot);
    if !(|base| > 0 && base[0] == '_') {
      DirnameBasename(rel);
      MirrorSegments(outputRoot, Dirname(rel), base, rel);
    }
  }

  lemma SegmentsOfTwo(x: string, y: string)
    ensures SegmentsOfAll([x, y]) == Segments(x) + Segments(y)
  {
    assert [x, y][1..] == [y] && [y][1..] == [];
    assert SegmentsOfAll([y]) == Segments(y) + [];
  }

  lemma MirrorSegments(outputRoot: string, dir: string, base: string, rel: string)
    requires Segments(rel) == Segments(dir) + Segments(base)
    ensures Segments(JoinPath([OutFileName(outputRoot, dir, ""), base])) == Segments(outputRoot) + Segments(rel)
  {
    var outDir := OutFileName(outputRoot, dir, "");
    JoinPathSegments([outDir, base]);
    SegmentsOfTwo(outDir, base);
    OutDirSegments(outputRoot, dir);
    AppendAssoc(Segments(outputRoot), Segments(dir), Segments(base));
  }

  lemma CopyStaticParts(root: string, rel: string, outputRoot: string)
    requires '/' in rel
    ensures var base := Basename(rel);
      CopyStaticTarget(root, outputRoot, root + rel)
        == if |base| > 0 && base[0] == '_' then None
           else Some(JoinPath([OutFileName(outputRoot, Dirname(rel), ""), base]))
  {
    StripRoot(root, rel);
    BasenameConcat(root, rel);
  }

  /** `.styl` branch of `renderFile`: the first occurrence of the extension
      in the basename becomes `.css`, in the mirrored directory. */
  function StylTarget(root: string, outputRoot: string, name: string): string {
    OutFileName(outputRoot, Dirname(ReplaceFirst(name, root, "")),
                ReplaceFirst(Basename(name), Extname(name), ".css"))
  }

  /** The page directory `render` appends for page `n` of a paginated page. */
  function PageDir(page: Option<nat>): string {
    match page
    case None => ""
    case Some(n) => "/page" + NatToString(n) + "/"
  }

  /** The same, as path segments. */
  function PageSegments(page: Option<nat>): seq<string> {
    match page
    case None => []
    case Some(n) => ["page" + NatToString(n)]
  }

  /** `s.match(/\.[^.]*\.jade$/)`: `s` ends in `.jade` with a `.` somewhere
      before that ending. */
  predicate InnerExtension(s: string) {
    |s| >= 5 && s[|s| - 5..] == ".jade" && '.' in s[..|s| - 5]
  }

  /** `render`'s output name as written: the inner-extension test runs on
      the file's full path, so a `.` anywhere in a directory name counts. */
  function RenderTargetAsWritten(root: string, outputRoot: string, name: string, page: Option<nat>): string
    requires Extname(name) == ".jade"
  {
    var ext := if InnerExtension(name) then "" else ".html";
    OutFileName(outputRoot, Dirname(ReplaceFirst(name, root, "")) + PageDir(page),
                ReplaceFirst(Basename(name), ".jade", ext))
  }

  /** `render`'s output name as intended: `x.y.jade` keeps `x.y`, any other
      `x.jade` becomes `x.html`, judged on the basename alone. */
  function RenderTarget(root: string, outputRoot: string, name: string, page: Option<nat>): string
    requires Extname(name) == ".jade"
  {
    var ext := if InnerExtension(Basename(name)) then "" else ".html";
    OutFileName(outputRoot, Dirname(ReplaceFirst(name, root, "")) + PageDir(page),
                ReplaceFirst(Basename(name), ".jade", ext))
  }

  /** A basename `inner + ext` with a non-empty `inner` has the extension
      `ext` when `ext` is a dot followed by no other dot. */
  lemma ExtnameOf(p: string, inner: string, ext: string)
    requires Basename(p) == inner + ext && inner != ""
    requires |ext| >= 1 && ext[0] == '.' && '.' !in ext[1..]
    ensures Extname(p) == ext
  {
    var b := Basename(p);
    var d := LastIndexOfChar(b, '.');
    assert b[|inner|] == '.';
    forall j | |inner| < j < |b| ensures b[j] != '.' {
      assert b[j] == ext[1..][j - |inner| - 1];
    }
    assert d == |inner|;
    assert b[d..] == ext;
  }

  /** Replacing the first occurrence of a pattern that occurs only at the
      very end. The pattern's first character must not recur in it, so
      that no occurrence can straddle the join. */
  lemma ReplaceAtEnd(a: string, pat: string, rep: string)
    requires |pat| > 0 && pat[0] !in pat[1..] && !Contains(a, pat)
    ensures ReplaceFirst(a + pat, pat, rep) == a + rep
  {
    var s := a + pat;
    assert s[|a|..|a| + |pat|] == pat;
    assert OccursAt(s, pat, |a|);
    forall j | 0 <= j < |a| ensures !OccursAt(s, pat, j) {
      if j + |pat| <= |a| {
        assert s[j..j + |pat|] == a[j..j + |pat|];
        if OccursAt(a, pat, j) {
          ContainsAt(a, pat, j);
        }
      } else {
        var k := |a| - j;
        assert s[j + k] == pat[0];
        assert pat[k] != pat[0] by { assert pat[k] == pat[1..][k - 1]; }
      }
    }
    assert IndexOf(s, pat) == |a|;
    assert s[..|a|] == a;
  }

  lemma JadeTail(inner: string, ext: string)
    requires !Contains(inner, ".jade")
    ensures ReplaceFirst(inner + ".jade", ".jade", ext) == inner + ext
    ensures InnerExtension(inner + ".jade") <==> '.' in inner
  {
    ReplaceAtEnd(inner, ".jade", ext);
    var s := inner + ".jade";
    assert s[|s| - 5..] == ".jade" && s[..|s| - 5] == inner;
  }

  /** A single name, as a path, is one segment. */
  lemma OneSegment(x: string)
    requires x != "" && x != "." && '/' !in x
    ensures Segments(x) == [x]
  {
    SegmentsOfSegments([x]);
    assert [x][1..] == [];
  }

  lemma PageDirSegments(dir: string, page: Option<nat>)
    ensures Segments(dir + PageDir(page)) == Segments(dir) + PageSegments(page)
  {
    if page.Some? {
      var n := page.value;
      var name := "page" + NatToString(n);
      assert dir + PageDir(page) == dir + "/" + (name + "/");
      SegmentsSlash(dir, name + "/");
      SegmentsAroundSlash(name);
      assert name[0] == 'p';
      assert '/' !in name by {
        assert forall i :: 0 <= i < |NatToString(n)| ==> IsDigit(NatToString(n)[i]);
        forall i | 0 <= i < |name| ensures name[i] != '/' {
          if i >= 4 {
            assert name[i] == NatToString(n)[i - 4];
          }
        }
      }
      OneSegment(name);
    } else {
      assert dir + PageDir(page) == dir;
    }
  }

  /** A page `dir/inner.jade` below the root is written to the same
      directory below the output root (inside `pageN` for page `n` of a
      paginated page), as `inner` when `inner` has a `.` of its own and as
      `inner.html` otherwise. */
  lemma RenderTargetSpec(root: string, rel: string, inner: string, outputRoot: string, page: Option<nat>)
    requires '/' in rel && Basename(rel) == inner + ".jade"
    requires inner != "" && inner != "." && !Contains(inner, ".jade")
    ensures Extname(root + rel) == ".jade"
    ensures Segments(RenderTarget(root, outputRoot, root + rel, page))
         == Segments(outputRoot) + Segments(Dirname(rel)) + PageSegments(page)
            + [PageName(inner)]
  {
    RenderTargetParts(root, rel, inner, outputRoot, page);
    NameSegment(inner, rel);
    RenderSegments(outputRoot, Dirname(rel), page, PageName(inner));
  }

  /** The name a page `inner.jade` is written under. */
  function PageName(inner: string): string {
    if '.' in inner then inner else inner + ".html"
  }

  lemma RenderSegments(outputRoot: string, dir: string, page: Option<nat>, last: string)
    requires Segments(last) == [last]
    ensures Segments(OutFileName(outputRoot, dir + PageDir(page), last))
         == Segments(outputRoot) + Segments(dir) + PageSegments(page) + [last]
  {
    OutFileNameSegments(outputRoot, dir + PageDir(page), last);
    PageDirSegments(dir, page);
    AppendAssoc(Segments(outputRoot), Segments(dir), PageSegments(page));
  }

  lemma NameSegment(inner: string, rel: string)
    requires Basename(rel) == inner + ".jade" && inner != "" && inner != "."
    ensures Segments(PageName(inner)) == [PageName(inner)]
  {
    var b := Basename(rel);
    assert '/' !in inner by {
      forall i | 0 <= i < |inner| ensures inner[i] != '/' {
        assert inner[i] == b[i];
      }
    }
    assert '/' !in PageName(inner);
    OneSegment(PageName(inner));
  }

  lemma RenderTargetParts(root: string, rel: string, inner: string, outputRoot: string, page: Option<nat>)
    requires '/' in rel && Basename(rel) == inner + ".jade"
    requires inner != "" && !Contains(inner, ".jade")
    ensures Extname(root + rel) == ".jade"
    ensures RenderTarget(root, outputRoot, root + rel, page)
         == OutFileName(outputRoot, Dirname(rel) + PageDir(page), PageName(inner))
  {
    BasenameConcat(root, rel);
    JadeTail(inner, "");
    var ext := if InnerExtension(Basename(root + rel)) then "" else ".html";
    JadeParts(root, rel, inner, outputRoot, page, ext);
    AppendEmpty(inner);
  }

  lemma AppendEmpty(s: string)
    ensures s + "" == s
  {
  }

  /** The `.jade` page `root + rel` with basename `inner.jade`, written
      with the extension `ext` in place of `.jade`. */
  lemma JadeParts(root: string, rel: string, inner: string, outputRoot: string, page: Option<nat>, ext: string)
    requires '/' in rel && Basename(rel) == inner + ".jade"
    requires inner != "" && !Contains(inner, ".jade")
    ensures Extname(root + rel) == ".jade"
    ensures OutFileName(outputRoot, Dirname(ReplaceFirst(root + rel, root, "")) + PageDir(page),
                        ReplaceFirst(Basename(root + rel), ".jade", ext))
         == OutFileName(outputRoot, Dirname(rel) + PageDir(page), inner + ext)
  {
    BasenameConcat(root, rel);
    ExtnameOf(root + rel, inner, ".jade");
    StripRoot(root, rel);
    JadeTail(inner, ext);
  }

  /** A page at the top of a root whose own path has a `.` in it: as
      written, the `.html` is dropped and the page is written without an
      extension; as intended, it gets `.html`. */
  lemma DottedRootDropsHtml(root: string, stem: string, outputRoot: string)
    requires '.' in root && stem != "" && '.' !in stem && '/' !in stem
    ensures var name := root + ("/" + stem + ".jade");
      && Extname(name) == ".jade"
      && Segments(RenderTargetAsWritten(root, outputRoot, name, None)) == Segments(outputRoot) + [stem]
      && Segments(RenderTarget(root, outputRoot, name, None)) == Segments(outputRoot) + [stem + ".html"]
  {
    AsWrittenDotted(root, stem, outputRoot);
    CorrectedDotted(root, stem, outputRoot);
  }

  lemma CorrectedDotted(root: string, stem: string, outputRoot: string)
    requires stem != "" && '.' !in stem && '/' !in stem
    ensures var rel := "/" + stem + ".jade";
      && Extname(root + rel) == ".jade"
      && Segments(RenderTarget(root, outputRoot, root + rel, None)) == Segments(outputRoot) + [stem + ".html"]
  {
    var rel := "/" + stem + ".jade";
    TopLevelPage(stem);
    NotContainsFirstChar(stem, ".jade");
    RenderTargetSpec(root, rel, stem, outputRoot, None);
    assert PageName(stem) == stem + ".html";
    DropEmpty(Segments(outputRoot), Segments(Dirname(rel)), PageSegments(None), [stem + ".html"]);
  }

  lemma DropEmpty(a: seq<string>, b: seq<string>, c: seq<string>, d: seq<string>)
    requires b == [] && c == []
    ensures a + b + c + d == a + d
  {
  }

  lemma TopLevelPage(stem: string)
    requires '/' !in stem
    ensures var rel := "/" + stem + ".jade";
      && '/' in rel && Dirname(rel) == "/" && Basename(rel) == stem + ".jade" && Segments(Dirname(rel)) == []
  {
    var rel := "/" + stem + ".jade";
    assert rel[0] == '/';
    assert LastIndexOfChar(rel, '/') == 0;
    assert rel[1..] == stem + ".jade";
    SegmentsEmpty();
  }

  /** `render`'s output name as written, for a page below the root. */
  lemma AsWrittenParts(root: string, rel: string, inner: string, outputRoot: string, page: Option<nat>)
    requires '/' in rel && Basename(rel) == inner + ".jade"
    requires inner != "" && !Contains(inner, ".jade")
    ensures Extname(root + rel) == ".jade"
    ensures RenderTargetAsWritten(root, outputRoot, root + rel, page)
         == OutFileName(outputRoot, Dirname(rel) + PageDir(page),
                        if InnerExtension(root + rel) then inner else inner + ".html")
  {
    if InnerExtension(root + rel) {
      JadeParts(root, rel, inner, outputRoot, page, "");
      AppendEmpty(inner);
    } else {
      JadeParts(root, rel, inner, outputRoot, page, ".html");
    }
  }

  /** As written, the inner-extension test on the full path of a page
      `dir/inner.jade` fires exactly when the root, the page's directory or
      `inner` has a `.`. */
  lemma AsWrittenInnerExtension(root: string, rel: string, inner: string)
    requires '/' in rel && Basename(rel) == inner + ".jade"
    ensures InnerExtension(root + rel) <==> '.' in root || '.' in Dirname(rel) || '.' in inner
  {
    var k := LastIndexOfChar(rel, '/');
    var dir := rel[..k];
    assert rel == dir + "/" + (inner + ".jade");
    var front := root + dir + "/" + inner;
    var s := root + rel;
    assert s == front + ".jade";
    assert s[|s| - 5..] == ".jade" && s[..|s| - 5] == front;
    assert '.' in front <==> '.' in root || '.' in dir || '.' in inner;
    assert k == 0 ==> dir == [] && Dirname(rel) == "/";
    assert k > 0 ==> Dirname(rel) == dir;
  }

  /** Where neither the root nor the page's directory has a `.`, the name as
      written is the intended one. */
  lemma RenderTargetsAgree(root: string, rel: string, inner: string, outputRoot: string, page: Option<nat>)
    requires '/' in rel && Basename(rel) == inner + ".jade"
    requires inner != "" && !Contains(inner, ".jade")
    requires '.' !in root && '.' !in Dirname(rel)
    ensures Extname(root + rel) == ".jade"
    ensures RenderTargetAsWritten(root, outputRoot, root + rel, page) == RenderTarget(root, outputRoot, root + rel, page)
  {
    AsWrittenParts(root, rel, inner, outputRoot, page);
    RenderTargetParts(root, rel, inner, outputRoot, page);
    AsWrittenInnerExtension(root, rel, inner);
  }

  /** Where the root or the page's directory has a `.`, the name as written
      is `inner` without any extension, whatever `inner` is. */
  lemma AsWrittenDropsHtml(root: string, rel: string, inner: string, outputRoot: string, page: Option<nat>)
    requires '/' in rel && Basename(rel) == inner + ".jade"
    requires inner != "" && !Contains(inner, ".jade")
    requires '.' in root || '.' in Dirname(rel)
    ensures Extname(root + rel) == ".jade"
    ensures RenderTargetAsWritten(root, outputRoot, root + rel, page)
         == OutFileName(outputRoot, Dirname(rel) + PageDir(page), inner)
  {
    AsWrittenParts(root, rel, inner, outputRoot, page);
    AsWrittenInnerExtension(root, rel, inner);
  }

  lemma DottedInner(root: string, stem: string)
    requires '.' in root
    ensures InnerExtension(root + ("/" + stem + ".jade"))
  {
    var name := root + ("/" + stem + ".jade");
    assert name[..|name| - 5] == root + "/" + stem;
    assert name[|name| - 5..] == ".jade";
  }

  lemma AsWrittenDotted(root: string, stem: string, outputRoot: string)
    requires '.' in root && stem != "" && '.' !in stem && '/' !in stem
    ensures var rel := "/" + stem + ".jade";
      && Extname(root + rel) == ".jade"
      && Segments(RenderTargetAsWritten(root, outputRoot, root + rel, None)) == Segments(outputRoot) + [stem]
  {
    var rel := "/" + stem + ".jade";
    TopLevelPage(stem);
    NotContainsFirstChar(stem, ".jade");
    AsWrittenParts(root, rel, stem, outputRoot, None);
    DottedInner(root, stem);
    TopDir(Dirname(rel));
    OneSegment(stem);
    TopDirSegments(outputRoot, stem);
    SameSegments(RenderTargetAsWritten(root, outputRoot, root + rel, None),
                 OutFileName(outputRoot, "/", stem), Segments(outputRoot) + [stem]);
  }

  lemma TopDir(dir: string)
    requires dir == "/"
    ensures dir + PageDir(None) == "/"
  {
  }

  lemma SameSegments(x: string, y: string, segs: seq<string>)
    requires x == y && Segments(y) == segs
    ensures Segments(x) == segs
  {
  }

  lemma TopDirSegments(outputRoot: string, stem: string)
    requires Segments(stem) == [stem]
    ensures Segments(OutFileName(outputRoot, "/", stem)) == Segments(outputRoot) + [stem]
  {
    OutFileNameSegments(outputRoot, "/", stem);
    SegmentsEmpty();
  }

  /** The case in the test site `fixtures/test.site`: its `index.jade`
      comes out as `index`, where the test expects `index.html`. */
  lemma TestSiteIndex(outputRoot: string)
    ensures var root, name := "fixtures/test" + "." + "site", "/" + "index" + ".jade";
      && Extname(root + name) == ".jade"
      && Segments(RenderTargetAsWritten(root, outputRoot, root + name, None)) == Segments(outputRoot) + ["index"]
      && Segments(RenderTarget(root, outputRoot, root + name, None)) == Segments(outputRoot) + ["index" + ".html"]
  {
    var root := "fixtures/test" + "." + "site";
    assert root[13] == '.';
    DottedRootDropsHtml(root, "index", outputRoot);
  }

  /** A stylesheet `dir/stem.styl` below the root becomes `stem.css` in the
      same directory below the output root. */
  lemma StylTargetCss(root: string, rel: string, stem: string, outputRoot: string)
    requires '/' in rel && Basename(rel) == stem + ".styl"
    requires stem != "" && '.' !in stem
    ensures Segments(StylTarget(root, outputRoot, root + rel))
         == Segments(outputRoot) + Segments(Dirname(rel)) + [stem + ".css"]
  {
    BasenameConcat(root, rel);
    ExtnameOf(root + rel, stem, ".styl");
    StripRoot(root, rel);
    NotContainsFirstChar(stem, ".styl");
    ReplaceAtEnd(stem, ".styl", ".css");
    assert '/' !in stem + ".styl";
    assert '/' !in stem + ".css";
    OneSegment(stem + ".css");
    OutFileNameSegments(outputRoot, Dirname(rel), stem + ".css");
  }

  /** `write(fileName, content)`: empty content is not written; otherwise
      the post-filters run over it and the result goes to `fileName`. */
  function Write(fileName: string, content: string, postFilters: Plugins.Dict<Plugins.Fn>,
                 run: (Plugins.Fn, string) -> string): Option<(string, string)>
  {
    if content == "" then None else Some((fileName, Plugins.Chain(content, postFilters, run)))
  }

  /** Only empty content is skipped, and without post-filters the content
      is written as it is. */
  lemma WriteSpec(fileName: string, content: string, postFilters: Plugins.Dict<Plugins.Fn>,
                  run: (Plugins.Fn, string) -> string)
    ensures Write(fileName, content, postFilters, run).None? <==> content == ""
    ensures content != "" ==> Write(fileName, content, [], run) == Some((fileName, content))
  {
  }
}
