/** How the site builder sorts the file map's entries: the three buckets of
    a full build (`findPosts`, `otherRenderedFiles`, `staticFiles`) and the
    single-file dispatch of `buildChange`. */
module Dispatch {
  import opened Strings
  import opened FileMaps

  /** `file.type.indexOf('post') !== -1`. */
  predicate IsPostKind(kind: string) {
    Contains(kind, "post")
  }

  /** `isRenderedFile(file)`. */
  predicate IsRenderedFile(kind: string) {
    kind == "file jade" || kind == "file styl"
  }

  /** `file.type === 'file'`. */
  predicate IsStaticKind(kind: string) {
    kind == "file"
  }

  datatype Bucket = Posts | Rendered | Static

  predicate InBucket(kind: string, b: Bucket) {
    match b
    case Posts => IsPostKind(kind)
    case Rendered => IsRenderedFile(kind)
    case Static => IsStaticKind(kind)
  }

  /** The `filter` behind `findPosts`, `otherRenderedFiles` and
      `staticFiles`: the entries of a bucket, in file-map order. */
  function Select(files: seq<FileEntry>, b: Bucket): (r: seq<FileEntry>)
    ensures |r| <= |files|
  {
    if files == [] then []
    else (if InBucket(files[0].kind, b) then [files[0]] else []) + Select(files[1..], b)
  }

  /** A bucket holds exactly the entries of its kind. */
  lemma {:induction false} SelectMembers(files: seq<FileEntry>, b: Bucket)
    ensures forall e :: e in Select(files, b) <==> e in files && InBucket(e.kind, b)
    decreases |files|
  {
    if files != [] {
      SelectMembers(files[1..], b);
      assert forall e :: e in files <==> e == files[0] || e in files[1..];
    }
  }

  function FindPosts(files: seq<FileEntry>): seq<FileEntry> { Select(files, Posts) }
  function OtherRenderedFiles(files: seq<FileEntry>): seq<FileEntry> { Select(files, Rendered) }
  function StaticFiles(files: seq<FileEntry>): seq<FileEntry> { Select(files, Static) }

  /** Selecting from two lists one after the other: the buckets keep the
      file map's order. */
  lemma {:induction false} SelectAppend(a: seq<FileEntry>, c: seq<FileEntry>, b: Bucket)
    ensures Select(a + c, b) == Select(a, b) + Select(c, b)
    decreases |a|
  {
    if a == [] {
      assert a + c == c;
    } else {
      var x, t := a[0], a[1..];
      assert a == [x] + t && a + c == [x] + (t + c);
      SelectAppend(t, c, b);
      SelectAppendStep(x, t, c, b);
    }
  }

  lemma SelectAppendStep(x: FileEntry, t: seq<FileEntry>, c: seq<FileEntry>, b: Bucket)
    requires Select(t + c, b) == Select(t, b) + Select(c, b)
    ensures Select([x] + (t + c), b) == Select([x] + t, b) + Select(c, b)
  {
    SelectCons(x, t, b);
    SelectCons(x, t + c, b);
    AppendAssoc(Select([x], b), Select(t, b), Select(c, b));
  }

  lemma SelectCons(x: FileEntry, rest: seq<FileEntry>, b: Bucket)
    ensures Select([x] + rest, b) == Select([x], b) + Select(rest, b)
  {
    assert ([x] + rest)[0] == x && ([x] + rest)[1..] == rest;
    assert [x][1..] == [];
  }

  /** No kind lies in two buckets. */
  lemma KindInOneBucket(kind: string)
    ensures !(IsPostKind(kind) && IsRenderedFile(kind))
    ensures !(IsPostKind(kind) && IsStaticKind(kind))
    ensures !(IsRenderedFile(kind) && IsStaticKind(kind))
  {
    if IsRenderedFile(kind) || IsStaticKind(kind) {
      assert 'p' !in kind;
      NotContainsFirstChar(kind, "post");
    }
  }

  /** The three buckets are pairwise disjoint. */
  lemma BucketsDisjoint(files: seq<FileEntry>, e: FileEntry, b1: Bucket, b2: Bucket)
    requires e in Select(files, b1) && e in Select(files, b2)
    ensures b1 == b2
  {
    SelectMembers(files, b1);
    SelectMembers(files, b2);
    KindInOneBucket(e.kind);
  }

  /** Together the buckets hold at most every entry once. */
  lemma {:induction false} BucketSizes(files: seq<FileEntry>)
    ensures |FindPosts(files)| + |OtherRenderedFiles(files)| + |StaticFiles(files)| <= |files|
    decreases |files|
  {
    if files != [] {
      BucketSizes(files[1..]);
      KindInOneBucket(files[0].kind);
    }
  }

  /** `buildChange`'s dispatch on a file's type: posts first, then rendered
      files, then plain static files; other types do nothing. */
  datatype Action = RenderPost(file: FileEntry) | RenderFile(file: FileEntry) | CopyStatic(file: FileEntry) | NoAction

  function Route(e: FileEntry): Action {
    if IsPostKind(e.kind) then RenderPost(e)
    else if IsRenderedFile(e.kind) then RenderFile(e)
    else if e.kind == "file" then CopyStatic(e)
    else NoAction
  }

  /** `buildChange(file)`: nothing for an excluded path; otherwise the path
      with its type is routed. */
  function BuildChange(file: string, ignoreDotFiles: bool, patterns: seq<string>): Action {
    if Excluded(file, ignoreDotFiles, patterns) then NoAction
    else Route(FileEntry(file, FileType(file)))
  }

  /** A single changed file is handled as a full build handles it: routed to
      the step of exactly the bucket it falls in, and to none when it falls
      in none. */
  lemma RouteAgreesWithBuckets(e: FileEntry)
    ensures Route(e).RenderPost? <==> InBucket(e.kind, Posts)
    ensures Route(e).RenderFile? <==> InBucket(e.kind, Rendered)
    ensures Route(e).CopyStatic? <==> InBucket(e.kind, Static)
    ensures Route(e).NoAction? <==> forall b: Bucket :: !InBucket(e.kind, b)
    ensures !Route(e).NoAction? ==> Route(e).file == e
  {
    KindInOneBucket(e.kind);
    assert forall b: Bucket :: InBucket(e.kind, b) ==> b == Posts || b == Rendered || b == Static;
  }

  /** Where a path goes, read off the path itself: an excluded path nowhere;
      a post to `renderPost`; a layout or include nowhere unless its
      extension contains `post`; outside those directories `jade` and
      `styl` to `renderFile`, `ejs` nowhere and any other extension to
      `copyStatic`. */
  lemma BuildChangeByPath(file: string, ignoreDotFiles: bool, patterns: seq<string>)
    ensures var r, ext := BuildChange(file, ignoreDotFiles, patterns), Extension(file);
      && (Excluded(file, ignoreDotFiles, patterns) ==> r == NoAction)
      && (!Excluded(file, ignoreDotFiles, patterns) ==>
            var e := FileEntry(file, FileType(file));
            && (Contains(file, "/_posts/") ==> r == RenderPost(e))
            && (!Contains(file, "/_posts/") && (Contains(file, "/_layouts/") || Contains(file, "/_includes/")) ==>
                  r == (if Contains(ext, "post") then RenderPost(e) else NoAction))
            && (!Contains(file, "/_posts/") && !Contains(file, "/_layouts/") && !Contains(file, "/_includes/") ==>
                  r == (if ext == "jade" || ext == "styl" then RenderFile(e)
                        else if ext == "ejs" then NoAction
                        else CopyStatic(e))))
  {
    if !Excluded(file, ignoreDotFiles, patterns) {
      RouteInPosts(file);
      RouteInLayouts(file);
      RouteElsewhere(file);
    }
  }

  lemma RouteInPosts(file: string)
    ensures var e := FileEntry(file, FileType(file));
      Contains(file, "/_posts/") ==> Route(e) == RenderPost(e)
  {
    if Contains(file, "/_posts/") {
      PostMarker(FileEntry(file, FileType(file)), Extension(file));
    }
  }

  lemma RouteInLayouts(file: string)
    ensures var e, ext := FileEntry(file, FileType(file)), Extension(file);
      !Contains(file, "/_posts/") && (Contains(file, "/_layouts/") || Contains(file, "/_includes/")) ==>
        Route(e) == (if Contains(ext, "post") then RenderPost(e) else NoAction)
  {
    var e, ext := FileEntry(file, FileType(file)), Extension(file);
    if !Contains(file, "/_posts/") {
      if Contains(file, "/_layouts/") {
        MarkerThenExtension(e, "layout ", ext);
      } else if Contains(file, "/_includes/") {
        MarkerThenExtension(e, "include ", ext);
      }
    }
  }

  lemma RouteElsewhere(file: string)
    ensures var e, ext := FileEntry(file, FileType(file)), Extension(file);
      !Contains(file, "/_posts/") && !Contains(file, "/_layouts/") && !Contains(file, "/_includes/") ==>
        Route(e) == (if ext == "jade" || ext == "styl" then RenderFile(e)
                     else if ext == "ejs" then NoAction
                     else CopyStatic(e))
  {
    var e, ext := FileEntry(file, FileType(file)), Extension(file);
    if !Contains(file, "/_posts/") && !Contains(file, "/_layouts/") && !Contains(file, "/_includes/") {
      if ext in RenderedExtensions {
        RenderedKind(e, ext);
      } else {
        KindInOneBucket(e.kind);
      }
    }
  }

  lemma PostMarker(e: FileEntry, ext: string)
    requires e.kind == "post " + ext
    ensures Route(e) == RenderPost(e)
  {
    assert OccursAt(e.kind, "post", 0) by { assert e.kind[0..4] == "post"; }
  }

  /** A directory marker without a `p` followed by the extension contains
      `post` exactly when the extension does, and is never a rendered or
      static kind. */
  lemma MarkerThenExtension(e: FileEntry, marker: string, ext: string)
    requires e.kind == marker + ext
    requires 'p' !in marker && |marker| >= 5 && marker[0] != 'f'
    ensures Route(e) == if Contains(ext, "post") then RenderPost(e) else NoAction
  {
    IndexOfAfter(marker, ext, "post");
    assert e.kind[0] == marker[0];
  }

  /** A plain file with a rendered extension: `jade` and `styl` are
      rendered, `ejs` is left alone. */
  lemma RenderedKind(e: FileEntry, ext: string)
    requires ext in RenderedExtensions && e.kind == "file " + ext
    ensures Route(e) == if ext == "jade" || ext == "styl" then RenderFile(e) else NoAction
  {
    assert ext == "jade" || ext == "ejs" || ext == "styl";
    assert 'p' !in e.kind;
    NotContainsFirstChar(e.kind, "post");
  }
}
