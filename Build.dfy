/** The bookkeeping of a full build: the render passes of one `renderFile`
    run over the paginator, how many times each job calls back, and the
    completion counters that decide when `ready` is emitted and when the
    auto-generated pages are dispatched. Callbacks run one at a time, so
    the counters are a sequential state machine driven by completion
    events. */
module Build {
  import opened Wrappers
  import opened Pagination
  import opened FileMaps
  import opened Dispatch

  /** One call of `render` inside `renderFile`: the page directory it writes
      under (`None` for the file's own place, `Some(k)` for `/page<k>/`)
      and the posts the paginator shows to the template at that moment. */
  datatype Pass = Pass(page: Option<nat>, items: seq<Post>)

  /** The passes after the first one: pages 2 .. m + 1. */
  function ExtraPasses(s: seq<Post>, perPage: nat, m: nat): (r: seq<Pass>)
    ensures |r| == m
  {
    seq(m, k requires 0 <= k < m => Pass(Some(k + 2), Window(s, k + 2, perPage)))
  }

  /** Every pass of one `renderFile` over the sorted posts `s`: page 1 in
      place, then, when the file has a layout and asks for pagination, one
      pass per page that holds posts, each written one page further on. */
  function Passes(s: seq<Post>, perPage: nat, paginated: bool): seq<Pass>
    requires perPage > 0
  {
    [Pass(None, Window(s, 1, perPage))] + (if paginated then ExtraPasses(s, perPage, FullPages(|s|, perPage)) else [])
  }

  /** The posts shown by a list of passes, one pass after the other. */
  function Items(ps: seq<Pass>): seq<Post> {
    if ps == [] then [] else Items(ps[..|ps| - 1]) + ps[|ps| - 1].items
  }

  /** A page holds posts exactly when it is one of the full pages. */
  lemma PageHasPosts(n: nat, perPage: nat, page: int)
    requires perPage > 0 && page >= 1
    ensures (page - 1) * perPage < n <==> page <= FullPages(n, perPage)
  {
    var f := FullPages(n, perPage);
    FullPagesBounds(n, perPage);
    if page <= f {
      MulLe(page - 1, f - 1, perPage);
      assert (f - 1) * perPage == f * perPage - perPage;
    } else {
      MulLe(f, page - 1, perPage);
    }
  }

  lemma MulLe(a: int, b: int, c: nat)
    requires a <= b
    ensures a * c <= b * c
  {
    assert b * c - a * c == (b - a) * c;
  }

  /** `after` is `before` reordered newest first. */
  predicate SortedFrom(before: seq<Post>, after: seq<Post>) {
    NewestFirst(after) && multiset(after) == multiset(before)
  }

  /** The paginated part of `renderFile` (with its layout already read):
      a new paginator over the site's posts, one render for its first page,
      then, while the paginator still shows posts, one page further and one
      more render. The posts array is sorted in place by the paginator. */
  method RenderPasses(perPage: nat, posts: array<Post>, hasLayout: bool, paginate: bool)
      returns (passes: seq<Pass>)
    requires perPage > 0
    modifies posts
    ensures SortedFrom(old(posts[..]), posts[..])
    ensures passes == Passes(posts[..], perPage, hasLayout && paginate)
  {
    ghost var before := posts[..];
    var paginator := new Paginator(perPage, posts);
    ghost var s := posts[..];
    assert SortedFrom(before, s);
    ghost var f := FullPages(posts.Length, perPage);
    passes := [Pass(None, paginator.items)];
    FirstWindow(s, perPage);
    assert passes == FirstPasses(s, perPage, 0);
    if hasLayout && paginate {
      while paginator.items != []
        invariant paginator.Valid() && paginator.allItems == posts && posts[..] == s
        invariant paginator.perPage == perPage
        invariant 1 <= paginator.page <= f + 1
        invariant passes == FirstPasses(s, perPage, paginator.page - 1)
        decreases f + 1 - paginator.page
      {
        WindowHasPosts(s, perPage, paginator.page);
        ghost var m := paginator.page - 1;
        paginator.AdvancePage();
        assert paginator.page == m + 2 && paginator.items == Window(s, m + 2, perPage);
        FirstPassesStep(s, perPage, m);
        passes := passes + [Pass(Some(paginator.page), paginator.items)];
      }
      WindowHasPosts(s, perPage, paginator.page);
      assert paginator.page == f + 1;
    }
  }

  /** The first m + 1 passes of a paginated file. */
  function FirstPasses(s: seq<Post>, perPage: nat, m: nat): seq<Pass> {
    [Pass(None, Window(s, 1, perPage))] + ExtraPasses(s, perPage, m)
  }

  lemma FirstWindow(s: seq<Post>, perPage: nat)
    requires perPage > 0
    ensures Window(s, 1, perPage) == s[..Min(perPage, |s|)]
    ensures FirstPasses(s, perPage, 0) == [Pass(None, s[..Min(perPage, |s|)])]
    ensures Passes(s, perPage, false) == FirstPasses(s, perPage, 0)
    ensures Passes(s, perPage, true) == FirstPasses(s, perPage, FullPages(|s|, perPage))
  {
    assert FirstPasses(s, perPage, 0) == [Pass(None, Window(s, 1, perPage))] + [];
  }

  lemma FirstPassesStep(s: seq<Post>, perPage: nat, m: nat)
    ensures FirstPasses(s, perPage, m + 1) == FirstPasses(s, perPage, m) + [Pass(Some(m + 2), Window(s, m + 2, perPage))]
  {
    ExtraPassesStep(s, perPage, m);
  }

  /** The window of a page is non-empty exactly on the full pages. */
  lemma WindowHasPosts(s: seq<Post>, perPage: nat, page: int)
    requires perPage > 0 && page >= 1
    ensures Window(s, page, perPage) != [] <==> page <= FullPages(|s|, perPage)
  {
    WindowSpec(s, page, perPage);
    PageHasPosts(|s|, perPage, page);
  }

  lemma ExtraPassesStep(s: seq<Post>, perPage: nat, m: nat)
    ensures ExtraPasses(s, perPage, m + 1) == ExtraPasses(s, perPage, m) + [Pass(Some(m + 2), Window(s, m + 2, perPage))]
  {
  }

  /** The first m + 1 passes of a paginated file show pages 1 .. m + 1. */
  lemma {:induction false} PassesShowPages(s: seq<Post>, perPage: nat, m: nat)
    requires perPage > 0
    ensures Items([Pass(None, Window(s, 1, perPage))] + ExtraPasses(s, perPage, m)) == Pages(s, perPage, m + 1)
  {
    var first := [Pass(None, Window(s, 1, perPage))];
    if m == 0 {
      assert first + ExtraPasses(s, perPage, 0) == first;
      assert Items(first) == Items([]) + Window(s, 1, perPage);
      assert Pages(s, perPage, 1) == Pages(s, perPage, 0) + Window(s, 1, perPage);
    } else {
      PassesShowPages(s, perPage, m - 1);
      var ps := first + ExtraPasses(s, perPage, m);
      assert ps[..|ps| - 1] == first + ExtraPasses(s, perPage, m - 1);
      assert ps[|ps| - 1] == Pass(Some(m + 1), Window(s, m + 1, perPage));
    }
  }

  /** A paginated file with posts is written once per page that holds
      posts plus once more: the pages written before the last show every
      post exactly once and in order, and the last page directory written
      shows none. */
  lemma PaginatedPassesCoverPosts(s: seq<Post>, perPage: nat)
    requires perPage > 0 && |s| > 0
    ensures var ps := Passes(s, perPage, true);
      && |ps| == FullPages(|s|, perPage) + 1
      && Items(ps[..|ps| - 1]) == s
      && ps[|ps| - 1] == Pass(Some(|ps|), [])
  {
    var f := FullPages(|s|, perPage);
    PageHasPosts(|s|, perPage, 1);
    LastPassSplit(s, perPage, f);
    PassesShowPages(s, perPage, f - 1);
    AllPagesTile(s, perPage);
    WindowHasPosts(s, perPage, f + 1);
    var a, x := FirstPasses(s, perPage, f - 1), Pass(Some(f + 1), Window(s, f + 1, perPage));
    assert |a + [x]| == |a| + 1 && (a + [x])[..|a|] == a && (a + [x])[|a|] == x;
  }

  /** The paginated passes are those up to the last full page, then one more. */
  lemma LastPassSplit(s: seq<Post>, perPage: nat, f: nat)
    requires perPage > 0 && f == FullPages(|s|, perPage) && f >= 1
    ensures Passes(s, perPage, true) == FirstPasses(s, perPage, f - 1) + [Pass(Some(f + 1), Window(s, f + 1, perPage))]
    ensures |FirstPasses(s, perPage, f - 1)| == f
  {
    FirstWindow(s, perPage);
    FirstPassesStep(s, perPage, f - 1);
  }

  /** The full pages together hold every post. */
  lemma AllPagesTile(s: seq<Post>, perPage: nat)
    requires perPage > 0
    ensures Pages(s, perPage, FullPages(|s|, perPage)) == s
  {
    var f := FullPages(|s|, perPage);
    PagesTile(s, perPage, f);
    FullPagesBounds(|s|, perPage);
    assert f * perPage == perPage * f;
    assert s[..|s|] == s;
  }

  /** Without pagination (or without a layout) a file is written once, in
      its own place, showing the first page of posts. */
  lemma UnpaginatedPass(s: seq<Post>, perPage: nat)
    requires perPage > 0
    ensures Passes(s, perPage, false) == [Pass(None, s[..Min(perPage, |s|)])]
  {
  }

  /** A file that `renderFile` handles: a Stylus sheet, or a Jade page with
      or without a layout and a `paginate` flag in its metadata. */
  datatype RenderJob = Styl | Jade(hasLayout: bool, paginate: bool)

  /** How many times a rendered file calls its completion callback: a Stylus
      sheet never does, a Jade page once per render pass. */
  function RenderCallbacks(job: RenderJob, s: seq<Post>, perPage: nat): nat
    requires perPage > 0
  {
    match job
    case Styl => 0
    case Jade(hasLayout, paginate) => |Passes(s, perPage, hasLayout && paginate)|
  }

  /** How many times `autoGenerateFile` calls back: once for a feed when the
      site has both a URL and a title, never otherwise. */
  function AutoGenCallbacks(isFeed: bool, hasUrlAndTitle: bool): nat {
    if isFeed && hasUrlAndTitle then 1 else 0
  }

  /** Repeats the callback counts of render jobs: silent for Stylus, once
      for an unpaginated page, more than once for a paginated page with
      posts. */
  lemma RenderCallbacksCases(job: RenderJob, s: seq<Post>, perPage: nat)
    requires perPage > 0
    ensures RenderCallbacks(job, s, perPage) == 0 <==> job == Styl
    ensures RenderCallbacks(job, s, perPage) > 1 <==> job == Jade(true, true) && |s| > 0
  {
    if job == Jade(true, true) && |s| > 0 {
      PaginatedPassesCoverPosts(s, perPage);
      PageHasPosts(|s|, perPage, 1);
    } else if job.Jade? && job.hasLayout && job.paginate {
      assert FullPages(0, perPage) == 0;
    }
  }

  function Sum(xs: seq<nat>): nat {
    if xs == [] then 0 else xs[0] + Sum(xs[1..])
  }

  /** Callbacks that each come at most once add up to at most one per job,
      and to fewer when some job never calls back. */
  lemma {:induction false} SumAtMostLength(xs: seq<nat>)
    requires forall k :: 0 <= k < |xs| ==> xs[k] <= 1
    ensures Sum(xs) <= |xs|
    ensures (exists k :: 0 <= k < |xs| && xs[k] == 0) ==> Sum(xs) < |xs|
  {
    if xs != [] {
      SumAtMostLength(xs[1..]);
      assert forall k :: 1 <= k < |xs| ==> xs[1..][k - 1] == xs[k];
    }
  }

  /** Callbacks that each come at least once add up to at least one per
      job, and to more when some job calls back repeatedly. */
  lemma {:induction false} SumAtLeastLength(xs: seq<nat>)
    requires forall k :: 0 <= k < |xs| ==> xs[k] >= 1
    ensures Sum(xs) >= |xs|
    ensures (exists k :: 0 <= k < |xs| && xs[k] > 1) ==> Sum(xs) > |xs|
  {
    if xs != [] {
      SumAtLeastLength(xs[1..]);
      assert forall k :: 1 <= k < |xs| ==> xs[1..][k - 1] == xs[k];
    }
  }

  /** What a build starts from: the three buckets of the file map, the
      rendered files' jobs, the `autoGenerate` entries of the configuration
      (whether each is a feed), whether the site has a URL and a title, and
      the posts the paginator sees. */
  datatype Site = Site(posts: nat, rendered: seq<RenderJob>, statics: nat,
                       autoGenerate: seq<bool>, hasUrlAndTitle: bool)

  /** The auto-generated pages a build keeps: none when there are no posts. */
  function KeptAutoGen(site: Site): seq<bool> {
    if site.posts == 0 then [] else site.autoGenerate
  }

  /** The initial `filesLeft`: one per post, rendered file, static file and
      kept auto-generated page. */
  function Expected(site: Site): nat {
    site.posts + |site.rendered| + site.statics + |KeptAutoGen(site)|
  }

  function RenderCallbackList(site: Site, s: seq<Post>, perPage: nat): seq<nat>
    requires perPage > 0
  {
    seq(|site.rendered|, k requires 0 <= k < |site.rendered| => RenderCallbacks(site.rendered[k], s, perPage))
  }

  function AutoGenCallbackList(site: Site): seq<nat> {
    var kept := KeptAutoGen(site);
    seq(|kept|, k requires 0 <= k < |kept| => AutoGenCallbacks(kept[k], site.hasUrlAndTitle))
  }

  /** How many completion callbacks a build receives in all: every post
      calls back once, so the auto-generated pages are always dispatched
      when there are posts; static files call back once each. */
  function Delivered(site: Site, s: seq<Post>, perPage: nat): nat
    requires perPage > 0
  {
    site.posts + Sum(RenderCallbackList(site, s, perPage)) + site.statics + Sum(AutoGenCallbackList(site))
  }

  /** The counters of `build`: files and posts still outstanding, how many
      times `ready` was emitted and how many times the auto-generated pages
      were dispatched. */
  datatype Counters = Counters(filesLeft: int, postsLeft: int, ready: nat, dispatched: nat)

  /** A completion callback: of a post, of a rendered or copied file, or of
      an auto-generated page. */
  datatype Event = PostDone | FileDone | AutoGenDone

  function Init(site: Site): Counters {
    Counters(Expected(site), site.posts, 0, 0)
  }

  /** One callback: `filesLeft` goes down, `ready` is emitted when it lands
      on zero; a post's callback also counts `postsLeft` down and dispatches
      the auto-generated pages when that lands on zero. */
  function Step(c: Counters, e: Event): Counters {
    var files := c.filesLeft - 1;
    var ready := c.ready + (if files == 0 then 1 else 0);
    if e == PostDone then
      var posts := c.postsLeft - 1;
      Counters(files, posts, ready, c.dispatched + (if posts == 0 then 1 else 0))
    else
      Counters(files, c.postsLeft, ready, c.dispatched)
  }

  function Run(c: Counters, t: seq<Event>): Counters
    decreases |t|
  {
    if t == [] then c else Run(Step(c, t[0]), t[1..])
  }

  function PostEvents(t: seq<Event>): nat {
    if t == [] then 0 else (if t[0] == PostDone then 1 else 0) + PostEvents(t[1..])
  }

  /** After any sequence of callbacks: `filesLeft` has gone down once per
      callback, `postsLeft` once per post callback; `ready` has been emitted
      once if the callbacks reached the initial `filesLeft` (and it was
      positive), and never otherwise; the auto-generated pages have been
      dispatched once if the post callbacks reached the initial `postsLeft`
      (and it was positive), and never otherwise. */
  lemma {:induction false} RunSpec(c: Counters, t: seq<Event>)
    ensures var r := Run(c, t);
      && r.filesLeft == c.filesLeft - |t|
      && r.postsLeft == c.postsLeft - PostEvents(t)
      && r.ready == c.ready + (if 1 <= c.filesLeft <= |t| then 1 else 0)
      && r.dispatched == c.dispatched + (if 1 <= c.postsLeft <= PostEvents(t) then 1 else 0)
    decreases |t|
  {
    if t != [] {
      RunSpec(Step(c, t[0]), t[1..]);
    }
  }

  /** Once every callback of a build has come, in whatever order, `ready`
      has been emitted once if the callbacks reached the number of files
      and there was at least one file, and never otherwise. */
  lemma BuildReady(site: Site, s: seq<Post>, perPage: nat, t: seq<Event>)
    requires perPage > 0 && |t| == Delivered(site, s, perPage)
    ensures Run(Init(site), t).ready == if 1 <= Expected(site) <= Delivered(site, s, perPage) then 1 else 0
  {
    RunSpec(Init(site), t);
  }

  /** A build with a Stylus sheet (or an auto-generated page that never
      calls back) and no paginated page to make up for it never emits
      `ready`. */
  lemma SilentJobStallsBuild(site: Site, s: seq<Post>, perPage: nat, t: seq<Event>)
    requires perPage > 0 && |t| == Delivered(site, s, perPage)
    requires |s| == 0 || Jade(true, true) !in site.rendered
    requires Styl in site.rendered || exists k :: 0 <= k < |KeptAutoGen(site)| && !(KeptAutoGen(site)[k] && site.hasUrlAndTitle)
    ensures Run(Init(site), t).ready == 0
  {
    var rs, gs := RenderCallbackList(site, s, perPage), AutoGenCallbackList(site);
    forall k | 0 <= k < |rs| ensures rs[k] <= 1 && (site.rendered[k] == Styl ==> rs[k] == 0) {
      RenderCallbacksCases(site.rendered[k], s, perPage);
    }
    if Styl in site.rendered {
      var k :| 0 <= k < |site.rendered| && site.rendered[k] == Styl;
      assert rs[k] == 0;
    } else {
      var kept := KeptAutoGen(site);
      var k :| 0 <= k < |kept| && !(kept[k] && site.hasUrlAndTitle);
      assert gs[k] == 0;
    }
    SumAtMostLength(rs);
    SumAtMostLength(gs);
    BuildReady(site, s, perPage, t);
  }

  /** A build with a paginated page over some posts, and nothing that stays
      silent, emits `ready` at the callback that brings `filesLeft` to zero
      while callbacks of that page are still to come. */
  lemma PaginationReadiesEarly(site: Site, s: seq<Post>, perPage: nat, t: seq<Event>)
    requires perPage > 0 && |t| == Delivered(site, s, perPage)
    requires |s| > 0 && Jade(true, true) in site.rendered
    requires Styl !in site.rendered && forall k :: 0 <= k < |KeptAutoGen(site)| ==> KeptAutoGen(site)[k] && site.hasUrlAndTitle
    ensures Expected(site) < |t|
    ensures Run(Init(site), t[..Expected(site)]).ready == 1
    ensures Run(Init(site), t).ready == 1
  {
    var rs, gs := RenderCallbackList(site, s, perPage), AutoGenCallbackList(site);
    forall k | 0 <= k < |rs| ensures rs[k] >= 1 && (site.rendered[k] == Jade(true, true) ==> rs[k] > 1) {
      RenderCallbacksCases(site.rendered[k], s, perPage);
    }
    SumAtLeastLength(rs);
    SumAtLeastLength(gs);
    RunSpec(Init(site), t[..Expected(site)]);
    RunSpec(Init(site), t);
  }

  /** When every job calls back exactly once, `ready` is emitted once after
      the last callback, provided there is anything to build at all. */
  lemma OneCallbackEachReadiesOnce(site: Site, s: seq<Post>, perPage: nat, t: seq<Event>)
    requires perPage > 0 && |t| == Delivered(site, s, perPage)
    requires |s| == 0 || Jade(true, true) !in site.rendered
    requires Styl !in site.rendered && forall k :: 0 <= k < |KeptAutoGen(site)| ==> KeptAutoGen(site)[k] && site.hasUrlAndTitle
    ensures Delivered(site, s, perPage) == Expected(site)
    ensures Run(Init(site), t).ready == if Expected(site) == 0 then 0 else 1
  {
    var rs, gs := RenderCallbackList(site, s, perPage), AutoGenCallbackList(site);
    forall k | 0 <= k < |rs| ensures rs[k] == 1 {
      RenderCallbacksCases(site.rendered[k], s, perPage);
    }
    SumAtMostLength(rs);
    SumAtLeastLength(rs);
    SumAtMostLength(gs);
    SumAtLeastLength(gs);
    BuildReady(site, s, perPage, t);
  }

  /** The auto-generated pages are dispatched once, after the last post's
      callback, when the site has posts, and never when it has none. */
  lemma AutoGenDispatchedOnce(site: Site, t: seq<Event>)
    ensures Run(Init(site), t).dispatched == if 1 <= site.posts <= PostEvents(t) then 1 else 0
    ensures site.posts == 0 ==> KeptAutoGen(site) == []
  {
    RunSpec(Init(site), t);
  }

  /** The live counters of one `build` run; each callback is a method. */
  class Builder {
    var filesLeft: int
    var postsLeft: int
    var ready: nat
    var dispatched: nat
    var autoGen: seq<bool>

    function State(): Counters
      reads this
    {
      Counters(filesLeft, postsLeft, ready, dispatched)
    }

    /** The start of `build`: the buckets of the file map, the auto-generated
        pages emptied when there are no posts, `filesLeft` the sum of the
        four. */
    constructor (files: seq<FileEntry>, autoGenerate: seq<bool>)
      ensures var posts := |FindPosts(files)|;
        && autoGen == (if posts == 0 then [] else autoGenerate)
        && filesLeft == posts + |OtherRenderedFiles(files)| + |StaticFiles(files)| + |autoGen|
        && postsLeft == posts && ready == 0 && dispatched == 0
    {
      var posts := FindPosts(files);
      var kept := if |posts| == 0 then [] else autoGenerate;
      autoGen := kept;
      filesLeft := |posts| + |OtherRenderedFiles(files)| + |StaticFiles(files)| + |kept|;
      postsLeft := |posts|;
      ready := 0;
      dispatched := 0;
    }

    method CheckFinished()
      modifies this
      ensures ready == old(ready) + (if filesLeft == 0 then 1 else 0)
      ensures filesLeft == old(filesLeft) && postsLeft == old(postsLeft)
      ensures dispatched == old(dispatched) && autoGen == old(autoGen)
    {
      if filesLeft == 0 {
        ready := ready + 1;
      }
    }

    /** The callback given to `renderPost`. */
    method PostRendered()
      modifies this
      ensures State() == Step(old(State()), PostDone) && autoGen == old(autoGen)
    {
      filesLeft := filesLeft - 1;
      postsLeft := postsLeft - 1;
      CheckFinished();
      if postsLeft == 0 {
        dispatched := dispatched + 1;
      }
    }

    /** The callback given to `renderFile` and `copyStatic`. */
    method FileFinished()
      modifies this
      ensures State() == Step(old(State()), FileDone) && autoGen == old(autoGen)
    {
      filesLeft := filesLeft - 1;
      CheckFinished();
    }

    /** The callback given to `autoGenerateFile`. */
    method AutoGenFinished()
      modifies this
      ensures State() == Step(old(State()), AutoGenDone) && autoGen == old(autoGen)
    {
      filesLeft := filesLeft - 1;
      CheckFinished();
    }

    /** Callbacks arriving one at a time, in the order given. */
    method Replay(t: seq<Event>)
      modifies this
      ensures State() == Run(old(State()), t) && autoGen == old(autoGen)
    {
      var i := 0;
      while i < |t|
        invariant 0 <= i <= |t| && autoGen == old(autoGen)
        invariant Run(old(State()), t) == Run(State(), t[i..])
      {
        assert t[i..][1..] == t[i + 1..];
        match t[i] {
          case PostDone => PostRendered();
          case FileDone => FileFinished();
          case AutoGenDone => AutoGenFinished();
        }
        i := i + 1;
      }
    }
  }
}
