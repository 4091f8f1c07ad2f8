/** The paginator: it sorts the posts it is given newest first, in place,
    and exposes one page-sized window of them at a time. */
module Pagination {

  /** A post as the paginator sees it: its date (what `date.valueOf()`
      yields, milliseconds since the epoch) and its URL. */
  datatype Post = Post(date: int, url: string)

  /** Non-increasing by date: every post is at least as new as the ones after it. */
  predicate NewestFirst(s: seq<Post>) {
    forall i, j :: 0 <= i < j < |s| ==> s[i].date >= s[j].date
  }

  function Min(a: int, b: int): int {
    if a < b then a else b
  }

  /** `Math.round(n / perPage) + 1`; for non-negative `n` the rounding of
      a half goes up, so it is integer division of `2n + perPage` by `2 perPage`. */
  function PageCount(n: nat, perPage: nat): nat
    requires perPage > 0
  {
    (2 * n + perPage) / (2 * perPage) + 1
  }

  /** The number of pages that hold at least one post. */
  function FullPages(n: nat, perPage: nat): nat
    requires perPage > 0
  {
    (n + perPage - 1) / perPage
  }

  /** One less than the page count is `n / perPage` rounded to the nearest
      integer, halves upwards. */
  lemma PageCountRounds(n: nat, perPage: nat)
    requires perPage > 0
    ensures var r := PageCount(n, perPage) - 1;
      2 * perPage * r <= 2 * n + perPage < 2 * perPage * (r + 1)
  {
    var q := 2 * perPage;
    var r := (2 * n + perPage) / q;
    assert q * r + (2 * n + perPage) % q == 2 * n + perPage;
  }

  /** The pages that hold posts are the fewest that hold them all. */
  lemma FullPagesBounds(n: nat, perPage: nat)
    requires perPage > 0
    ensures n <= perPage * FullPages(n, perPage) < n + perPage
  {
    var f := FullPages(n, perPage);
    assert perPage * f + (n + perPage - 1) % perPage == n + perPage - 1;
  }

  /** Integer division is determined by any quotient and remainder that fit. */
  lemma DivUnique(x: int, d: int, q: int, r: int)
    requires d > 0 && 0 <= r < d && x == d * q + r
    ensures x / d == q
  {
    var q0, r0 := x / d, x % d;
    assert d * (q0 - q) == r - r0;
    if q0 > q {
      MulAtLeast(d, q0 - q);
    } else if q0 < q {
      MulAtLeast(d, q - q0);
    }
  }

  lemma MulAtLeast(d: int, k: int)
    requires d > 0 && k >= 1
    ensures d * k >= d
  {
  }

  lemma MulStep(d: int, q: int)
    ensures d * (q + 1) == d * q + d
  {
  }

  /** The page count never undercounts the pages that hold posts, and counts
      at most one page too many; it counts exactly one too many whenever the
      posts fill their last page (or there are none). */
  lemma PageCountVersusFullPages(n: nat, perPage: nat)
    requires perPage > 0
    ensures FullPages(n, perPage) <= PageCount(n, perPage) <= FullPages(n, perPage) + 1
    ensures n % perPage == 0 ==> PageCount(n, perPage) == FullPages(n, perPage) + 1
  {
    var p := perPage;
    var q, m := n / p, n % p;
    assert n == p * q + m;
    MulStep(p, q);
    MulStep(2 * p, q);
    assert 2 * p * q == 2 * (p * q);
    if m == 0 {
      DivUnique(n + p - 1, p, q, p - 1);
    } else {
      DivUnique(n + p - 1, p, q + 1, m - 1);
    }
    if 2 * m + p < 2 * p {
      DivUnique(2 * n + p, 2 * p, q, 2 * m + p);
    } else {
      DivUnique(2 * n + p, 2 * p, q + 1, 2 * m - p);
    }
  }

  /** `allItems.slice((page - 1) * perPage, page * perPage)`: the posts of
      page `page`, cut short at the end of the list, empty past it. */
  function Window(s: seq<Post>, page: int, perPage: nat): seq<Post>
    requires page >= 1
  {
    var start := (page - 1) * perPage;
    var end := page * perPage;
    s[Min(start, |s|)..Min(end, |s|)]
  }

  lemma PageStep(page: int, perPage: nat)
    requires page >= 1
    ensures (page - 1) * perPage >= 0
    ensures page * perPage == (page - 1) * perPage + perPage
  {
  }

  /** The window of a page is the run of posts that starts `perPage` posts
      per earlier page into the list; it is empty exactly when the earlier
      pages already hold every post. */
  lemma WindowSpec(s: seq<Post>, page: int, perPage: nat)
    requires page >= 1 && perPage > 0
    ensures var start, w := (page - 1) * perPage, Window(s, page, perPage);
      && (w == [] <==> start >= |s|)
      && (start < |s| ==>
            |w| == Min(perPage, |s| - start) && forall k :: 0 <= k < |w| ==> w[k] == s[start + k])
  {
    PageStep(page, perPage);
  }

  /** The windows of pages 1..m, one after another. */
  function Pages(s: seq<Post>, perPage: nat, m: nat): seq<Post>
  {
    if m == 0 then [] else Pages(s, perPage, m - 1) + Window(s, m, perPage)
  }

  /** Walking pages 1..m visits the first m pages' worth of posts, each
      once and in order: the windows tile the list. */
  lemma {:induction false} PagesTile(s: seq<Post>, perPage: nat, m: nat)
    requires perPage > 0
    ensures Pages(s, perPage, m) == s[..Min(m * perPage, |s|)]
  {
    if m > 0 {
      PagesTile(s, perPage, m - 1);
      PageStep(m, perPage);
      var a := Min((m - 1) * perPage, |s|);
      var b := Min(m * perPage, |s|);
      assert s[..a] + s[a..b] == s[..b];
    }
  }

  class Paginator {
    var allItems: array<Post>
    var perPage: nat
    var items: seq<Post>
    var previousPage: int
    var nextPage: int
    var page: int
    var pages: int

    /** The paginator's invariant: page numbers around the current page and
        the window of the current page over the (sorted) shared array. */
    ghost predicate Valid()
      reads this, allItems
    {
      && perPage > 0
      && page >= 1
      && previousPage == page - 1
      && nextPage == page + 1
      && NewestFirst(allItems[..])
      && items == Window(allItems[..], page, perPage)
      && pages == PageCount(allItems.Length, perPage)
    }

    /** `new Paginator(perPage, items)`: sorts the caller's array in place,
        keeps that very array as `allItems` and shows page 1. */
    constructor (perPage: nat, items: array<Post>)
      requires perPage > 0
      modifies items
      ensures Valid()
      ensures allItems == items && this.perPage == perPage
      ensures NewestFirst(items[..]) && multiset(items[..]) == old(multiset(items[..]))
      ensures page == 1 && previousPage == 0 && nextPage == 2
      ensures this.items == items[..Min(perPage, items.Length)]
      ensures pages == PageCount(items.Length, perPage)
    {
      Sort(items);
      allItems := items;
      this.perPage := perPage;
      this.items := items[..Min(perPage, items.Length)];
      previousPage := 0;
      nextPage := 2;
      page := 1;
      pages := PageCount(items.Length, perPage);
    }

    /** `advancePage()`: one page further, with no wrap-around. */
    method AdvancePage()
      requires Valid()
      modifies this
      ensures Valid()
      ensures page == old(page) + 1 && previousPage == page - 1 && nextPage == page + 1
      ensures items == Window(allItems[..], page, perPage)
      ensures allItems == old(allItems) && allItems[..] == old(allItems[..])
      ensures perPage == old(perPage) && pages == old(pages)
    {
      page := page + 1;
      previousPage := page - 1;
      nextPage := page + 1;
      var start, end := (page - 1) * perPage, page * perPage;
      items := allItems[Min(start, allItems.Length)..Min(end, allItems.Length)];
    }

    /** `sort(items)`: reorders the array in place, newest first. The order
        of posts with equal dates is not specified. */
    static method Sort(a: array<Post>)
      modifies a
      ensures NewestFirst(a[..])
      ensures multiset(a[..]) == old(multiset(a[..]))
    {
      var i := 0;
      while i < a.Length
        invariant 0 <= i <= a.Length
        invariant NewestFirst(a[..i])
        invariant multiset(a[..]) == old(multiset(a[..]))
      {
        Insert(a, i);
        i := i + 1;
      }
    }

    /** Moves `a[i]` left past every older post, so that `a[..i + 1]` is
        newest first when `a[..i]` was. */
    static method Insert(a: array<Post>, i: nat)
      requires i < a.Length
      requires NewestFirst(a[..i])
      modifies a
      ensures NewestFirst(a[..i + 1])
      ensures a[i + 1..] == old(a[i + 1..])
      ensures multiset(a[..]) == old(multiset(a[..]))
    {
      var j := i;
      while j > 0 && a[j - 1].date < a[j].date
        invariant 0 <= j <= i
        invariant NewestFirstExcept(a[..], i, j)
        invariant NewerThanRest(a[..], i, j)
        invariant a[i + 1..] == old(a[i + 1..])
        invariant multiset(a[..]) == old(multiset(a[..]))
      {
        ghost var before := a[..];
        a[j - 1], a[j] := a[j], a[j - 1];
        assert a[..] == before[j - 1 := before[j]][j := before[j - 1]];
        SwapStep(before, a[..], i, j);
        j := j - 1;
      }
      InsertDone(a[..], i, j);
    }
  }

  /** `s[..i + 1]` is newest first once position `j` is ignored. */
  predicate NewestFirstExcept(s: seq<Post>, i: int, j: int)
    requires i < |s|
  {
    forall k, l :: 0 <= k < l <= i && k != j && l != j ==> s[k].date >= s[l].date
  }

  /** The post at `j` is strictly newer than every post after it up to `i`. */
  predicate NewerThanRest(s: seq<Post>, i: int, j: int)
    requires 0 <= j <= i < |s|
  {
    forall l :: j < l <= i ==> s[j].date > s[l].date
  }

  /** Swapping two neighbours before `i + 1` keeps the posts and what
      follows `i`. */
  lemma SwapKeeps(s: seq<Post>, t: seq<Post>, i: int, j: int)
    requires 0 < j <= i < |s| && t == s[j - 1 := s[j]][j := s[j - 1]]
    ensures multiset(t) == multiset(s) && t[i + 1..] == s[i + 1..]
  {
  }

  /** One swap of the insertion loop: the loop's facts move from `j` to
      `j - 1`, the posts are kept and nothing after `i` moves. */
  lemma SwapStep(s: seq<Post>, t: seq<Post>, i: int, j: int)
    requires 0 < j <= i < |s| && t == s[j - 1 := s[j]][j := s[j - 1]]
    requires NewestFirstExcept(s, i, j) && NewerThanRest(s, i, j)
    requires s[j - 1].date < s[j].date
    ensures NewestFirstExcept(t, i, j - 1) && NewerThanRest(t, i, j - 1)
    ensures multiset(t) == multiset(s) && t[i + 1..] == s[i + 1..]
  {
    InsertStep(s, i, j);
    SwapKeeps(s, t, i, j);
  }

  lemma InsertStep(s: seq<Post>, i: int, j: int)
    requires 0 < j <= i < |s|
    requires NewestFirstExcept(s, i, j) && NewerThanRest(s, i, j)
    requires s[j - 1].date < s[j].date
    ensures var t := s[j - 1 := s[j]][j := s[j - 1]];
      NewestFirstExcept(t, i, j - 1) && NewerThanRest(t, i, j - 1)
  {
  }

  lemma InsertDone(s: seq<Post>, i: int, j: int)
    requires 0 <= j <= i < |s|
    requires NewestFirstExcept(s, i, j) && NewerThanRest(s, i, j)
    requires j == 0 || s[j - 1].date >= s[j].date
    ensures NewestFirst(s[..i + 1])
  {
  }

  /** The scenario of twenty posts at five per page: page 4 holds the last
      five posts and one more advance reaches an empty page. */
  method TwentyPostsAtFive(posts: array<Post>) returns (p: Paginator)
    requires posts.Length == 20
    modifies posts
    ensures p.Valid() && p.allItems == posts
    ensures p.pages == 5 && p.page == 5 && p.items == []
  {
    p := new Paginator(5, posts);
    assert p.pages == PageCount(20, 5) == 5;
    p.AdvancePage();
    p.AdvancePage();
    p.AdvancePage();
    p.AdvancePage();
    WindowOfFifth(posts[..]);
  }

  lemma WindowOfFifth(s: seq<Post>)
    requires |s| == 20
    ensures Window(s, 5, 5) == []
  {
  }
}
