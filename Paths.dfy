/** The parts of node's `path` module that output naming uses: `basename`,
    `dirname`, `extname` and `join`. A path is a `/`-separated string;
    `join` normalises away empty and `.` segments (`..` is kept as a segment). */
module Paths {
  import opened Strings

  /** The index of the last `c` in `s`, or -1. */
  function LastIndexOfChar(s: string, c: char): (r: int)
    ensures -1 <= r < |s|
    ensures r >= 0 ==> s[r] == c
    ensures forall j :: r < j < |s| ==> s[j] != c
  {
    if |s| == 0 then -1
    else if s[|s| - 1] == c then |s| - 1
    else LastIndexOfChar(s[..|s| - 1], c)
  }

  /** `path.basename(p)`: everything after the last `/`. */
  function Basename(p: string): (b: string)
    ensures '/' !in b
  {
    p[LastIndexOfChar(p, '/') + 1..]
  }

  /** `path.dirname(p)`: everything before the last `/`; `/` for a file at
      the root, `.` for a bare name. */
  function Dirname(p: string): string {
    var k := LastIndexOfChar(p, '/');
    if k < 0 then "." else if k == 0 then "/" else p[..k]
  }

  /** `path.extname(p)`: the basename's last `.` and what follows it; empty
      when the basename has no `.` or starts with its only `.`. */
  function Extname(p: string): (e: string)
    ensures e == [] || (e[0] == '.' && '.' !in e[1..] && '/' !in e)
  {
    var b := Basename(p);
    var d := LastIndexOfChar(b, '.');
    if d <= 0 then "" else b[d..]
  }

  /** The extension is a suffix of the basename. */
  lemma ExtnameSuffix(p: string)
    ensures var b, e := Basename(p), Extname(p); |e| <= |b| && b[|b| - |e|..] == e
  {
    var b := Basename(p);
    var d := LastIndexOfChar(b, '.');
    if d > 0 {
      assert Extname(p) == b[d..];
      assert |b| - |b[d..]| == d;
    } else {
      assert Extname(p) == "";
    }
  }

  /** The segments that survive normalisation: empty and `.` pieces are dropped. */
  function Keep(pieces: seq<string>): (r: seq<string>)
    ensures forall k :: 0 <= k < |r| ==> r[k] != "" && r[k] != "." && r[k] in pieces
  {
    if |pieces| == 0 then []
    else if pieces[0] == "" || pieces[0] == "." then Keep(pieces[1..])
    else [pieces[0]] + Keep(pieces[1..])
  }

  lemma {:induction false} KeepConcat(a: seq<string>, b: seq<string>)
    ensures Keep(a + b) == Keep(a) + Keep(b)
  {
    if |a| == 0 {
      assert a + b == b;
    } else {
      assert (a + b)[0] == a[0];
      assert (a + b)[1..] == a[1..] + b;
      KeepConcat(a[1..], b);
      if a[0] == "" || a[0] == "." {
        assert Keep(a + b) == Keep(a[1..] + b);
      } else {
        calc {
          Keep(a + b);
          [a[0]] + Keep(a[1..] + b);
          [a[0]] + (Keep(a[1..]) + Keep(b));
          ([a[0]] + Keep(a[1..])) + Keep(b);
        }
      }
    }
  }

  /** The non-empty, non-`.` segments of a path, in order. */
  function Segments(p: string): seq<string> {
    Keep(Split(p, "/"))
  }

  /** Every segment is a non-empty name other than `.` without a `/`. */
  lemma SegmentsAreNames(p: string)
    ensures forall k :: 0 <= k < |Segments(p)| ==>
      Segments(p)[k] != "" && Segments(p)[k] != "." && '/' !in Segments(p)[k]
  {
    var pieces := Split(p, "/");
    SplitPiecesFree(p, "/");
    forall x | x in pieces ensures '/' !in x {
      var i :| 0 <= i < |pieces| && pieces[i] == x;
      assert !Contains(x, "/");
      SlashFree(x);
    }
  }

  lemma SlashFree(x: string)
    requires !Contains(x, "/")
    ensures '/' !in x
  {
    forall j | 0 <= j < |x| ensures x[j] != '/' {
      assert x[j..j + 1] == [x[j]];
      assert !OccursAt(x, "/", j);
    }
  }

  lemma IndexOfBefore(a: string, b: string, pat: string)
    requires IndexOf(a, pat) >= 0
    ensures IndexOf(a + b, pat) == IndexOf(a, pat)
  {
    var i := IndexOf(a, pat);
    assert (a + b)[i..i + |pat|] == a[i..i + |pat|];
    assert OccursAt(a + b, pat, i);
    forall j | 0 <= j < i ensures !OccursAt(a + b, pat, j) {
      assert !OccursAt(a, pat, j);
      assert j + |pat| <= |a|;
      assert (a + b)[j..j + |pat|] == a[j..j + |pat|];
    }
  }

  /** A `/` between two strings separates their pieces. */
  lemma {:induction false} SplitSlash(a: string, b: string)
    ensures Split(a + "/" + b, "/") == Split(a, "/") + Split(b, "/")
    decreases |a|
  {
    var i := IndexOf(a, "/");
    if i < 0 {
      NotInIfAbsent(a, '/');
      SplitSlashFirst(a, b);
    } else {
      SplitSlash(a[i + 1..], b);
      SplitSlashLater(a, b, "/", i);
    }
  }

  /** No `/` in `a`: the joining `/` is the first one. */
  lemma SplitSlashFirst(a: string, b: string)
    requires '/' !in a
    ensures Split(a + "/" + b, "/") == Split(a, "/") + Split(b, "/")
  {
    var s := a + "/" + b;
    assert s == a + ("/" + b);
    SplitNoSlash(a);
    IndexOfAfter(a, "/" + b, "/");
    assert IndexOf("/" + b, "/") == 0 by { assert OccursAt("/" + b, "/", 0); }
    SplitStep(s, "/", |a|);
    assert s[..|a|] == a && s[|a| + 1..] == b;
  }

  /** The first separator of `a`, at `i`, is the first one of `a + sep + b`. */
  lemma SplitSlashLater(a: string, b: string, sep: string, i: int)
    requires |sep| > 0 && i == IndexOf(a, sep) && i >= 0
    requires Split(a[i + |sep|..] + sep + b, sep) == Split(a[i + |sep|..], sep) + Split(b, sep)
    ensures Split(a + sep + b, sep) == Split(a, sep) + Split(b, sep)
  {
    var t := a[i + |sep|..];
    SplitBefore(a, b, sep, i);
    ConsAppend(a[..i], Split(t, sep), Split(b, sep));
    SplitStep(a, sep, i);
  }

  lemma SplitBefore(a: string, b: string, sep: string, i: int)
    requires |sep| > 0 && i == IndexOf(a, sep) && i >= 0
    ensures Split(a + sep + b, sep) == [a[..i]] + Split(a[i + |sep|..] + sep + b, sep)
  {
    var s := a + sep + b;
    assert s == a + (sep + b);
    IndexOfBefore(a, sep + b, sep);
    SplitAround(s, a, b, sep, i);
  }

  lemma SplitAround(s: string, a: string, b: string, sep: string, i: int)
    requires |sep| > 0 && i == IndexOf(s, sep) && i >= 0 && s == a + sep + b && i + |sep| <= |a|
    ensures Split(s, sep) == [a[..i]] + Split(a[i + |sep|..] + sep + b, sep)
  {
    SplitStep(s, sep, i);
    AroundSlices(a, sep, b, i);
  }

  lemma AroundSlices(a: string, sep: string, b: string, i: int)
    requires 0 <= i && i + |sep| <= |a|
    ensures (a + sep + b)[..i] == a[..i]
    ensures (a + sep + b)[i + |sep|..] == a[i + |sep|..] + sep + b
  {
  }

  lemma ConsAppend<T>(x: T, u: seq<T>, v: seq<T>)
    ensures [x] + (u + v) == [x] + u + v
  {
  }

  lemma NotInIfAbsent(a: string, c: char)
    requires IndexOf(a, [c]) < 0
    ensures c !in a
  {
    forall j | 0 <= j < |a| ensures a[j] != c {
      assert !OccursAt(a, [c], j);
      assert a[j..j + 1] == [a[j]];
    }
  }

  lemma SplitNoSlash(a: string)
    requires '/' !in a
    ensures Split(a, "/") == [a]
  {
    NotContainsFirstChar(a, "/");
  }

  /** Segments of a concatenation around a `/`. */
  lemma SegmentsSlash(a: string, b: string)
    ensures Segments(a + "/" + b) == Segments(a) + Segments(b)
  {
    SplitSlash(a, b);
    KeepConcat(Split(a, "/"), Split(b, "/"));
  }

  /** Joining paths with `/` concatenates their segments. */
  lemma {:induction false} SegmentsJoin(parts: seq<string>)
    ensures Segments(Join(parts, "/")) == SegmentsOfAll(parts)
  {
    if |parts| == 0 {
      assert Split("", "/") == [""];
    } else if |parts| == 1 {
    } else {
      SegmentsJoin(parts[1..]);
      SegmentsSlash(parts[0], Join(parts[1..], "/"));
    }
  }

  /** The segments of every path in `parts`, in order. */
  function SegmentsOfAll(parts: seq<string>): seq<string> {
    if |parts| == 0 then [] else Segments(parts[0]) + SegmentsOfAll(parts[1..])
  }

  /** A path made of segments that are already normal keeps exactly those segments. */
  lemma {:induction false} SegmentsOfSegments(segs: seq<string>)
    requires forall k :: 0 <= k < |segs| ==> segs[k] != "" && segs[k] != "." && '/' !in segs[k]
    ensures SegmentsOfAll(segs) == segs
  {
    if |segs| > 0 {
      SplitNoSlash(segs[0]);
      assert Keep([segs[0]]) == [segs[0]] + Keep([]);
      assert Segments(segs[0]) == [segs[0]];
      SegmentsOfSegments(segs[1..]);
    }
  }

  /** node's `path.normalize` without `..` resolution: one leading `/` when
      absolute, the kept segments joined by `/`, one trailing `/` when the
      input had one, and `.` for nothing at all. */
  function Normalize(p: string): string {
    var absolute := |p| > 0 && p[0] == '/';
    var trailing := |p| > 0 && p[|p| - 1] == '/';
    var body := Join(Segments(p), "/");
    var body' := if body != "" && trailing then body + "/" else body;
    if body' == "" && !absolute then "." else (if absolute then "/" else "") + body'
  }

  lemma SegmentsEmpty()
    ensures Segments("") == [] && Segments(".") == [] && Segments("/") == []
  {
    assert Split("", "/") == [""];
    SplitNoSlash(".");
    assert Keep(["."]) == Keep([]);
    SegmentsSlash("", "");
  }

  /** A leading or trailing `/` does not change the segments. */
  lemma SegmentsAroundSlash(x: string)
    ensures Segments("/" + x) == Segments(x) && Segments(x + "/") == Segments(x)
  {
    SegmentsEmpty();
    SegmentsSlash("", x);
    assert "" + "/" + x == "/" + x;
    SegmentsSlash(x, "");
    assert x + "/" + "" == x + "/";
  }

  /** Joining normal segments with `/` gives a path with exactly those segments. */
  lemma SegmentsOfJoinedSegments(p: string)
    ensures Segments(Join(Segments(p), "/")) == Segments(p)
  {
    var segs := Segments(p);
    SegmentsAreNames(p);
    SegmentsJoin(segs);
    SegmentsOfSegments(segs);
  }

  lemma TrailingSlashKept(body: string, trailing: bool)
    ensures Segments(if body != "" && trailing then body + "/" else body) == Segments(body)
  {
    SegmentsAroundSlash(body);
  }

  lemma LeadingSlashKept(body: string, absolute: bool)
    ensures Segments(if body == "" && !absolute then "." else (if absolute then "/" else "") + body)
      == Segments(body)
  {
    SegmentsAroundSlash(body);
    if body == "" && !absolute {
      SegmentsEmpty();
    } else if !absolute {
      assert "" + body == body;
    }
  }

  /** Normalising a path keeps its segments. */
  lemma NormalizeSegments(p: string)
    ensures Segments(Normalize(p)) == Segments(p)
  {
    var body := Join(Segments(p), "/");
    SegmentsOfJoinedSegments(p);
    var trailing := |p| > 0 && p[|p| - 1] == '/';
    var absolute := |p| > 0 && p[0] == '/';
    TrailingSlashKept(body, trailing);
    var body' := if body != "" && trailing then body + "/" else body;
    LeadingSlashKept(body', absolute);
  }

  /** The arguments `path.join` keeps: the non-empty strings (an absent
      argument is modelled as `""`). */
  function NonEmpty(parts: seq<string>): (r: seq<string>)
    ensures forall k :: 0 <= k < |r| ==> r[k] != "" && r[k] in parts
  {
    if parts == [] then []
    else if parts[0] == "" then NonEmpty(parts[1..])
    else [parts[0]] + NonEmpty(parts[1..])
  }

  lemma {:induction false} SegmentsOfNonEmpty(parts: seq<string>)
    ensures SegmentsOfAll(NonEmpty(parts)) == SegmentsOfAll(parts)
  {
    if parts != [] {
      SegmentsOfNonEmpty(parts[1..]);
      if parts[0] == "" {
        SegmentsEmpty();
      }
    }
  }

  /** `path.join(parts...)`: the non-empty arguments joined by `/`, then normalised. */
  function JoinPath(parts: seq<string>): string {
    Normalize(Join(NonEmpty(parts), "/"))
  }

  /** The joined path consists of the segments of the parts, in order. */
  lemma JoinPathSegments(parts: seq<string>)
    ensures Segments(JoinPath(parts)) == SegmentsOfAll(parts)
  {
    NormalizeSegments(Join(NonEmpty(parts), "/"));
    SegmentsJoin(NonEmpty(parts));
    SegmentsOfNonEmpty(parts);
  }

  /** A path's segments are those of its directory followed by those of its basename. */
  lemma DirnameBasename(p: string)
    ensures Segments(p) == Segments(Dirname(p)) + Segments(Basename(p))
  {
    var k := LastIndexOfChar(p, '/');
    if k < 0 {
      BareName(p);
    } else if k == 0 {
      RootFile(p);
    } else {
      NestedFile(p, k);
    }
  }

  lemma BareName(p: string)
    requires LastIndexOfChar(p, '/') < 0
    ensures Segments(p) == Segments(Dirname(p)) + Segments(Basename(p))
  {
    BareParts(p);
    SegmentsDot();
    EmptyThen(Segments(Dirname(p)), Segments(Basename(p)));
  }

  lemma EmptyThen<T>(e: seq<T>, s: seq<T>)
    requires e == []
    ensures e + s == s
  {
  }

  /** A bare name is its own basename, in the directory `.`. */
  lemma BareParts(p: string)
    requires LastIndexOfChar(p, '/') < 0
    ensures Basename(p) == p && Dirname(p) == "."
  {
    assert p[0..] == p;
  }

  lemma SegmentsDot()
    ensures Segments(".") == []
  {
    SplitNoSlash(".");
    assert Keep(["."]) == Keep([]);
  }

  lemma RootFile(p: string)
    requires LastIndexOfChar(p, '/') == 0
    ensures Segments(p) == Segments(Dirname(p)) + Segments(Basename(p))
  {
    var b := Basename(p);
    assert Dirname(p) == "/";
    assert p == "/" + b;
    SegmentsEmpty();
    SegmentsAroundSlash(b);
  }

  lemma NestedFile(p: string, k: int)
    requires 0 < k && LastIndexOfChar(p, '/') == k
    ensures Segments(p) == Segments(Dirname(p)) + Segments(Basename(p))
  {
    var d, b := Dirname(p), Basename(p);
    assert d == p[..k];
    assert p == d + "/" + b;
    SegmentsSlash(d, b);
  }

  /** The basename of a path whose tail contains a `/` is the tail's basename. */
  lemma BasenameConcat(a: string, b: string)
    requires '/' in b
    ensures Basename(a + b) == Basename(b)
  {
    var k := LastIndexOfChar(b, '/');
    var s := a + b;
    var ks := LastIndexOfChar(s, '/');
    assert s[|a| + k] == '/';
    assert ks == |a| + k;
    assert s[ks + 1..] == b[k + 1..];
  }
}
