/** `parseFileName`: the date and title in a post's file name, and the
    URL path the permalink pattern makes of them. */
module PostNames {
  import opened Strings
  import opened Wrappers
  import opened CliTools

  /** The length of the run of digits at the start of `s`: what the greedy
      `\d+` takes. */
  function DigitRun(s: string): (k: nat)
    ensures k <= |s|
    ensures forall j :: 0 <= j < k ==> IsDigit(s[j])
    ensures k < |s| ==> !IsDigit(s[k])
  {
    if s != [] && IsDigit(s[0]) then 1 + DigitRun(s[1..]) else 0
  }

  /** The characters `.` in a pattern does not match. */
  predicate IsLineTerminator(c: char) {
    c == '\n' || c == '\r' || c == '\U{2028}' || c == '\U{2029}'
  }

  /** The length of what the greedy `.*` takes: everything up to the first
      line terminator. */
  function LineLength(s: string): (k: nat)
    ensures k <= |s|
    ensures forall j :: 0 <= j < k ==> !IsLineTerminator(s[j])
    ensures k < |s| ==> IsLineTerminator(s[k])
  {
    if s != [] && !IsLineTerminator(s[0]) then 1 + LineLength(s[1..]) else 0
  }

  /** The four groups of `(\d+)-(\d+)-(\d+)-(.*)`. */
  datatype DateMatch = DateMatch(year: string, month: string, day: string, rest: string)

  /** The three numbers are non-empty runs of digits. */
  predicate DigitGroups(m: DateMatch) {
    m.year != [] && AllDigits(m.year) && m.month != [] && AllDigits(m.month)
    && m.day != [] && AllDigits(m.day)
  }

  /** `\d+-` at the start of `s`: the digits and what follows the dash. A
      digit run shorter than the greedy one is followed by a digit, not by
      the dash, so the greedy run is the only candidate. */
  function DigitsDash(s: string): (r: Option<(string, string)>)
    ensures r.Some? ==> r.value.0 != [] && AllDigits(r.value.0) && s == r.value.0 + "-" + r.value.1
  {
    var k := DigitRun(s);
    if k == 0 || k == |s| || s[k] != '-' then None
    else
      assert s == s[..k] + "-" + s[k + 1..] by { assert s[k] == '-'; }
      Some((s[..k], s[k + 1..]))
  }

  /** The pattern tried at the start of `s`: three `\d+-` and then the
      greedy `.*`, which takes everything up to the first line terminator. */
  function MatchDateAt(s: string): (r: Option<DateMatch>)
    ensures r.Some? ==> DigitGroups(r.value) && NoLineTerminator(r.value.rest) && MatchedText(r.value) <= s
    ensures r.Some? && |MatchedText(r.value)| < |s| ==> IsLineTerminator(s[|MatchedText(r.value)|])
  {
    match DigitsDash(s)
    case None => None
    case Some((y, s1)) =>
      match DigitsDash(s1)
      case None => None
      case Some((m, s2)) =>
        match DigitsDash(s2)
        case None => None
        case Some((d, s3)) => Some(Groups(s, y, s1, m, s2, d, s3))
  }

  /** The match once the three `\d+-` are read: the greedy `.*` takes the
      rest of the line. */
  function Groups(s: string, y: string, s1: string, m: string, s2: string, d: string, s3: string): (r: DateMatch)
    requires s == y + "-" + s1 && s1 == m + "-" + s2 && s2 == d + "-" + s3
    requires y != [] && AllDigits(y) && m != [] && AllDigits(m) && d != [] && AllDigits(d)
    ensures DigitGroups(r) && NoLineTerminator(r.rest) && MatchedText(r) <= s
    ensures |MatchedText(r)| < |s| ==> IsLineTerminator(s[|MatchedText(r)|])
  {
    var n := LineLength(s3);
    var r := DateMatch(y, m, d, s3[..n]);
    MatchedTextPrefix(r, s, s1, s2, s3);
    r
  }

  /** The text a match covers. */
  function MatchedText(m: DateMatch): string {
    m.year + "-" + m.month + "-" + m.day + "-" + m.rest
  }

  predicate NoLineTerminator(s: string) {
    forall j :: 0 <= j < |s| ==> !IsLineTerminator(s[j])
  }

  lemma MatchedTextPrefix(r: DateMatch, s: string, s1: string, s2: string, s3: string)
    requires s == r.year + "-" + s1 && s1 == r.month + "-" + s2 && s2 == r.day + "-" + s3
    requires r.rest <= s3 && (|r.rest| < |s3| ==> IsLineTerminator(s3[|r.rest|]))
    ensures MatchedText(r) <= s
    ensures |MatchedText(r)| < |s| ==> IsLineTerminator(s[|MatchedText(r)|])
  {
    var t := s3[|r.rest|..];
    assert s3 == r.rest + t;
    assert s == MatchedText(r) + t;
    if t != [] {
      assert s[|MatchedText(r)|] == t[0] == s3[|r.rest|];
    }
  }

  /** `fileName.match(/(\d+)-(\d+)-(\d+)-(.*)/)`: the pattern is tried at
      each position from the left; `None` is `null`. */
  function MatchDate(s: string): (r: Option<DateMatch>)
    ensures r.Some? ==> DigitGroups(r.value)
    decreases |s|
  {
    if s == [] then MatchDateAt(s)
    else match MatchDateAt(s)
      case Some(m) => Some(m)
      case None => MatchDate(s[1..])
  }

  /** The pattern matches at position `i` of `s` and at no position before it. */
  predicate FirstMatchAt(s: string, i: int) {
    && 0 <= i <= |s| && MatchDateAt(s[i..]).Some?
    && forall j :: 0 <= j < i ==> MatchDateAt(s[j..]).None?
  }

  /** The match found is the one at the leftmost position where the pattern
      matches; there is none exactly when it matches nowhere. */
  lemma MatchDateLeftmost(s: string)
    ensures MatchDate(s).None? ==> forall i :: 0 <= i <= |s| ==> MatchDateAt(s[i..]).None?
    ensures MatchDate(s).Some? ==> exists i :: FirstMatchAt(s, i) && MatchDateAt(s[i..]) == MatchDate(s)
  {
    MatchDateNowhere(s);
    MatchDateFirst(s);
  }

  lemma {:induction false} MatchDateNowhere(s: string)
    ensures MatchDate(s).None? ==> forall i :: 0 <= i <= |s| ==> MatchDateAt(s[i..]).None?
    decreases |s|
  {
    assert s[0..] == s;
    if s != [] && MatchDateAt(s).None? {
      MatchDateNowhere(s[1..]);
      forall i | 1 <= i <= |s| ensures s[i..] == s[1..][i - 1..] { }
    }
  }

  lemma {:induction false} MatchDateFirst(s: string)
    ensures MatchDate(s).Some? ==> exists i :: FirstMatchAt(s, i) && MatchDateAt(s[i..]) == MatchDate(s)
    decreases |s|
  {
    assert s[0..] == s;
    if s != [] && MatchDateAt(s).None? {
      var r := MatchDate(s[1..]);
      MatchDateFirst(s[1..]);
      if r.Some? {
        var i :| FirstMatchAt(s[1..], i) && MatchDateAt(s[1..][i..]) == r;
        FirstMatchShift(s, i);
      }
    }
  }

  /** A first match in the tail of `s`, when none is at the start of `s`, is
      a first match of `s` one position further on. */
  lemma FirstMatchShift(s: string, i: int)
    requires s != [] && MatchDateAt(s).None? && FirstMatchAt(s[1..], i)
    ensures FirstMatchAt(s, i + 1) && MatchDateAt(s[i + 1..]) == MatchDateAt(s[1..][i..])
  {
    assert s[0..] == s;
    assert s[i + 1..] == s[1..][i..];
    forall j | 1 <= j < i + 1 ensures MatchDateAt(s[j..]).None? {
      assert s[j..] == s[1..][j - 1..];
    }
  }

  /** Three non-empty digit strings, dashes and a rest without line
      terminators are matched exactly so. */
  lemma MatchDateAtOf(y: string, m: string, d: string, rest: string)
    requires y != [] && AllDigits(y) && m != [] && AllDigits(m) && d != [] && AllDigits(d)
    requires NoLineTerminator(rest)
    ensures MatchDateAt(y + "-" + m + "-" + d + "-" + rest) == Some(DateMatch(y, m, d, rest))
  {
    var s2 := d + "-" + rest;
    var s1 := m + "-" + s2;
    assert y + "-" + m + "-" + d + "-" + rest == y + "-" + s1;
    DigitsDashOf(y, s1);
    DigitsDashOf(m, s2);
    DigitsDashOf(d, rest);
    LineLengthOf(rest);
    assert rest[..|rest|] == rest;
  }

  /** Non-empty digits and a dash are taken exactly so. */
  lemma DigitsDashOf(w: string, rest: string)
    requires w != [] && AllDigits(w)
    ensures DigitsDash(w + "-" + rest) == Some((w, rest))
  {
    var s := w + "-" + rest;
    DigitRunOf(w, "-" + rest);
    assert w + ("-" + rest) == s;
    assert s[..|w|] == w && s[|w| + 1..] == rest;
  }

  lemma {:induction false} DigitRunOf(w: string, tail: string)
    requires AllDigits(w) && tail != [] && !IsDigit(tail[0])
    ensures DigitRun(w + tail) == |w|
    decreases |w|
  {
    if w == [] {
      assert w + tail == tail;
    } else {
      assert (w + tail)[0] == w[0] && IsDigit(w[0]);
      assert (w + tail)[1..] == w[1..] + tail;
      DigitRunOf(w[1..], tail);
    }
  }

  lemma {:induction false} LineLengthOf(s: string)
    requires NoLineTerminator(s)
    ensures LineLength(s) == |s|
    decreases |s|
  {
    if s != [] {
      LineLengthOf(s[1..]);
    }
  }

  /** Text without digits in front of the match does not move it. */
  lemma {:induction false} MatchDateSkips(a: string, b: string)
    requires forall j :: 0 <= j < |a| ==> !IsDigit(a[j])
    ensures MatchDate(a + b) == MatchDate(b)
    decreases |a|
  {
    if a == [] {
      assert a + b == b;
    } else {
      assert DigitRun(a + b) == 0 by { assert (a + b)[0] == a[0]; }
      assert (a + b)[1..] == a[1..] + b;
      MatchDateSkips(a[1..], b);
    }
  }

  /** A run of digits that stops inside `u` is not lengthened by what follows. */
  lemma {:induction false} DigitRunStops(u: string, v: string)
    requires DigitRun(u) < |u|
    ensures DigitRun(u + v) == DigitRun(u)
    decreases |u|
  {
    assert (u + v)[0] == u[0];
    if IsDigit(u[0]) {
      assert (u + v)[1..] == u[1..] + v;
      DigitRunStops(u[1..], v);
    }
  }

  /** `\d+-` read from a text ending in `/` ends before the `/`, so it reads
      the same whatever follows. */
  lemma DigitsDashSlash(u: string, v: string)
    requires u != [] && u[|u| - 1] == '/'
    ensures DigitsDash(u).None? ==> DigitsDash(u + v).None?
    ensures DigitsDash(u).Some? ==>
      && DigitsDash(u).value.1 != [] && DigitsDash(u).value.1[|DigitsDash(u).value.1| - 1] == '/'
      && DigitsDash(u + v) == Some((DigitsDash(u).value.0, DigitsDash(u).value.1 + v))
  {
    var k := DigitRun(u);
    assert !IsDigit(u[|u| - 1]);
    assert k < |u|;
    DigitRunStops(u, v);
    assert (u + v)[k] == u[k];
    if DigitsDash(u).Some? {
      assert k + 1 < |u|;
      assert (u + v)[..k] == u[..k];
      assert (u + v)[k + 1..] == u[k + 1..] + v;
    }
  }

  /** The pattern cannot start matching inside a text ending in `/` and
      finish after it. */
  lemma MatchDateAtSlash(u: string, v: string)
    requires u != [] && u[|u| - 1] == '/' && MatchDateAt(u).None?
    ensures MatchDateAt(u + v).None?
  {
    DigitsDashSlash(u, v);
    if DigitsDash(u).Some? {
      var s1 := DigitsDash(u).value.1;
      DigitsDashSlash(s1, v);
      if DigitsDash(s1).Some? {
        DigitsDashSlash(DigitsDash(s1).value.1, v);
      }
    }
  }

  /** A directory path ending in `/` in which the pattern matches nowhere
      does not move the match in the file name after it. */
  lemma {:induction false} MatchDateSkipsDir(a: string, b: string)
    requires (a == [] || a[|a| - 1] == '/') && MatchDate(a).None?
    ensures MatchDate(a + b) == MatchDate(b)
    decreases |a|
  {
    if a == [] {
      assert a + b == b;
    } else {
      assert MatchDateAt(a).None?;
      MatchDateAtSlash(a, b);
      assert (a + b)[1..] == a[1..] + b;
      MatchDateSkipsDir(a[1..], b);
    }
  }

  /** `.replace(/\.(textile|md)/, '')`: the leftmost `.textile` or `.md` is
      removed (at one position only one of the two can match). */
  function RemoveFormat(t: string): string
    decreases |t|
  {
    if t == [] then []
    else if ".textile" <= t then t[|".textile"|..]
    else if ".md" <= t then t[|".md"|..]
    else [t[0]] + RemoveFormat(t[1..])
  }

  /** Text before the first `.` is kept as it is. */
  lemma {:induction false} RemoveFormatSkips(a: string, b: string)
    requires '.' !in a
    ensures RemoveFormat(a + b) == a + RemoveFormat(b)
    decreases |a|
  {
    if a == [] {
      assert a + b == b;
    } else {
      assert (a + b)[0] == a[0] != '.';
      assert (a + b)[1..] == a[1..] + b;
      RemoveFormatSkips(a[1..], b);
      assert [a[0]] + a[1..] == a;
    }
  }

  /** The first format extension is removed, and everything around it kept. */
  lemma RemoveFormatOf(a: string, format: string, c: string)
    requires '.' !in a && (format == "md" || format == "textile")
    ensures RemoveFormat(a + "." + format + c) == a + c
  {
    var t := "." + format + c;
    assert a + "." + format + c == a + t;
    RemoveFormatSkips(a, t);
    if format == "textile" {
      RemoveTextile(c);
    } else {
      RemoveMd(c);
    }
  }

  lemma RemoveTextile(c: string)
    ensures RemoveFormat("." + "textile" + c) == c
  {
    var t := "." + "textile" + c;
    assert ".textile" <= t && t[8..] == c;
  }

  lemma RemoveMd(c: string)
    ensures RemoveFormat("." + "md" + c) == c
  {
    var t := "." + "md" + c;
    assert t[1] == 'm';
    assert ".md" <= t && t[3..] == c;
  }

  /** The date and URL path `parseFileName` gives a post. */
  datatype ParsedName = ParsedName(date: Date, fileName: string)

  /** `parseFileName(fileName)` for a site whose permalink pattern is
      `permalink`: `None` when the name has no `D-D-D-` part (`parts[1]` of
      `null` throws). The date is the three numbers, month counted from 1;
      the URL path is the pattern with its first `:year`, `:month`, `:day`
      and `:title` replaced by the digits as written and the title. */
  function ParseFileName(permalink: string, fileName: string): Option<ParsedName>
  {
    match MatchDate(fileName)
    case None => None
    case Some(m) =>
      var title := RemoveFormat(m.rest);
      Some(ParsedName(
        Date(ParseNat(m.year), ParseNat(m.month), ParseNat(m.day)),
        ReplaceFirst(ReplaceFirst(ReplaceFirst(ReplaceFirst(
          permalink, ":year", m.year), ":month", m.month), ":day", m.day), ":title", title)))
  }

  /** A name parses exactly when the pattern matches at some position of it;
      otherwise `parseFileName` throws. */
  lemma ParseFileNameNone(permalink: string, fileName: string)
    ensures ParseFileName(permalink, fileName).None?
        <==> forall i :: 0 <= i <= |fileName| ==> MatchDateAt(fileName[i..]).None?
  {
    MatchDateLeftmost(fileName);
  }

  /** A post file `dir/Y-M-D-rest` under a directory path in which the
      pattern matches nowhere:
      the date is read from the three numbers and the pattern's tokens are
      filled with them and with the rest, its format extension removed. */
  lemma ParseFileNameOf(permalink: string, dir: string, y: string, m: string, d: string, rest: string)
    requires (dir == [] || dir[|dir| - 1] == '/') && MatchDate(dir).None?
    requires y != [] && AllDigits(y) && m != [] && AllDigits(m) && d != [] && AllDigits(d)
    requires NoLineTerminator(rest)
    ensures ParseFileName(permalink, dir + y + "-" + m + "-" + d + "-" + rest)
         == Some(ParsedName(Date(ParseNat(y), ParseNat(m), ParseNat(d)),
              ReplaceFirst(ReplaceFirst(ReplaceFirst(ReplaceFirst(
                permalink, ":year", y), ":month", m), ":day", d), ":title", RemoveFormat(rest))))
  {
    var b := y + "-" + m + "-" + d + "-" + rest;
    assert dir + y + "-" + m + "-" + d + "-" + rest == dir + b;
    MatchDateSkipsDir(dir, b);
    MatchDateAtOf(y, m, d, rest);
    assert b[0..] == b;
  }

  /** The title part of a post file: the slug, a dot and the format. */
  lemma SlugRest(title: string, format: string)
    requires ValidTitle(title) && (format == "md" || format == "textile")
    ensures '.' !in Slug(title) && NoLineTerminator(Slug(title) + "." + format)
  {
    var slug := Slug(title);
    SlugSpec(title);
    var rest := slug + "." + format;
    forall j | 0 <= j < |rest| ensures !IsLineTerminator(rest[j]) {
      if j < |slug| {
        assert rest[j] == slug[j];
      }
    }
  }

  /** The posts directory under such a directory is one too. */
  lemma PostsDirNoDate(dir: string)
    requires (dir == [] || dir[|dir| - 1] == '/') && MatchDate(dir).None?
    ensures MatchDate(dir + "_posts/").None?
  {
    MatchDateSkipsDir(dir, "_posts/");
    PostsNoDate();
  }

  lemma PostsNoDate()
    ensures MatchDate("_posts/").None?
  {
    MatchDateSkips("_posts/", []);
    assert "_posts/" + [] == "_posts/";
  }

  /** A post file named with the default pattern, in a directory path ending
      in `/` in which the pattern matches nowhere, parses back to its date and to the URL path
      `/Y/M/D/slug`. */
  lemma PostFileNameRoundTrip(dir: string, date: Date, title: string, format: string)
    requires (dir == [] || dir[|dir| - 1] == '/') && MatchDate(dir).None?
    requires ValidTitle(title) && (format == "md" || format == "textile")
    ensures ParseFileName(DefaultPermalink, dir + GetPostFileName(DefaultPermalink, date, title, format))
         == Some(ParsedName(date, "/" + NatToString(date.year) + "/" + DatePad(date.month)
              + "/" + DatePad(date.day) + "/" + Slug(title)))
  {
    var y, m, d := NatToString(date.year), DatePad(date.month), DatePad(date.day);
    var slug := Slug(title);
    var rest := slug + "." + format;
    var prefix := dir + "_posts/";
    assert AllDigits(m) && AllDigits(d) && ParseNat(m) == date.month && ParseNat(d) == date.day by {
      DatePadSpec(date.month);
      DatePadSpec(date.day);
    }
    calc {
      ParseFileName(DefaultPermalink, dir + GetPostFileName(DefaultPermalink, date, title, format));
    == { PostFilePieces(dir, date, title, format); }
      ParseFileName(DefaultPermalink, prefix + y + "-" + m + "-" + d + "-" + rest);
    == { PostsDirNoDate(dir);
         SlugRest(title, format);
         ParseFileNameOf(DefaultPermalink, prefix, y, m, d, rest); }
      Some(ParsedName(Date(ParseNat(y), ParseNat(m), ParseNat(d)),
        ReplaceFirst(ReplaceFirst(ReplaceFirst(ReplaceFirst(
          DefaultPermalink, ":year", y), ":month", m), ":day", d), ":title", RemoveFormat(rest))));
    == { SlugRest(title, format);
         RemoveFormatOf(slug, format, []);
         assert slug + "." + format + [] == rest && slug + [] == slug;
         ParseNatToString(date.year); }
      Some(ParsedName(date,
        ReplaceFirst(ReplaceFirst(ReplaceFirst(ReplaceFirst(
          DefaultPermalink, ":year", y), ":month", m), ":day", d), ":title", slug)));
    == { DefaultPermalinkUrl(y, m, d, slug); }
      Some(ParsedName(date, "/" + y + "/" + m + "/" + d + "/" + slug));
    }
  }

  /** The post file's name in the pieces the parser reads. */
  lemma PostFilePieces(dir: string, date: Date, title: string, format: string)
    ensures dir + GetPostFileName(DefaultPermalink, date, title, format)
         == (dir + "_posts/") + NatToString(date.year) + "-" + DatePad(date.month) + "-" + DatePad(date.day)
            + "-" + (Slug(title) + "." + format)
  {
    var y, m, d := NatToString(date.year), DatePad(date.month), DatePad(date.day);
    calc {
      dir + GetPostFileName(DefaultPermalink, date, title, format);
    == { DefaultPostFileName(date, title, format); }
      dir + ("_posts/" + y + "-" + m + "-" + d + "-" + Slug(title) + "." + format);
    == { PiecesRegroup(dir, y, m, d, Slug(title), format); }
      (dir + "_posts/") + y + "-" + m + "-" + d + "-" + (Slug(title) + "." + format);
    }
  }

  lemma PiecesRegroup(dir: string, y: string, m: string, d: string, slug: string, format: string)
    ensures dir + ("_posts/" + y + "-" + m + "-" + d + "-" + slug + "." + format)
         == (dir + "_posts/") + y + "-" + m + "-" + d + "-" + (slug + "." + format)
  {
  }

  /** The default pattern with all four tokens filled in. */
  lemma DefaultPermalinkUrl(y: string, m: string, d: string, slug: string)
    requires AllDigits(y) && AllDigits(m) && AllDigits(d)
    ensures ReplaceFirst(ReplaceFirst(ReplaceFirst(ReplaceFirst(
              DefaultPermalink, ":year", y), ":month", m), ":day", d), ":title", slug)
         == "/" + y + "/" + m + "/" + d + "/" + slug
  {
    var a := "/" + y + "/" + m + "/" + d + "/";
    calc {
      ReplaceFirst(ReplaceFirst(ReplaceFirst(ReplaceFirst(
        DefaultPermalink, ":year", y), ":month", m), ":day", d), ":title", slug);
    == { DefaultPermalinkDates(y, m, d); }
      ReplaceFirst("/" + y + "/" + m + "/" + d + "/:title", ":title", slug);
    == { TitleSlot(y, m, d); }
      ReplaceFirst(a + ":title" + [], ":title", slug);
    == { NoColonInDigits(y);
         NoColonInDigits(m);
         NoColonInDigits(d);
         ReplaceFirstAt(a, ":title", [], slug); }
      a + slug + [];
    == { UrlRegroup(y, m, d, slug); }
      "/" + y + "/" + m + "/" + d + "/" + slug;
    }
  }

  lemma TitleSlot(y: string, m: string, d: string)
    ensures "/" + y + "/" + m + "/" + d + "/:title" == ("/" + y + "/" + m + "/" + d + "/") + ":title" + []
  {
  }

  lemma UrlRegroup(y: string, m: string, d: string, slug: string)
    ensures ("/" + y + "/" + m + "/" + d + "/") + slug + [] == "/" + y + "/" + m + "/" + d + "/" + slug
  {
  }

  /** The URL of the post created for a two-word title on the first of
      November 2011. */
  lemma AwesomePostUrl(dir: string)
    requires (dir == [] || dir[|dir| - 1] == '/') && MatchDate(dir).None?
    ensures ParseFileName(DefaultPermalink,
              dir + GetPostFileName(DefaultPermalink, Date(2011, 11, 1), "Awesome" + " " + "Post", "md"))
         == Some(ParsedName(Date(2011, 11, 1), "/" + "2011" + "/" + "11" + "/" + "01" + "/" + ("awesome" + "-" + "post")))
  {
    AwesomeTitleValid();
    PostFileNameRoundTrip(dir, Date(2011, 11, 1), "Awesome" + " " + "Post", "md");
    AwesomeUrl();
  }

  lemma AwesomeUrl()
    ensures "/" + NatToString(2011) + "/" + DatePad(11) + "/" + DatePad(1) + "/" + Slug("Awesome" + " " + "Post")
         == "/" + "2011" + "/" + "11" + "/" + "01" + "/" + ("awesome" + "-" + "post")
  {
    Year2011();
    assert DatePad(11) == "11" by {
      assert NatToString(11) == NatToString(1) + [DigitChar(1)];
    }
    assert DatePad(1) == "01";
    AwesomeSlug();
  }


  lemma AwesomeTitleValid()
    ensures ValidTitle("Awesome" + " " + "Post")
  {
  }
}
