/** The command-line helpers that name a new post's file and pick the
    generator and path of a new site. */
module CliTools {
  import opened Strings
  import opened Wrappers

  /** A calendar date as the post tools read it: the full year, the month
      counted from 1 (`getMonth() + 1`) and the day of the month. */
  datatype Date = Date(year: nat, month: nat, day: nat)

  /** `datePad(num)`: a number whose decimal form has one character gets
      a leading zero. */
  function DatePad(n: nat): string {
    var s := NatToString(n);
    if |s| == 1 then "0" + s else s
  }

  lemma NatToStringTwoDigits(n: nat)
    requires 10 <= n < 100
    ensures |NatToString(n)| == 2
  {
    assert NatToString(n) == NatToString(n / 10) + [DigitChar(n % 10)];
  }

  /** The padded number is a decimal string of at least two digits with the
      same value; it starts with `0` exactly for one-digit numbers, and
      months and days come out as exactly two digits. */
  lemma DatePadSpec(n: nat)
    ensures var r := DatePad(n);
      && |r| >= 2 && AllDigits(r)
      && ParseNat(r) == n
      && (r[0] == '0' <==> n < 10)
      && (n < 100 ==> |r| == 2)
  {
    var s := NatToString(n);
    ParseNatToString(n);
    if |s| == 1 {
      ParseNatLeadingZero(s);
    } else if n < 100 {
      NatToStringTwoDigits(n);
    }
  }

  lemma DatePadExamples()
    ensures DatePad(1) == "01" && DatePad(10) == "10"
  {
    assert NatToString(10) == NatToString(1) + [DigitChar(0)];
  }

  predicate IsAsciiLetterOrDigit(c: char) {
    ('a' <= c <= 'z') || ('A' <= c <= 'Z') || IsDigit(c)
  }

  /** The titles the model accepts: ASCII letters and digits separated by
      white space. On these `encodeURI` changes nothing once the white
      space has been replaced. */
  predicate ValidTitle(t: string) {
    forall i :: 0 <= i < |t| ==> IsAsciiLetterOrDigit(t[i]) || IsJsSpace(t[i])
  }

  /** `toLowerCase()` on ASCII text. */
  function LowerAll(t: string): (r: string)
    ensures |r| == |t|
    ensures forall i :: 0 <= i < |t| ==> r[i] == ToLower(t[i])
  {
    seq(|t|, i requires 0 <= i < |t| => ToLower(t[i]))
  }

  /** `.replace(/\s+/g, '-')`: every maximal run of white space becomes one dash. */
  function DashSpaces(s: string): string
    decreases |s|
  {
    if s == [] then []
    else if IsJsSpace(s[0]) then "-" + DashSpaces(TrimStart(s[1..]))
    else [s[0]] + DashSpaces(s[1..])
  }

  /** The title part of a post's file name. */
  function Slug(title: string): string {
    DashSpaces(LowerAll(title))
  }

  /** The text without its dashes. */
  function Undashed(s: string): string {
    if s == [] then [] else (if s[0] == '-' then [] else [s[0]]) + Undashed(s[1..])
  }

  /** The text without its white space. */
  function Unspaced(s: string): string {
    if s == [] then [] else (if IsJsSpace(s[0]) then [] else [s[0]]) + Unspaced(s[1..])
  }

  lemma {:induction false} UnspacedTrimStart(s: string)
    ensures Unspaced(TrimStart(s)) == Unspaced(s)
    decreases |s|
  {
    if |s| > 0 && IsJsSpace(s[0]) {
      UnspacedTrimStart(s[1..]);
    }
  }

  lemma {:induction false} TrimStartChars(s: string)
    ensures forall c :: c in TrimStart(s) ==> c in s
  {
    SuffixChars(s, TrimStart(s));
  }

  lemma SuffixChars<T>(s: seq<T>, t: seq<T>)
    requires |t| <= |s| && t == s[|s| - |t|..]
    ensures forall c :: c in t ==> c in s
  {
    forall c | c in t ensures c in s {
      var k :| 0 <= k < |t| && t[k] == c;
      assert t[k] == s[|s| - |t| + k];
    }
  }

  /** `DashSpaces` writes dashes and the non-space characters of its input. */
  lemma {:induction false} DashSpacesChars(s: string)
    ensures forall i :: 0 <= i < |DashSpaces(s)| ==>
      DashSpaces(s)[i] == '-' || (DashSpaces(s)[i] in s && !IsJsSpace(DashSpaces(s)[i]))
    decreases |s|
  {
    if s != [] {
      if IsJsSpace(s[0]) {
        DashSpacesChars(TrimStart(s[1..]));
        TrimStartChars(s[1..]);
      } else {
        DashSpacesChars(s[1..]);
      }
    }
  }

  /** Dropping the dashes from the result gives the input without its white
      space, for input that has no dashes of its own. */
  lemma {:induction false} DashSpacesUndashed(s: string)
    requires '-' !in s
    ensures Undashed(DashSpaces(s)) == Unspaced(s)
    decreases |s|
  {
    if s != [] {
      if IsJsSpace(s[0]) {
        var t := TrimStart(s[1..]);
        TrimStartChars(s[1..]);
        DashSpacesUndashed(t);
        UnspacedTrimStart(s[1..]);
        assert ("-" + DashSpaces(t))[1..] == DashSpaces(t);
      } else {
        DashSpacesUndashed(s[1..]);
        assert ([s[0]] + DashSpaces(s[1..]))[1..] == DashSpaces(s[1..]);
      }
    }
  }

  /** No two dashes in a row. */
  predicate SingleDashes(r: string) {
    forall i :: 0 <= i < |r| - 1 ==> !(r[i] == '-' && r[i + 1] == '-')
  }

  /** No two dashes in a row, for input that has no dashes of its own. */
  lemma {:induction false} DashSpacesSingleDashes(s: string)
    requires '-' !in s
    ensures SingleDashes(DashSpaces(s))
    decreases |s|
  {
    if s != [] {
      var r := DashSpaces(s);
      if IsJsSpace(s[0]) {
        var t := TrimStart(s[1..]);
        TrimStartChars(s[1..]);
        TrimStartFirst(s[1..]);
        DashSpacesSingleDashes(t);
        var tail := DashSpaces(t);
        if tail != [] {
          assert t != [] && !IsJsSpace(t[0]);
          assert tail[0] == t[0] && t[0] in s;
        }
        SingleDashesPrefix('-', tail);
      } else {
        DashSpacesSingleDashes(s[1..]);
        assert s[0] in s;
        SingleDashesPrefix(s[0], DashSpaces(s[1..]));
      }
    }
  }

  /** One character in front keeps the dashes single when it is not a
      dash or the text does not start with one. */
  lemma SingleDashesPrefix(c: char, tail: string)
    requires SingleDashes(tail)
    requires c != '-' || tail == [] || tail[0] != '-'
    ensures SingleDashes([c] + tail)
  {
    var r := [c] + tail;
    forall i | 0 <= i < |r| - 1 ensures !(r[i] == '-' && r[i + 1] == '-') {
      if i > 0 {
        assert r[i] == tail[i - 1] && r[i + 1] == tail[i];
      }
    }
  }

  /** A slug of a valid title: lower-case letters, digits and single
      dashes; dropping the dashes gives the title's letters and digits,
      lower-cased, in order. */
  lemma SlugSpec(title: string)
    requires ValidTitle(title)
    ensures var r := Slug(title);
      && Undashed(r) == Unspaced(LowerAll(title))
      && (forall i :: 0 <= i < |r| ==> ('a' <= r[i] <= 'z') || IsDigit(r[i]) || r[i] == '-')
      && SingleDashes(r)
  {
    var l := LowerAll(title);
    forall i | 0 <= i < |l| ensures ('a' <= l[i] <= 'z') || IsDigit(l[i]) || IsJsSpace(l[i]) {
      ToLowerSpec(title[i]);
    }
    DashSpacesUndashed(l);
    DashSpacesSingleDashes(l);
    DashSpacesChars(l);
  }

  /** `.replace(/^\//, '')`. */
  function StripLeadingSlash(s: string): string {
    if s != [] && s[0] == '/' then s[1..] else s
  }

  /** `getPostFileName(pf, date, title, format)`: the permalink pattern's
      first `:year`, `:month` and `:day` are filled in, its leading slash is
      dropped and its other slashes become dashes, and then the first
      `:title` becomes the slug and the format's extension. */
  function GetPostFileName(pf: string, date: Date, title: string, format: string): (r: string)
    ensures |r| >= 7 && r[..7] == "_posts/"
  {
    var withYear := ReplaceFirst(pf, ":year", NatToString(date.year));
    var withMonth := ReplaceFirst(withYear, ":month", DatePad(date.month));
    var withDay := ReplaceFirst(withMonth, ":day", DatePad(date.day));
    var flat := ReplaceChar(StripLeadingSlash(withDay), '/', '-');
    "_posts/" + ReplaceFirst(flat, ":title", Slug(title) + "." + format)
  }

  /** The permalink pattern of a new site. */
  const DefaultPermalink: string := "/:year/:month/:day/:title"

  lemma NoColonInDigits(s: string)
    requires AllDigits(s)
    ensures ':' !in s && '/' !in s
  {
    forall k | 0 <= k < |s| ensures s[k] != ':' && s[k] != '/' {
      assert IsDigit(s[k]);
    }
  }

  /** Moves the separator that follows an inserted value in front of the next token. */
  lemma Regroup(a: string, v: string, sep: string, tok: string, rest: string)
    ensures a + v + (sep + tok + rest) == (a + v + sep) + tok + rest
  {
  }

  /** The year token of the default pattern, filled in. */
  lemma YearFilled(y: string)
    requires ':' !in y
    ensures ReplaceFirst(DefaultPermalink, ":year", y) == ("/" + y + "/") + ":month" + "/:day/:title"
  {
    PermalinkShape();
    MonthTailShape();
    ReplaceFirstAt("/", ":year", "/:month/:day/:title", y);
    Regroup("/", y, "/", ":month", "/:day/:title");
  }

  /** The default pattern, cut at its year token. */
  lemma PermalinkShape()
    ensures DefaultPermalink == "/" + ":year" + "/:month/:day/:title"
  {
  }

  /** What follows the year token, cut at the month token. */
  lemma MonthTailShape()
    ensures "/:month/:day/:title" == "/" + ":month" + "/:day/:title"
  {
  }

  /** The month token, once the year is in. */
  lemma MonthFilled(a1: string, m: string)
    requires ':' !in a1
    ensures ReplaceFirst(a1 + ":month" + "/:day/:title", ":month", m) == (a1 + m + "/") + ":day" + "/:title"
  {
    ReplaceFirstAt(a1, ":month", "/:day/:title", m);
    assert "/:day/:title" == "/" + ":day" + "/:title";
    Regroup(a1, m, "/", ":day", "/:title");
  }

  /** The date tokens of the default pattern, filled in. */
  lemma DefaultPermalinkDates(y: string, m: string, d: string)
    requires AllDigits(y) && AllDigits(m)
    ensures ReplaceFirst(ReplaceFirst(ReplaceFirst(DefaultPermalink, ":year", y), ":month", m), ":day", d)
         == "/" + y + "/" + m + "/" + d + "/:title"
  {
    NoColonInDigits(y);
    NoColonInDigits(m);
    var a1 := "/" + y + "/";
    var a2 := a1 + m + "/";
    assert ':' !in a1 && ':' !in a2;
    YearFilled(y);
    MonthFilled(a1, m);
    ReplaceFirstAt(a2, ":day", "/:title", d);
  }

  /** Dropping the leading slash and turning the other slashes into dashes. */
  lemma FlattenDates(y: string, m: string, d: string)
    requires AllDigits(y) && AllDigits(m) && AllDigits(d)
    ensures ReplaceChar(StripLeadingSlash("/" + y + "/" + m + "/" + d + "/:title"), '/', '-')
         == y + "-" + m + "-" + d + "-" + ":title"
  {
    NoColonInDigits(y);
    NoColonInDigits(m);
    NoColonInDigits(d);
    var stripped := y + "/" + m + "/" + d + "/" + ":title";
    assert StripLeadingSlash("/" + y + "/" + m + "/" + d + "/:title") == stripped;
    ReplaceCharAbsent(y, '/', '-');
    ReplaceCharAbsent(m, '/', '-');
    ReplaceCharAbsent(d, '/', '-');
    ReplaceCharAbsent(":title", '/', '-');
    calc {
      ReplaceChar(stripped, '/', '-');
    == { ReplaceCharConcat(y + "/" + m + "/" + d + "/", ":title", '/', '-');
         ReplaceCharConcat(y + "/" + m + "/" + d, "/", '/', '-');
         ReplaceCharConcat(y + "/" + m + "/", d, '/', '-');
         ReplaceCharConcat(y + "/" + m, "/", '/', '-');
         ReplaceCharConcat(y + "/", m, '/', '-');
         ReplaceCharConcat(y, "/", '/', '-'); }
      ReplaceChar(y, '/', '-') + ReplaceChar("/", '/', '-') + ReplaceChar(m, '/', '-')
        + ReplaceChar("/", '/', '-') + ReplaceChar(d, '/', '-') + ReplaceChar("/", '/', '-')
        + ReplaceChar(":title", '/', '-');
    }
    assert ReplaceChar("/", '/', '-') == "-";
  }

  /** With the default permalink the post file is
      `_posts/YYYY-MM-DD-slug.format`. */
  lemma DefaultPostFileName(date: Date, title: string, format: string)
    ensures GetPostFileName(DefaultPermalink, date, title, format)
         == "_posts/" + NatToString(date.year) + "-" + DatePad(date.month) + "-" + DatePad(date.day)
            + "-" + Slug(title) + "." + format
  {
    DatePadSpec(date.month);
    DefaultPermalinkDates(NatToString(date.year), DatePad(date.month), DatePad(date.day));
    PostFileNameOfDatedPattern(DefaultPermalink, date, title, format);
  }

  /** A pattern whose date tokens fill in as `/Y/M/D/:title`. */
  lemma PostFileNameOfDatedPattern(pf: string, date: Date, title: string, format: string)
    requires var y, m, d := NatToString(date.year), DatePad(date.month), DatePad(date.day);
      ReplaceFirst(ReplaceFirst(ReplaceFirst(pf, ":year", y), ":month", m), ":day", d)
        == "/" + y + "/" + m + "/" + d + "/:title"
    ensures GetPostFileName(pf, date, title, format)
         == "_posts/" + NatToString(date.year) + "-" + DatePad(date.month) + "-" + DatePad(date.day)
            + "-" + Slug(title) + "." + format
  {
    var y, m, d := NatToString(date.year), DatePad(date.month), DatePad(date.day);
    var rep := Slug(title) + "." + format;
    var withDay := ReplaceFirst(ReplaceFirst(ReplaceFirst(pf, ":year", y), ":month", m), ":day", d);
    var a3 := y + "-" + m + "-" + d + "-";
    assert AllDigits(m) && AllDigits(d) by {
      DatePadSpec(date.month);
      DatePadSpec(date.day);
    }
    calc {
      GetPostFileName(pf, date, title, format);
    ==
      "_posts/" + ReplaceFirst(ReplaceChar(StripLeadingSlash(withDay), '/', '-'), ":title", rep);
    == { FlattenDates(y, m, d); }
      "_posts/" + ReplaceFirst(y + "-" + m + "-" + d + "-" + ":title", ":title", rep);
    == { assert y + "-" + m + "-" + d + "-" + ":title" == a3 + ":title" + []; }
      "_posts/" + ReplaceFirst(a3 + ":title" + [], ":title", rep);
    == { NoColonInDigits(y);
         NoColonInDigits(m);
         NoColonInDigits(d);
         ReplaceFirstAt(a3, ":title", [], rep); }
      "_posts/" + (a3 + rep + []);
    == { assert a3 + rep + [] == a3 + rep; }
      "_posts/" + (a3 + rep);
    == { FileNameRegroup(y, m, d, Slug(title), format); }
      "_posts/" + y + "-" + m + "-" + d + "-" + Slug(title) + "." + format;
    }
  }

  lemma FileNameRegroup(y: string, m: string, d: string, slug: string, format: string)
    ensures "_posts/" + ((y + "-" + m + "-" + d + "-") + (slug + "." + format))
         == "_posts/" + y + "-" + m + "-" + d + "-" + slug + "." + format
  {
  }

  lemma Year2011()
    ensures NatToString(2011) == "2011"
  {
    Year20();
    assert NatToString(201) == "20" + "1";
    assert NatToString(2011) == "201" + "1";
  }

  lemma Year20()
    ensures NatToString(20) == "20"
  {
    assert NatToString(20) == NatToString(2) + [DigitChar(0)];
  }

  lemma LowerAllConcat(a: string, b: string)
    ensures LowerAll(a + b) == LowerAll(a) + LowerAll(b)
  {
  }

  lemma LowerTitleWords()
    ensures LowerAll("Awesome") == "awesome" && LowerAll("Post") == "post"
  {
  }

  /** The slug of a two-word title. */
  lemma AwesomeSlug()
    ensures Slug("Awesome" + " " + "Post") == "awesome" + "-" + "post"
  {
    LowerTitleWords();
    TwoWordSlug("Awesome", "Post");
  }

  /** Two words joined by one space: the slug is the lower-cased words
      joined by one dash. */
  lemma TwoWordSlug(a: string, b: string)
    requires forall i :: 0 <= i < |LowerAll(a)| ==> !IsJsSpace(LowerAll(a)[i])
    requires forall i :: 0 <= i < |LowerAll(b)| ==> !IsJsSpace(LowerAll(b)[i])
    ensures Slug(a + " " + b) == LowerAll(a) + "-" + LowerAll(b)
  {
    var la, lb := LowerAll(a), LowerAll(b);
    calc {
      Slug(a + " " + b);
    == { LowerSpaceJoin(a, b); }
      DashSpaces(la + (" " + lb));
    == { DashSpacesWord(la, " " + lb); }
      la + DashSpaces(" " + lb);
    == { DashAfterSpace(lb); }
      la + ("-" + lb);
    ==
      la + "-" + lb;
    }
  }

  lemma LowerSpaceJoin(a: string, b: string)
    ensures LowerAll(a + " " + b) == LowerAll(a) + (" " + LowerAll(b))
  {
    LowerAllConcat(a + " ", b);
    LowerAllConcat(a, " ");
    assert LowerAll(" ") == " ";
  }

  /** One space before a word without white space becomes one dash. */
  lemma DashAfterSpace(w: string)
    requires forall i :: 0 <= i < |w| ==> !IsJsSpace(w[i])
    ensures DashSpaces(" " + w) == "-" + w
  {
    assert (" " + w)[1..] == w;
    assert TrimStart(w) == w;
    DashSpacesWord(w, []);
    assert w + [] == w;
  }

  /** The post file for a two-word title on the first of November 2011. */
  lemma AwesomePostFileName()
    ensures GetPostFileName(DefaultPermalink, Date(2011, 11, 1), "Awesome" + " " + "Post", "md")
         == "_posts/" + "2011" + "-" + "11" + "-" + "01" + "-" + ("awesome" + "-" + "post") + "." + "md"
  {
    var y, m, d := NatToString(2011), DatePad(11), DatePad(1);
    calc {
      GetPostFileName(DefaultPermalink, Date(2011, 11, 1), "Awesome" + " " + "Post", "md");
    == { DefaultPostFileName(Date(2011, 11, 1), "Awesome" + " " + "Post", "md"); }
      "_posts/" + y + "-" + m + "-" + d + "-" + Slug("Awesome" + " " + "Post") + "." + "md";
    == { Year2011();
         assert m == "11" by {
           assert NatToString(11) == NatToString(1) + [DigitChar(1)];
         }
         assert d == "01";
         AwesomeSlug(); }
      "_posts/" + "2011" + "-" + "11" + "-" + "01" + "-" + ("awesome" + "-" + "post") + "." + "md";
    }
  }

  /** A word without white space passes through `DashSpaces` unchanged. */
  lemma {:induction false} DashSpacesWord(w: string, rest: string)
    requires forall i :: 0 <= i < |w| ==> !IsJsSpace(w[i])
    ensures DashSpaces(w + rest) == w + DashSpaces(rest)
    decreases |w|
  {
    if w != [] {
      assert (w + rest)[0] == w[0];
      assert (w + rest)[1..] == w[1..] + rest;
      DashSpacesWord(w[1..], rest);
    } else {
      assert w + rest == rest;
    }
  }

  /** The generator and path chosen by `makeSite(args)`: one argument is
      the path for the default generator; otherwise the first two are the
      generator and the path. A missing argument is `undefined` (`None`). */
  function MakeSiteArgs(args: seq<string>): (r: (Option<string>, Option<string>))
    ensures |args| >= 1 ==> r.1 == Some(args[if |args| == 1 then 0 else 1])
    ensures |args| >= 2 ==> r.0 == Some(args[0])
    ensures |args| == 1 ==> r.0 == Some("default")
    ensures |args| == 0 ==> r.0 == None && r.1 == None
  {
    if |args| == 1 then (Some("default"), Some(args[0]))
    else (if |args| >= 1 then Some(args[0]) else None, if |args| >= 2 then Some(args[1]) else None)
  }
}
