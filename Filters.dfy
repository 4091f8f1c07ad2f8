/** The built-in pre-render filter: liquid-style highlight directives
    become prettyprint `<pre>` tags. */
module Filters {
  import opened Strings
  import opened Wrappers

  const OpenPrefix: string := "{% highlight "
  const OpenSuffix: string := " %}"
  const EndTag: string := "{% endhighlight %}"
  const EndHtml: string := "</pre>"

  /** The tag written for a highlight directive naming language `lang`. */
  function OpenHtml(lang: string): string {
    "<pre class=\"prettyprint lang-" + lang + "\">"
  }

  /** Length of the longest prefix of `s` without a space: what the greedy
      `[^ ]*` takes. */
  function NonSpaceRun(s: string): (k: nat)
    ensures k <= |s|
    ensures forall i :: 0 <= i < k ==> s[i] != ' '
    ensures k < |s| ==> s[k] == ' '
  {
    if s == [] || s[0] == ' ' then 0 else 1 + NonSpaceRun(s[1..])
  }

  /** The match of `{% highlight ([^ ]*) %}` at the start of `s`, if any:
      the captured language and the length of the match. A shorter capture
      than the greedy one is always followed by a non-space, so the greedy
      capture is the only candidate. */
  function OpenDirectiveAt(s: string): Option<(string, nat)> {
    if !(OpenPrefix <= s) then None
    else
      var rest := s[|OpenPrefix|..];
      var k := NonSpaceRun(rest);
      if OpenSuffix <= rest[k..] then Some((rest[..k], |OpenPrefix| + k + |OpenSuffix|))
      else None
  }

  /** `data.replace(/{% highlight ([^ ]*) %}/g, '<pre class="prettyprint lang-$1">')`:
      the text is scanned left to right, each match is replaced and the
      scan resumes after it. */
  function ReplaceOpenDirectives(s: string): string
    decreases |s|
  {
    if s == [] then []
    else match OpenDirectiveAt(s)
      case Some((lang, n)) => OpenHtml(lang) + ReplaceOpenDirectives(s[n..])
      case None => [s[0]] + ReplaceOpenDirectives(s[1..])
  }

  /** `highlight(data)`: the opening directives first, then every
      `{% endhighlight %}`. */
  function Highlight(data: string): string {
    ReplaceAll(ReplaceOpenDirectives(data), EndTag, EndHtml)
  }

  /** Text before a `{` passes through the opening-directive scan as it is. */
  lemma {:induction false} OpenScanSkips(a: string, b: string)
    requires '{' !in a
    ensures ReplaceOpenDirectives(a + b) == a + ReplaceOpenDirectives(b)
    decreases |a|
  {
    if a == [] {
      assert a + b == b;
    } else {
      OpenScanStep(a + b);
      assert (a + b)[1..] == a[1..] + b;
      OpenScanSkips(a[1..], b);
      ConsThen(a, ReplaceOpenDirectives(b));
    }
  }

  /** A character other than `{` is copied by the scan, which moves on. */
  lemma OpenScanStep(s: string)
    requires s != [] && s[0] != '{'
    ensures ReplaceOpenDirectives(s) == [s[0]] + ReplaceOpenDirectives(s[1..])
  {
    assert s[0] != OpenPrefix[0];
    OpenScanNone(s);
  }

  /** Where no directive starts, the scan copies one character and moves on. */
  lemma OpenScanNone(s: string)
    requires s != [] && !(OpenPrefix <= s)
    ensures ReplaceOpenDirectives(s) == [s[0]] + ReplaceOpenDirectives(s[1..])
  {
    assert OpenDirectiveAt(s) == None;
  }

  /** A directive with a space-free language becomes the opening `<pre>` tag. */
  lemma OpenDirectiveReplaced(lang: string, rest: string)
    requires ' ' !in lang
    ensures ReplaceOpenDirectives(OpenPrefix + lang + OpenSuffix + rest)
         == OpenHtml(lang) + ReplaceOpenDirectives(rest)
  {
    var s := OpenPrefix + lang + OpenSuffix + rest;
    assert OpenPrefix <= s;
    var tail := s[|OpenPrefix|..];
    assert tail == lang + (OpenSuffix + rest);
    NonSpaceRunOf(lang, OpenSuffix + rest);
    assert tail[|lang|..] == OpenSuffix + rest;
    assert OpenDirectiveAt(s) == Some((lang, |OpenPrefix| + |lang| + |OpenSuffix|));
    assert s[|OpenPrefix| + |lang| + |OpenSuffix|..] == rest;
  }

  lemma {:induction false} NonSpaceRunOf(a: string, b: string)
    requires ' ' !in a && |b| > 0 && b[0] == ' '
    ensures NonSpaceRun(a + b) == |a|
    decreases |a|
  {
    if a == [] {
      assert a + b == b;
    } else {
      assert (a + b)[0] == a[0];
      assert (a + b)[1..] == a[1..] + b;
      NonSpaceRunOf(a[1..], b);
    }
  }

  /** Text without `{` has no opening directive. */
  lemma {:induction false} OpenScanIdentity(s: string)
    requires '{' !in s
    ensures ReplaceOpenDirectives(s) == s
  {
    OpenScanSkips(s, []);
    assert s + [] == s;
  }

  /** Text before a `{` passes through the global replacement as it is. */
  lemma {:induction false} ReplaceAllSkips(a: string, b: string, pat: string, rep: string)
    requires |pat| > 0 && pat[0] !in a
    ensures ReplaceAll(a + b, pat, rep) == a + ReplaceAll(b, pat, rep)
    decreases |a|
  {
    if a != [] {
      var s := a + b;
      if |s| >= |pat| {
        assert s[0] == a[0];
        assert !(pat <= s);
      }
      assert s[1..] == a[1..] + b;
      ReplaceAllSkips(a[1..], b, pat, rep);
    } else {
      assert a + b == b;
    }
  }

  /** A literal occurrence, after text free of its first character, is replaced. */
  lemma ReplaceAllAt(a: string, pat: string, c: string, rep: string)
    requires |pat| > 0 && pat[0] !in a
    ensures ReplaceAll(a + pat + c, pat, rep) == a + rep + ReplaceAll(c, pat, rep)
  {
    assert a + pat + c == a + (pat + c);
    ReplaceAllSkips(a, pat + c, pat, rep);
    assert pat <= pat + c;
    assert (pat + c)[|pat|..] == c;
  }

  /** Text containing no `{%` is left unchanged. */
  lemma HighlightIdentity(data: string)
    requires !Contains(data, "{%")
    ensures Highlight(data) == data
  {
    OpenScanNoDirective(data);
    assert "{%" <= EndTag;
    PrefixAbsent(data, "{%", EndTag);
    ReplaceAllAbsent(data, EndTag, EndHtml);
  }

  /** A text without `pre` has no occurrence of any `pat` that starts with `pre`. */
  lemma PrefixAbsent(s: string, pre: string, pat: string)
    requires pre <= pat && !Contains(s, pre)
    ensures !Contains(s, pat)
  {
    forall j | 0 <= j && j + |pat| <= |s| ensures !OccursAt(s, pat, j) {
      assert !OccursAt(s, pre, j);
      assert s[j..j + |pat|][..|pre|] == s[j..j + |pre|];
    }
  }

  /** Without `{%` the opening-directive scan never matches. */
  lemma {:induction false} OpenScanNoDirective(s: string)
    requires !Contains(s, "{%")
    ensures ReplaceOpenDirectives(s) == s
    decreases |s|
  {
    if s != [] {
      assert !OccursAt(s, "{%", 0);
      if |s| >= |OpenPrefix| {
        assert s[..|OpenPrefix|][..2] == s[0..2];
      }
      assert OpenDirectiveAt(s) == None;
      assert !Contains(s[1..], "{%") by {
        forall j | 0 <= j ensures !OccursAt(s[1..], "{%", j) {
          OccursAtTail(s, "{%", j);
        }
      }
      OpenScanNoDirective(s[1..]);
    }
  }

  /** A whole highlight block around code without `{` becomes a `<pre>`
      element around the same code. */
  lemma HighlightBlock(lang: string, code: string)
    requires ' ' !in lang && '{' !in lang && '{' !in code
    ensures Highlight(OpenPrefix + lang + OpenSuffix + code + EndTag)
         == OpenHtml(lang) + code + EndHtml
  {
    var tail := code + EndTag;
    var input := OpenPrefix + lang + OpenSuffix + tail;
    assert OpenPrefix + lang + OpenSuffix + code + EndTag == input;
    var head := OpenHtml(lang) + code;
    calc {
      ReplaceOpenDirectives(input);
    == { OpenDirectiveReplaced(lang, tail); }
      OpenHtml(lang) + ReplaceOpenDirectives(tail);
    == { OpenScanSkips(code, EndTag); }
      OpenHtml(lang) + (code + ReplaceOpenDirectives(EndTag));
    == { OpenDirectiveAtEnd(); }
      OpenHtml(lang) + (code + EndTag);
    == 
      head + EndTag + [];
    }
    OpenHtmlNoBrace(lang);
    ReplaceAllAt(head, EndTag, [], EndHtml);
  }

  lemma OpenHtmlNoBrace(lang: string)
    requires '{' !in lang
    ensures '{' !in OpenHtml(lang)
  {
  }

  /** The closing directive is not an opening one. */
  lemma OpenDirectiveAtEnd()
    ensures ReplaceOpenDirectives(EndTag) == EndTag
  {
    var t := EndTag;
    EndTagNoOpen();
    OpenScanNone(t);
    EndTagTail();
    OpenScanIdentity(t[1..]);
    ConsThen(t, []);
    assert t + [] == t;
  }

  /** `{% endhighlight %}` does not start with `{% highlight `. */
  lemma EndTagNoOpen()
    ensures !(OpenPrefix <= EndTag)
  {
    assert EndTag[3] != OpenPrefix[3];
  }

  /** `{% endhighlight %}` has no `{` after its first character. */
  lemma EndTagTail()
    ensures '{' !in EndTag[1..]
  {
    assert EndTag[1..] == "% endhighlight %}";
  }

  /** The highlight block of a JavaScript statement, written as the
      concatenation of its lines. */
  lemma HighlightJavascriptBlock()
    ensures Highlight("{% highlight javascript %}\n" + "var a = 1;\n" + "{% endhighlight %}")
         == "<pre class=\"prettyprint lang-javascript\">\n" + "var a = 1;\n" + "</pre>"
  {
    var lang, code := "javascript", "\nvar a = 1;\n";
    JavascriptInput(lang, code);
    JavascriptChars(lang, code);
    JavascriptOutput(lang, code);
    HighlightBlock(lang, code);
  }

  lemma JavascriptInput(lang: string, code: string)
    requires lang == "javascript" && code == "\nvar a = 1;\n"
    ensures "{% highlight javascript %}\n" + "var a = 1;\n" + "{% endhighlight %}"
         == OpenPrefix + lang + OpenSuffix + code + EndTag
  {
    assert "{% highlight javascript %}\n" == OpenPrefix + lang + OpenSuffix + "\n";
    assert "\n" + "var a = 1;\n" == code;
    Regroup4(OpenPrefix + lang + OpenSuffix, "\n", "var a = 1;\n", EndTag);
  }

  lemma Regroup4(a: string, b: string, c: string, d: string)
    ensures a + b + c + d == a + (b + c) + d
  {
  }

  lemma JavascriptChars(lang: string, code: string)
    requires lang == "javascript" && code == "\nvar a = 1;\n"
    ensures ' ' !in lang && '{' !in lang && '{' !in code
  {
  }

  lemma JavascriptOutput(lang: string, code: string)
    requires lang == "javascript" && code == "\nvar a = 1;\n"
    ensures "<pre class=\"prettyprint lang-javascript\">\n" + "var a = 1;\n" + "</pre>"
         == OpenHtml(lang) + code + EndHtml
  {
  }
}
