/** `parseMeta`: a document's front matter between `---` markers, decoded
    as YAML, and the body after it; with the `fix` and `clean` helpers. */
module FrontMatter {
  import opened Strings
  import opened Wrappers
  import opened Values

  /** One line of `fix`: a line starting with `- ` is indented by two spaces. */
  function FixLine(line: string): string {
    if "- " <= line then "  " + line else line
  }

  function FixLines(lines: seq<string>): (r: seq<string>)
    ensures |r| == |lines|
    ensures forall k :: 0 <= k < |lines| ==> r[k] == FixLine(lines[k])
  {
    seq(|lines|, k requires 0 <= k < |lines| => FixLine(lines[k]))
  }

  /** `fix(text)`: the text split into lines, list items indented, joined
      again; `None` (`undefined`) for empty text. */
  function Fix(text: string): Option<string> {
    if text == "" then None else Some(Join(FixLines(Split(text, "\n")), "\n"))
  }

  /** The fixed text has exactly the input's lines, each one indented by
      two spaces when it starts with `- ` and unchanged otherwise. */
  lemma FixSpec(text: string)
    requires text != ""
    ensures var lines, fixed := Split(text, "\n"), Split(Fix(text).value, "\n");
      && |fixed| == |lines|
      && forall k :: 0 <= k < |lines| ==>
           fixed[k] == (if "- " <= lines[k] then "  " + lines[k] else lines[k])
  {
    var lines := Split(text, "\n");
    var fixed := FixLines(lines);
    SplitPiecesFree(text, "\n");
    forall k | 0 <= k < |fixed| ensures '\n' !in fixed[k] {
      NewlineFree(lines[k]);
      assert fixed[k] == FixLine(lines[k]);
    }
    SplitJoin(fixed, '\n');
  }

  lemma NewlineFree(line: string)
    requires !Contains(line, "\n")
    ensures '\n' !in line && '\n' !in FixLine(line)
  {
    forall j | 0 <= j < |line| ensures line[j] != '\n' {
      assert OccursAt(line, "\n", j) <==> line[j] == '\n' by {
        assert line[j..j + 1] == [line[j]];
      }
    }
  }

  /** Text with no line starting with `- ` comes back unchanged. */
  lemma FixNoListItems(text: string)
    requires text != ""
    requires forall k :: 0 <= k < |Split(text, "\n")| ==> !("- " <= Split(text, "\n")[k])
    ensures Fix(text) == Some(text)
  {
    var lines := Split(text, "\n");
    assert FixLines(lines) == lines;
    JoinSplit(text, "\n");
  }

  /** `/^"([^"]*)"$/`: a string in double quotes with no double quote inside. */
  predicate IsQuoted(s: string) {
    |s| >= 2 && s[0] == '"' && s[|s| - 1] == '"' && '"' !in s[1..|s| - 1]
  }

  /** One step of `clean`: a quoted string value loses its quotes; any
      other value is kept. */
  function Unquote(v: Value): Value {
    if v.VStr? && IsQuoted(v.s) then VStr(v.s[1..|v.s| - 1]) else v
  }

  /** Quoting a string free of double quotes and cleaning it gives it back,
      and a cleaned value is not cleaned again. */
  lemma UnquoteSpec(t: string, v: Value)
    requires '"' !in t
    ensures Unquote(VStr("\"" + t + "\"")) == VStr(t)
    ensures Unquote(Unquote(v)) == Unquote(v)
  {
    var q := "\"" + t + "\"";
    assert q[1..|q| - 1] == t;
    if v.VStr? && IsQuoted(v.s) {
      var u := v.s[1..|v.s| - 1];
      if |u| >= 2 {
        assert u[0] == v.s[1];
      }
    }
  }

  /** The object `clean` leaves: every value passed through `Unquote`. */
  function CleanAll(m: map<string, Value>): map<string, Value> {
    map k | k in m :: Unquote(m[k])
  }

  /** Cleaning twice is cleaning once. */
  lemma CleanAllIdempotent(m: map<string, Value>)
    ensures CleanAll(CleanAll(m)) == CleanAll(m)
  {
    forall k | k in m ensures Unquote(Unquote(m[k])) == Unquote(m[k]) {
      UnquoteSpec("", m[k]);
    }
  }

  /** `clean(yaml)`: visits every key and strips the quotes from quoted
      string values in place. */
  method Clean(yaml: JsObject)
    modifies yaml
    ensures yaml.props == CleanAll(old(yaml.props))
  {
    var todo := yaml.props.Keys;
    while todo != {}
      invariant todo <= yaml.props.Keys == old(yaml.props).Keys
      invariant forall k :: k in yaml.props ==>
        yaml.props[k] == if k in todo then old(yaml.props)[k] else Unquote(old(yaml.props)[k])
      decreases todo
    {
      var key :| key in todo;
      var v := yaml.props[key];
      if v.VStr? && IsQuoted(v.s) {
        yaml.props := yaml.props[key := VStr(v.s[1..|v.s| - 1])];
      }
      todo := todo - {key};
    }
  }

  /** A document's metadata: the decoded and cleaned front matter, or `''`
      when there is none. */
  datatype Meta = Yaml(fields: map<string, Value>) | NoMeta

  datatype Parsed = Parsed(meta: Meta, body: string)

  /** `parseMeta(file, data)`, with `decode` for the YAML decoder (`None`
      when it throws, where `parseMeta` logs and returns `undefined`). When
      the second `---` chunk is non-empty it is the front matter and the
      body is the chunks after it, rejoined and trimmed; otherwise the whole
      text is the body. */
  function ParseMeta(data: string, decode: string -> Option<map<string, Value>>): Option<Parsed> {
    var chunks := Split(data, "---");
    if |chunks| > 1 && chunks[1] != "" then
      match decode(Fix(chunks[1]).value)
      case None => None
      case Some(yaml) => Some(Parsed(Yaml(CleanAll(yaml)), Trim(Join(chunks[2..], "---"))))
    else
      Some(Parsed(NoMeta, data))
  }

  /** A document without `---` has no front matter and is its own body. */
  lemma ParseMetaNoMarker(data: string, decode: string -> Option<map<string, Value>>)
    requires !Contains(data, "---")
    ensures ParseMeta(data, decode) == Some(Parsed(NoMeta, data))
  {
  }

  /** A front-matter block between two markers: its text, fixed, is what is
      decoded, and the trimmed rest of the document is the body, whatever
      further `---` it contains. */
  lemma ParseMetaOf(yaml: string, body: string, decode: string -> Option<map<string, Value>>)
    requires yaml != "" && !Contains(yaml, "---") && yaml[|yaml| - 1] != '-'
    ensures ParseMeta("---" + yaml + "---" + body, decode)
         == match decode(Fix(yaml).value)
            case None => None
            case Some(m) => Some(Parsed(Yaml(CleanAll(m)), Trim(body)))
  {
    var data := "---" + yaml + "---" + body;
    SplitFrontMatter(yaml, body);
    JoinSplit(body, "---");
    assert Split(data, "---")[2..] == Split(body, "---");
  }

  lemma SplitFrontMatter(yaml: string, body: string)
    requires yaml != "" && !Contains(yaml, "---") && yaml[|yaml| - 1] != '-'
    ensures Split("---" + yaml + "---" + body, "---") == ["", yaml] + Split(body, "---")
  {
    var x := yaml + "---" + body;
    calc {
      Split("---" + yaml + "---" + body, "---");
    == { assert "---" + yaml + "---" + body == "---" + x; }
      Split("---" + x, "---");
    == { OpeningMarker(x); }
      [""] + Split(x, "---");
    == { ClosingMarker(yaml, body); }
      [""] + ([yaml] + Split(body, "---"));
    ==
      ["", yaml] + Split(body, "---");
    }
  }

  lemma OpeningMarker(x: string)
    ensures Split("---" + x, "---") == [""] + Split(x, "---")
  {
    assert IndexOf("---" + x, "---") == 0 by { assert "---" <= "---" + x; }
    assert ("---" + x)[3..] == x;
  }

  /** The first `---` after a block that neither contains one nor ends in
      `-` is the one right after the block. */
  lemma ClosingMarker(yaml: string, body: string)
    requires yaml != "" && !Contains(yaml, "---") && yaml[|yaml| - 1] != '-'
    ensures IndexOf(yaml + "---" + body, "---") == |yaml|
    ensures Split(yaml + "---" + body, "---") == [yaml] + Split(body, "---")
  {
    var x := yaml + "---" + body;
    assert OccursAt(x, "---", |yaml|) by { assert x[|yaml|..|yaml| + 3] == "---"; }
    forall j | 0 <= j < |yaml| ensures !OccursAt(x, "---", j) {
      if j + 3 <= |yaml| {
        assert x[j..j + 3] == yaml[j..j + 3];
        if OccursAt(yaml, "---", j) {
          ContainsAt(yaml, "---", j);
        }
      } else {
        assert x[j..j + 3][|yaml| - 1 - j] == yaml[|yaml| - 1];
      }
    }
    assert x[..|yaml|] == yaml && x[|yaml| + 3..] == body;
  }
}
