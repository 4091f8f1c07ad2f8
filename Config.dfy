/** The configuration defaults applied to a site's parsed `_config.json`. */
module Config {
  import opened Values
  import opened Wrappers

  /** The defaults, in the order the loop visits them. */
  const Defaults: seq<(string, Value)> :=
    [("perPage", VNum(20)), ("port", VNum(4000)), ("output", VStr("_site/"))]

  /** `config[key] = config[key] || value`. */
  function OrDefault(m: map<string, Value>, key: string, value: Value): map<string, Value> {
    m[key := if TruthyAt(m, key) then m[key] else value]
  }

  /** The object after the first `i` rounds of the defaults loop. */
  function FillDefaults(m: map<string, Value>, i: nat): map<string, Value>
    requires i <= |Defaults|
  {
    if i == 0 then m else OrDefault(FillDefaults(m, i - 1), Defaults[i - 1].0, Defaults[i - 1].1)
  }

  /** `url.replace(/\/$/, '')`: one trailing slash removed, if there is one. */
  function StripTrailingSlash(u: string): (r: string)
    ensures u != [] && u[|u| - 1] == '/' ==> r + "/" == u
    ensures (u == [] || u[|u| - 1] != '/') ==> r == u
  {
    if u != [] && u[|u| - 1] == '/' then u[..|u| - 1] else u
  }

  /** `if (config.url) config.url = config.url.replace(...)`: `None` when
      `url` is truthy but not a string, where `replace` is not a function
      and the call throws. */
  function StripUrl(m: map<string, Value>): Option<map<string, Value>> {
    if !TruthyAt(m, "url") then Some(m)
    else match m["url"]
      case VStr(u) => Some(m["url" := VStr(StripTrailingSlash(u))])
      case _ => None
  }

  /** The result of `applyDefaults(config)`, or `None` when it throws. */
  function Applied(m: map<string, Value>): Option<map<string, Value>> {
    StripUrl(FillDefaults(m, |Defaults|))
  }

  /** `applyDefaults(config)`: updates the object in place. `ok` is false
      when the `url` step throws; the defaults are in place by then. */
  method ApplyDefaults(config: JsObject) returns (ok: bool)
    modifies config
    ensures ok <==> Applied(old(config.props)).Some?
    ensures ok ==> config.props == Applied(old(config.props)).value
    ensures !ok ==> config.props == FillDefaults(old(config.props), |Defaults|)
  {
    var i := 0;
    while i < |Defaults|
      invariant 0 <= i <= |Defaults|
      invariant config.props == FillDefaults(old(config.props), i)
    {
      var key, value := Defaults[i].0, Defaults[i].1;
      config.props := config.props[key := if key in config.props && Truthy(config.props[key]) then config.props[key] else value];
      i := i + 1;
    }
    if "url" in config.props && Truthy(config.props["url"]) {
      match config.props["url"]
      case VStr(u) =>
        config.props := config.props["url" := VStr(StripTrailingSlash(u))];
      case _ =>
        return false;
    }
    return true;
  }

  /** The default for `key`, if it has one. */
  function DefaultFor(key: string): Option<Value> {
    if key == "perPage" then Some(VNum(20))
    else if key == "port" then Some(VNum(4000))
    else if key == "output" then Some(VStr("_site/"))
    else None
  }

  lemma FillDefaultsUnfold(m: map<string, Value>)
    ensures FillDefaults(m, |Defaults|)
         == OrDefault(OrDefault(OrDefault(m, "perPage", VNum(20)), "port", VNum(4000)), "output", VStr("_site/"))
  {
    assert |Defaults| == 3;
    assert Defaults[0] == ("perPage", VNum(20));
    assert Defaults[1] == ("port", VNum(4000));
    assert Defaults[2] == ("output", VStr("_site/"));
    assert FillDefaults(m, 1) == OrDefault(m, "perPage", VNum(20));
  }

  /** After the loop every default key holds its old value when that was
      truthy and the default otherwise; every other key is as it was. */
  lemma FillDefaultsSpec(m: map<string, Value>, key: string)
    ensures var f := FillDefaults(m, |Defaults|);
      && (DefaultFor(key).Some? ==>
            key in f && f[key] == if TruthyAt(m, key) then m[key] else DefaultFor(key).value)
      && (DefaultFor(key).None? ==> (key in f <==> key in m) && (key in m ==> f[key] == m[key]))
  {
    FillDefaultsUnfold(m);
  }

  /** Every default key ends up truthy, so a second pass changes nothing. */
  lemma FillDefaultsIdempotent(m: map<string, Value>)
    ensures var f := FillDefaults(m, |Defaults|); FillDefaults(f, |Defaults|) == f
  {
    var f := FillDefaults(m, |Defaults|);
    var g := FillDefaults(f, |Defaults|);
    forall key | key in g || key in f ensures key in g && key in f && g[key] == f[key] {
      FillDefaultsSpec(m, key);
      FillDefaultsSpec(f, key);
    }
  }

  /** The whole of `applyDefaults`: it throws exactly when `url` is truthy
      and not a string; otherwise the defaults are filled, a string `url`
      loses one trailing slash and every other key is untouched. */
  lemma AppliedSpec(m: map<string, Value>, key: string)
    ensures Applied(m).None? <==> TruthyAt(m, "url") && !m["url"].VStr?
    ensures Applied(m).Some? ==> var r := Applied(m).value;
      && (DefaultFor(key).Some? ==>
            key in r && r[key] == if TruthyAt(m, key) then m[key] else DefaultFor(key).value)
      && (key == "url" && TruthyAt(m, "url") ==>
            key in r && r[key] == VStr(StripTrailingSlash(m[key].s)))
      && (DefaultFor(key).None? && !(key == "url" && TruthyAt(m, "url")) ==>
            (key in r <==> key in m) && (key in m ==> r[key] == m[key]))
  {
    FillDefaultsSpec(m, key);
    FillDefaultsSpec(m, "url");
  }

  /** The site fixture: the defaults are filled in and the slash at the end
      of the URL is removed. */
  lemma FixtureConfig()
    ensures Applied(map[
      "permalink" := VStr("/:year/:month/:day/:title"),
      "url" := VStr("http://example.com/"),
      "exclude" := VArr([VStr("run\\.js"), VStr("\\.swp")])])
      == Some(map[
      "permalink" := VStr("/:year/:month/:day/:title"),
      "perPage" := VNum(20),
      "url" := VStr("http://example.com"),
      "exclude" := VArr([VStr("run\\.js"), VStr("\\.swp")]),
      "port" := VNum(4000),
      "output" := VStr("_site/")])
  {
    var m := map[
      "permalink" := VStr("/:year/:month/:day/:title"),
      "url" := VStr("http://example.com/"),
      "exclude" := VArr([VStr("run\\.js"), VStr("\\.swp")])];
    FillDefaultsUnfold(m);
    assert "perPage" !in m && "port" !in m && "output" !in m;
    var f := m["perPage" := VNum(20)]["port" := VNum(4000)]["output" := VStr("_site/")];
    assert FillDefaults(m, |Defaults|) == f;
    assert f["url"] == VStr("http://example.com/");
    assert StripTrailingSlash("http://example.com/") == "http://example.com";
    var expected := map[
      "permalink" := VStr("/:year/:month/:day/:title"),
      "perPage" := VNum(20),
      "url" := VStr("http://example.com"),
      "exclude" := VArr([VStr("run\\.js"), VStr("\\.swp")]),
      "port" := VNum(4000),
      "output" := VStr("_site/")];
    assert f["url" := VStr("http://example.com")].Keys == expected.Keys;
    assert f["url" := VStr("http://example.com")] == expected;
    assert StripUrl(f) == Some(expected);
  }
}
