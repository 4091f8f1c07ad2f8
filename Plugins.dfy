/** The site builder's plugin maps: the user helper, filter and post-filter
    objects that `loadPlugin` writes into, the template locals that
    `applyHelpers` fills, and the filter chains of `applyFilters` and
    `applyPostFilters`. Plugin functions are opaque names. */
module Plugins {
  import opened Wrappers
  import opened Values
  import Filters
  import Strings

  /** A plugin function, known by name; `Bound(f)` is `this.bind(f)`. */
  datatype Fn = Fn(name: string) | Bound(f: Fn)

  /** A JavaScript object used as a dictionary: its own keys and values in
      insertion order. */
  type Dict<V> = seq<(string, V)>

  function Keys<V>(d: Dict<V>): (r: seq<string>)
    ensures |r| == |d| && forall i :: 0 <= i < |d| ==> r[i] == d[i].0
  {
    seq(|d|, i requires 0 <= i < |d| => d[i].0)
  }

  /** An object never holds a key twice. */
  predicate UniqueKeys<V>(d: Dict<V>) {
    forall i, j :: 0 <= i < j < |d| ==> d[i].0 != d[j].0
  }

  /** `d[k]`: the value under `k`, `None` for `undefined`. */
  function Lookup<V>(d: Dict<V>, k: string): (r: Option<V>)
    ensures r.Some? <==> k in Keys(d)
  {
    if d == [] then None
    else if d[0].0 == k then Some(d[0].1)
    else
      assert Keys(d) == [d[0].0] + Keys(d[1..]);
      Lookup(d[1..], k)
  }

  /** `d[k] = v`: an existing key keeps its place and takes the new value; a
      new key goes at the end. Every other key keeps its value. */
  function Put<V>(d: Dict<V>, k: string, v: V): (r: Dict<V>)
    ensures Lookup(r, k) == Some(v)
    ensures forall j :: j != k ==> Lookup(r, j) == Lookup(d, j)
    ensures Keys(r) == if k in Keys(d) then Keys(d) else Keys(d) + [k]
    ensures UniqueKeys(d) ==> UniqueKeys(r)
  {
    if d == [] then [(k, v)]
    else
      assert d == [d[0]] + d[1..];
      if d[0].0 == k then
        PutFront(d[0], d[1..], v);
        [(k, v)] + d[1..]
      else
        var rest := Put(d[1..], k, v);
        PutBehind(d[0], d[1..], rest, k, v);
        [d[0]] + rest
  }

  /** What `d[k] = v` promises of the object `r` it leaves. */
  ghost predicate Updated<V>(d: Dict<V>, k: string, v: V, r: Dict<V>) {
    && Lookup(r, k) == Some(v)
    && (forall j :: j != k ==> Lookup(r, j) == Lookup(d, j))
    && Keys(r) == (if k in Keys(d) then Keys(d) else Keys(d) + [k])
    && (UniqueKeys(d) ==> UniqueKeys(r))
  }

  lemma PutFront<V>(x: (string, V), tail: Dict<V>, v: V)
    ensures Updated([x] + tail, x.0, v, [(x.0, v)] + tail)
  {
    ConsKeys(x, tail);
    ConsKeys((x.0, v), tail);
    ConsLookup(x, tail);
    ConsLookup((x.0, v), tail);
    UniqueCons(x, tail);
    UniqueCons((x.0, v), tail);
  }

  lemma PutBehind<V>(x: (string, V), tail: Dict<V>, rest: Dict<V>, k: string, v: V)
    requires x.0 != k && Updated(tail, k, v, rest)
    ensures Updated([x] + tail, k, v, [x] + rest)
  {
    ConsLookup(x, tail);
    ConsLookup(x, rest);
    BehindKeys(x, tail, rest, k);
    UniqueCons(x, tail);
    UniqueCons(x, rest);
  }

  lemma BehindKeys<V>(x: (string, V), tail: Dict<V>, rest: Dict<V>, k: string)
    requires x.0 != k && Keys(rest) == if k in Keys(tail) then Keys(tail) else Keys(tail) + [k]
    ensures Keys([x] + rest) == if k in Keys([x] + tail) then Keys([x] + tail) else Keys([x] + tail) + [k]
  {
    ConsKeys(x, tail);
    ConsKeys(x, rest);
    ConsSnoc(x.0, Keys(tail), k);
  }

  /** An object with one more entry in front. */
  lemma ConsKeys<V>(x: (string, V), d: Dict<V>)
    ensures Keys([x] + d) == [x.0] + Keys(d)
  {
  }

  lemma ConsLookup<V>(x: (string, V), d: Dict<V>)
    ensures forall j :: Lookup([x] + d, j) == if x.0 == j then Some(x.1) else Lookup(d, j)
  {
    assert ([x] + d)[1..] == d;
  }

  lemma ConsSnoc<T>(a: T, m: seq<T>, b: T)
    ensures [a] + (m + [b]) == ([a] + m) + [b]
  {
  }

  lemma UniqueCons<V>(x: (string, V), d: Dict<V>)
    ensures UniqueKeys([x] + d) <==> x.0 !in Keys(d) && UniqueKeys(d)
  {
    var c := [x] + d;
    if UniqueKeys(c) {
      forall i, j | 0 <= i < j < |d| ensures d[i].0 != d[j].0 {
        assert c[i + 1] == d[i] && c[j + 1] == d[j];
      }
      forall i | 0 <= i < |d| ensures Keys(d)[i] != x.0 {
        assert c[0] == x && c[i + 1] == d[i];
      }
    }
    if x.0 !in Keys(d) && UniqueKeys(d) {
      forall i, j | 0 <= i < j < |c| ensures c[i].0 != c[j].0 {
        assert c[j] == d[j - 1] && Keys(d)[j - 1] == d[j - 1].0;
        if i > 0 {
          assert c[i] == d[i - 1];
        }
      }
    }
  }

  /** `for (key in src) d[key] = wrap(src[key])`: the entries of `src`
      written into `d` in order. */
  function PutAll<V>(d: Dict<V>, src: Dict<Fn>, wrap: Fn -> V): Dict<V> {
    if src == [] then d
    else
      var n := |src| - 1;
      Put(PutAll(d, src[..n], wrap), src[n].0, wrap(src[n].1))
  }

  /** After the copy, each key of `src` holds its (wrapped) value from
      `src`, and every other key keeps its value from `d`. */
  lemma {:induction false} PutAllLookup<V>(d: Dict<V>, src: Dict<Fn>, wrap: Fn -> V, k: string)
    requires UniqueKeys(src)
    ensures Lookup(PutAll(d, src, wrap), k)
         == match Lookup(src, k)
            case Some(f) => Some(wrap(f))
            case None => Lookup(d, k)
    decreases |src|
  {
    if src != [] {
      var n := |src| - 1;
      var front := src[..n];
      assert src == front + [src[n]];
      assert UniqueKeys(front);
      PutAllLookup(d, front, wrap, k);
      LookupAppend(front, src[n], k);
      if src[n].0 == k {
        assert k !in Keys(front);
      }
    }
  }

  lemma {:induction false} LookupAppend<V>(d: Dict<V>, x: (string, V), k: string)
    ensures Lookup(d + [x], k)
         == if Lookup(d, k).Some? then Lookup(d, k) else if x.0 == k then Some(x.1) else None
    decreases |d|
  {
    if d != [] {
      assert (d + [x])[1..] == d[1..] + [x];
      LookupAppend(d[1..], x, k);
    }
  }

  /** Copying keeps the keys of an object unique. */
  lemma {:induction false} PutAllUnique<V>(d: Dict<V>, src: Dict<Fn>, wrap: Fn -> V)
    requires UniqueKeys(d)
    ensures UniqueKeys(PutAll(d, src, wrap))
    decreases |src|
  {
    if src != [] {
      PutAllUnique(d, src[..|src| - 1], wrap);
    }
  }

  lemma PutAllStep<V>(d: Dict<V>, src: Dict<Fn>, wrap: Fn -> V, i: nat)
    requires i < |src|
    ensures PutAll(d, src[..i + 1], wrap) == Put(PutAll(d, src[..i], wrap), src[i].0, wrap(src[i].1))
  {
    assert src[..i + 1][..i] == src[..i];
  }

  /** A plugin module's `helpers`, `filters` and `postFilters` objects (an
      absent one is empty). */
  datatype Plugin = Plugin(helpers: Dict<Fn>, filters: Dict<Fn>, postFilters: Dict<Fn>)

  /** The module-level `userHelpers`, `userFilters` and `userPostFilters`. */
  class Registry {
    var helpers: Dict<Fn>
    var filters: Dict<Fn>
    var postFilters: Dict<Fn>

    constructor (helpers: Dict<Fn>, filters: Dict<Fn>, postFilters: Dict<Fn>)
      ensures this.helpers == helpers && this.filters == filters && this.postFilters == postFilters
    {
      this.helpers := helpers;
      this.filters := filters;
      this.postFilters := postFilters;
    }

    /** `loadPlugin(name, plugin)`: a missing plugin changes nothing;
        otherwise each of the plugin's three objects is copied, bound, into
        the matching user object. */
    method LoadPlugin(plugin: Option<Plugin>)
      modifies this
      ensures plugin.None? ==>
        helpers == old(helpers) && filters == old(filters) && postFilters == old(postFilters)
      ensures plugin.Some? ==>
        && helpers == PutAll(old(helpers), plugin.value.helpers, f => Bound(f))
        && filters == PutAll(old(filters), plugin.value.filters, f => Bound(f))
        && postFilters == PutAll(old(postFilters), plugin.value.postFilters, f => Bound(f))
    {
      if plugin.None? {
        return;
      }
      var p := plugin.value;
      helpers := CopyBound(helpers, p.helpers);
      filters := CopyBound(filters, p.filters);
      postFilters := CopyBound(postFilters, p.postFilters);
    }
  }

  /** One of `loadPlugin`'s loops: writes every entry of `src`, bound, into `d`. */
  method CopyBound(d: Dict<Fn>, src: Dict<Fn>) returns (r: Dict<Fn>)
    ensures r == PutAll(d, src, f => Bound(f))
  {
    r := d;
    for i := 0 to |src|
      invariant r == PutAll(d, src[..i], f => Bound(f))
    {
      PutAllStep(d, src, f => Bound(f), i);
      r := Put(r, src[i].0, Bound(src[i].1));
    }
    assert src[..|src|] == src;
  }

  /** A plugin's entry overrides the user entry of the same key; the other
      user entries are untouched. */
  lemma LoadPluginOverrides(user: Dict<Fn>, pluginPart: Dict<Fn>, k: string)
    requires UniqueKeys(pluginPart)
    ensures Lookup(PutAll(user, pluginPart, f => Bound(f)), k)
         == if Lookup(pluginPart, k).Some? then Some(Bound(Lookup(pluginPart, k).value))
            else Lookup(user, k)
  {
    PutAllLookup(user, pluginPart, f => Bound(f), k);
  }

  /** A value in the object handed to a template: plain data, a bound
      helper, the `include` function, the builder itself (`site`), or the
      result of calling a `paginate` helper on the paginator. */
  datatype Local = Data(v: Value) | Helper(f: Fn) | Include | Site | Paginated(f: Fn, arg: Local)

  /** Functions and objects are truthy; data follows `Truthy`. */
  predicate LocalTruthy(l: Local) {
    match l
    case Data(v) => Truthy(v)
    case _ => true
  }

  predicate TruthyLocal(d: Dict<Local>, k: string) {
    var l := Lookup(d, k);
    l.Some? && LocalTruthy(l.value)
  }

  /** The object once helpers, user helpers and `include` are written. */
  function WithHelpers(obj: Dict<Local>, builtins: Dict<Fn>, user: Dict<Fn>): Dict<Local> {
    Put(PutAll(PutAll(obj, builtins, f => Helper(Bound(f))), user, f => Helper(Bound(f))), "include", Include)
  }

  /** What `applyHelpers` leaves: `None` when it throws, which happens when
      a truthy `paginate` that is not a helper function is called. */
  function Helped(obj: Dict<Local>, builtins: Dict<Fn>, user: Dict<Fn>): Option<Dict<Local>> {
    var m := WithHelpers(obj, builtins, user);
    if TruthyLocal(m, "paginate") && TruthyLocal(m, "paginator") then
      match Lookup(m, "paginate").value
      case Helper(f) => Some(Put(Put(m, "paginate", Paginated(f, Lookup(m, "paginator").value)), "site", Site))
      case _ => None
    else
      Some(Put(m, "site", Site))
  }

  /** The object passed to a template. */
  class Locals {
    var props: Dict<Local>

    constructor (props: Dict<Local>)
      ensures this.props == props
    {
      this.props := props;
    }
  }

  /** `applyHelpers(obj)`: writes every built-in helper, then every user
      helper, then `include`; calls `paginate` on the paginator when both
      are truthy; then writes `site`. When it throws, `ok` is false and the
      object keeps what was written before the call. */
  method ApplyHelpers(obj: Locals, builtins: Dict<Fn>, user: Dict<Fn>) returns (ok: bool)
    modifies obj
    ensures ok <==> Helped(old(obj.props), builtins, user).Some?
    ensures ok ==> obj.props == Helped(old(obj.props), builtins, user).value
    ensures !ok ==> obj.props == WithHelpers(old(obj.props), builtins, user)
  {
    ghost var start := obj.props;
    var wrap := f => Helper(Bound(f));
    for i := 0 to |builtins|
      invariant obj.props == PutAll(start, builtins[..i], wrap)
    {
      PutAllStep(start, builtins, wrap, i);
      obj.props := Put(obj.props, builtins[i].0, Helper(Bound(builtins[i].1)));
    }
    assert builtins[..|builtins|] == builtins;
    ghost var merged := obj.props;
    for i := 0 to |user|
      invariant obj.props == PutAll(merged, user[..i], wrap)
    {
      PutAllStep(merged, user, wrap, i);
      obj.props := Put(obj.props, user[i].0, Helper(Bound(user[i].1)));
    }
    assert user[..|user|] == user;
    obj.props := Put(obj.props, "include", Include);
    if TruthyLocal(obj.props, "paginate") && TruthyLocal(obj.props, "paginator") {
      var paginate := Lookup(obj.props, "paginate").value;
      if !paginate.Helper? {
        return false;
      }
      obj.props := Put(obj.props, "paginate", Paginated(paginate.f, Lookup(obj.props, "paginator").value));
    }
    obj.props := Put(obj.props, "site", Site);
    ok := true;
  }

  /** In the object `applyHelpers` returns, `site` and `include` are the
      builder's own, a user helper wins over a built-in of the same name,
      and a key neither defines keeps the caller's value. */
  lemma HelpedLookup(obj: Dict<Local>, builtins: Dict<Fn>, user: Dict<Fn>, k: string)
    requires UniqueKeys(builtins) && UniqueKeys(user)
    requires Helped(obj, builtins, user).Some?
    ensures var r := Helped(obj, builtins, user).value;
      && Lookup(r, "site") == Some(Site)
      && Lookup(r, "include") == Some(Include)
      && (k != "site" && k != "include" && k != "paginate" ==>
            Lookup(r, k) == if Lookup(user, k).Some? then Some(Helper(Bound(Lookup(user, k).value)))
                            else if Lookup(builtins, k).Some? then Some(Helper(Bound(Lookup(builtins, k).value)))
                            else Lookup(obj, k))
  {
    var m := WithHelpers(obj, builtins, user);
    WithHelpersLookup(obj, builtins, user, k);
    if TruthyLocal(m, "paginate") && TruthyLocal(m, "paginator") {
      var p := Paginated(Lookup(m, "paginate").value.f, Lookup(m, "paginator").value);
      SiteLast(Put(m, "paginate", p), m, "paginate", p, k);
    } else {
      SiteLast(m, m, "paginate", Site, k);
    }
  }

  /** The last two writes of `applyHelpers`: `site`, after an optional
      write of some other key. */
  lemma SiteLast(m': Dict<Local>, m: Dict<Local>, key: string, p: Local, k: string)
    requires m' == m || m' == Put(m, key, p)
    requires key != "site" && key != "include"
    ensures Lookup(Put(m', "site", Site), "site") == Some(Site)
    ensures Lookup(Put(m', "site", Site), "include") == Lookup(m, "include")
    ensures k != "site" && k != key ==> Lookup(Put(m', "site", Site), k) == Lookup(m, k)
  {
  }

  /** The object after the helpers and `include` are written. */
  lemma WithHelpersLookup(obj: Dict<Local>, builtins: Dict<Fn>, user: Dict<Fn>, k: string)
    requires UniqueKeys(builtins) && UniqueKeys(user)
    ensures var m := WithHelpers(obj, builtins, user);
      && Lookup(m, "include") == Some(Include)
      && (k != "include" ==>
            Lookup(m, k) == if Lookup(user, k).Some? then Some(Helper(Bound(Lookup(user, k).value)))
                            else if Lookup(builtins, k).Some? then Some(Helper(Bound(Lookup(builtins, k).value)))
                            else Lookup(obj, k))
  {
    var wrap := f => Helper(Bound(f));
    PutAllLookup(obj, builtins, wrap, k);
    PutAllLookup(PutAll(obj, builtins, wrap), user, wrap, k);
  }

  /** Without `paginate`, `applyHelpers` never throws. */
  lemma HelpedWithoutPaginate(obj: Dict<Local>, builtins: Dict<Fn>, user: Dict<Fn>)
    requires Lookup(obj, "paginate").None?
    requires Lookup(builtins, "paginate").None? && Lookup(user, "paginate").None?
    requires UniqueKeys(builtins) && UniqueKeys(user)
    ensures Helped(obj, builtins, user).Some?
  {
    var wrap := f => Helper(Bound(f));
    PutAllLookup(obj, builtins, wrap, "paginate");
    PutAllLookup(PutAll(obj, builtins, wrap), user, wrap, "paginate");
  }

  /** Running a chain of filters, in key order, each on the previous output. */
  function Chain(text: string, fs: Dict<Fn>, run: (Fn, string) -> string): string {
    if fs == [] then text
    else
      var n := |fs| - 1;
      run(fs[n].1, Chain(text, fs[..n], run))
  }

  /** Chaining two chains is chaining their concatenation. */
  lemma {:induction false} ChainAppend(text: string, a: Dict<Fn>, b: Dict<Fn>, run: (Fn, string) -> string)
    ensures Chain(text, a + b, run) == Chain(Chain(text, a, run), b, run)
    decreases |b|
  {
    if b != [] {
      var n := |b| - 1;
      assert (a + b)[..|a| + n] == a + b[..n];
      assert (a + b)[|a| + n] == b[n];
      ChainAppend(text, a, b[..n], run);
      calc {
        Chain(text, a + b, run);
        run(b[n].1, Chain(text, a + b[..n], run));
        run(b[n].1, Chain(Chain(text, a, run), b[..n], run));
        Chain(Chain(text, a, run), b, run);
      }
    } else {
      assert a + b == a;
    }
  }

  lemma ChainStep(text: string, fs: Dict<Fn>, run: (Fn, string) -> string, i: nat)
    requires i < |fs|
    ensures Chain(text, fs[..i + 1], run) == run(fs[i].1, Chain(text, fs[..i], run))
  {
    assert fs[..i + 1][..i] == fs[..i];
  }

  /** The text `applyFilters` returns: the built-in filters, then the user's. */
  function Filtered(text: string, builtins: Dict<Fn>, user: Dict<Fn>, run: (Fn, string) -> string): string {
    Chain(Chain(text, builtins, run), user, run)
  }

  method RunChain(text: string, fs: Dict<Fn>, run: (Fn, string) -> string) returns (r: string)
    ensures r == Chain(text, fs, run)
  {
    r := text;
    for i := 0 to |fs|
      invariant r == Chain(text, fs[..i], run)
    {
      ChainStep(text, fs, run, i);
      r := run(fs[i].1, r);
    }
    assert fs[..|fs|] == fs;
  }

  /** `applyFilters(text)`: every built-in filter, then every user filter,
      each applied to the previous result. */
  method ApplyFilters(text: string, builtins: Dict<Fn>, user: Dict<Fn>, run: (Fn, string) -> string)
    returns (r: string)
    ensures r == Filtered(text, builtins, user, run)
    ensures r == Chain(text, builtins + user, run)
  {
    var t := RunChain(text, builtins, run);
    r := RunChain(t, user, run);
    ChainAppend(text, builtins, user, run);
  }

  /** `applyPostFilters(text)`: every user post-filter in turn. */
  method ApplyPostFilters(text: string, user: Dict<Fn>, run: (Fn, string) -> string) returns (r: string)
    ensures r == Chain(text, user, run)
  {
    r := RunChain(text, user, run);
  }

  /** The built-in filter object holds the one `highlight` filter. */
  const BuiltinFilters: Dict<Fn> := [("highlight", Fn("highlight"))]

  /** With no user filters, filtering is the highlight rewrite, so text
      without a `{%` comes through unchanged. */
  lemma FilteredIsHighlight(text: string, run: (Fn, string) -> string)
    requires forall t :: run(Fn("highlight"), t) == Filters.Highlight(t)
    ensures Filtered(text, BuiltinFilters, [], run) == Filters.Highlight(text)
    ensures !Strings.Contains(text, "{%") ==> Filtered(text, BuiltinFilters, [], run) == text
  {
    assert BuiltinFilters[..0] == [];
    assert Chain(text, BuiltinFilters, run) == run(Fn("highlight"), text);
    if !Strings.Contains(text, "{%") {
      Filters.HighlightIdentity(text);
    }
  }
}
