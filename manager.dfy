/** The theme registry: `ThemeManager` holds the loaders and the map from
    identifier to theme, filled by `refresh` on first use. */
module Registry {
  import opened Wrappers
  import opened Text
  import opened ThemeInfo
  import opened Loaders

  /** The test of `valid_app_id`: a theme's `application` must equal the
      manager's identifier exactly. */
  predicate AppIdAccepts(appId: string, application: string) {
    appId == application
  }

  /** `refresh` keeps `t` under key `k`: the theme passes `valid_app_id`
      and `k` is its identifier. */
  predicate Registers(appId: string, t: Theme, k: string) {
    AppIdAccepts(appId, t.application) && t.identifier == k
  }

  /** Every entry is stored under its own identifier and belongs to the
      application. */
  predicate WellKeyed(appId: string, m: map<string, Theme>) {
    forall k :: k in m ==> Registers(appId, m[k], k)
  }

  /** The map `refresh` builds from the candidates, in order: a candidate
      of the application is stored under its identifier, replacing any
      earlier one. */
  function Collect(appId: string, cs: seq<Theme>): (m: map<string, Theme>)
    ensures WellKeyed(appId, m)
  {
    if cs == [] then map[]
    else
      var m := Collect(appId, cs[..|cs| - 1]);
      var t := cs[|cs| - 1];
      if AppIdAccepts(appId, t.application) then m[t.identifier := t] else m
  }

  /** After a refresh, an identifier is present exactly when some candidate
      of the application carries it. */
  lemma {:induction false} CollectKeys(appId: string, cs: seq<Theme>, k: string)
    ensures k in Collect(appId, cs) <==> exists i :: 0 <= i < |cs| && Registers(appId, cs[i], k)
  {
    if cs != [] {
      var init := cs[..|cs| - 1];
      CollectKeys(appId, init, k);
      if exists i :: 0 <= i < |init| && Registers(appId, init[i], k) {
        var i :| 0 <= i < |init| && Registers(appId, init[i], k);
        assert cs[i] == init[i];
      }
      if exists i :: 0 <= i < |cs| && Registers(appId, cs[i], k) {
        var i :| 0 <= i < |cs| && Registers(appId, cs[i], k);
        if i < |init| {
          assert init[i] == cs[i];
        }
      }
    }
  }

  /** The theme kept under an identifier is the LAST candidate of the
      application carrying it: later loaders override earlier ones. */
  lemma {:induction false} CollectLastWins(appId: string, cs: seq<Theme>, k: string)
    requires k in Collect(appId, cs)
    ensures exists i :: 0 <= i < |cs| && Registers(appId, cs[i], k) && Collect(appId, cs)[k] == cs[i]
                        && forall j :: i < j < |cs| ==> !Registers(appId, cs[j], k)
  {
    var init := cs[..|cs| - 1];
    var t := cs[|cs| - 1];
    if !Registers(appId, t, k) {
      CollectLastWins(appId, init, k);
      var i :| 0 <= i < |init| && Registers(appId, init[i], k) && Collect(appId, init)[k] == init[i]
                && forall j :: i < j < |init| ==> !Registers(appId, init[j], k);
      assert cs[i] == init[i];
      forall j | i < j < |cs|
        ensures !Registers(appId, cs[j], k)
      {
        if j < |init| {
          assert cs[j] == init[j];
        }
      }
    }
  }

  /** A refresh over built-in loaders only (the default ones included)
      stores themes under identifiers the folder-name pattern accepts, so
      every key is a single path component. */
  lemma BuiltInRegistryIdentified(app: App, appId: string, loaders: seq<Loader>, k: string)
    requires forall j :: 0 <= j < |loaders| ==> BuiltIn(loaders[j])
    requires k in Collect(appId, Chain(app, loaders).themes)
    ensures MatchesIdentifier(k) && '/' !in k
  {
    var cs := Chain(app, loaders).themes;
    ChainIdentified(app, loaders);
    CollectKeys(appId, cs, k);
    var i :| 0 <= i < |cs| && Registers(appId, cs[i], k);
    assert cs[i] in cs;
    MatchedNameIsSegment(k);
  }

  /** Themes in strictly increasing identifier order. */
  predicate SortedById(ts: seq<Theme>) {
    forall i, j :: 0 <= i < j < |ts| ==> Below(ts[i].identifier, ts[j].identifier)
  }

  lemma SortedCons(t: Theme, ts: seq<Theme>)
    requires SortedById(ts)
    requires ts != [] ==> Below(t.identifier, ts[0].identifier)
    ensures SortedById([t] + ts)
  {
    forall j | 0 < j < |ts|
      ensures Below(t.identifier, ts[j].identifier)
    {
      BelowTransitive(t.identifier, ts[0].identifier, ts[j].identifier);
    }
  }

  /** Places `t` into an identifier-sorted list of themes. */
  function InsertById(ts: seq<Theme>, t: Theme): (r: seq<Theme>)
    requires SortedById(ts)
    requires forall x :: x in ts ==> x.identifier != t.identifier
    ensures SortedById(r) && |r| == |ts| + 1
    ensures forall x :: x in r <==> x in ts || x == t
  {
    if ts == [] then [t]
    else if Below(t.identifier, ts[0].identifier) then
      SortedCons(t, ts);
      [t] + ts
    else
      BelowTotal(t.identifier, ts[0].identifier);
      var rest := InsertById(ts[1..], t);
      assert ts == [ts[0]] + ts[1..];
      SortedCons(ts[0], rest);
      [ts[0]] + rest
  }

  /** Holds the themes of `themes` stored under the keys in `done`. */
  ghost predicate HoldsExactly(ts: seq<Theme>, themes: map<string, Theme>, done: set<string>)
    requires done <= themes.Keys
  {
    forall t :: t in ts <==> t.identifier in done && themes[t.identifier] == t
  }

  /** What the sort has built while the keys in `keys` remain. */
  ghost predicate SortedSoFar(ts: seq<Theme>, themes: map<string, Theme>, keys: set<string>) {
    && keys <= themes.Keys
    && SortedById(ts) && |ts| == |themes.Keys - keys|
    && HoldsExactly(ts, themes, themes.Keys - keys)
  }

  /** One step of the sort: inserting the theme under a remaining key. */
  lemma SortByIdStep(themes: map<string, Theme>, ts: seq<Theme>, keys: set<string>, k: string)
    requires forall key :: key in themes ==> themes[key].identifier == key
    requires SortedSoFar(ts, themes, keys) && k in keys
    ensures forall x :: x in ts ==> x.identifier != themes[k].identifier
    ensures SortedSoFar(InsertById(ts, themes[k]), themes, keys - {k})
  {
    var done := themes.Keys - keys;
    assert themes[k].identifier == k && k !in done;
    assert themes.Keys - (keys - {k}) == done + {k};
  }

  lemma HoldsAllValues(ts: seq<Theme>, themes: map<string, Theme>)
    requires forall key :: key in themes ==> themes[key].identifier == key
    requires SortedSoFar(ts, themes, {})
    ensures SortedById(ts) && |ts| == |themes|
    ensures forall t :: t in ts <==> t in themes.Values
  {
    assert themes.Keys - {} == themes.Keys;
    forall t | t in themes.Values
      ensures t in ts
    {
      var k :| k in themes && themes[k] == t;
      assert t.identifier == k;
    }
  }

  /** `sorted(themes.itervalues(), key=attrgetter('identifier'))` for a
      map whose entries are stored under their own identifiers. */
  method SortById(themes: map<string, Theme>) returns (ts: seq<Theme>)
    requires forall k :: k in themes ==> themes[k].identifier == k
    ensures SortedById(ts) && |ts| == |themes|
    ensures forall t :: t in ts <==> t in themes.Values
  {
    ts := [];
    var keys := themes.Keys;
    assert themes.Keys - keys == {};
    while keys != {}
      invariant SortedSoFar(ts, themes, keys)
      decreases keys
    {
      var k :| k in keys;
      SortByIdStep(themes, ts, keys, k);
      ts := InsertById(ts, themes[k]);
      keys := keys - {k};
    }
    HoldsAllValues(ts, themes);
  }

  class ThemeManager {
    /** The application whose loaders are run. */
    var app: App
    /** The value every theme's `application` must equal. */
    var appIdentifier: string
    var loaders: seq<Loader>
    /** `_themes` once loaded. */
    var registry: map<string, Theme>
    /** `_themes is not None`. */
    var loaded: bool

    ghost predicate Valid()
      reads this
    {
      WellKeyed(appIdentifier, registry)
    }

    /** `ThemeManager(app, app_identifier, loaders)`: without loaders (None
        or empty) the package's two built-in loaders are used, in order. */
    constructor (variant: Variant, app: App, appIdentifier: string, loaders: Option<seq<Loader>>)
      ensures Valid()
      ensures this.app == app && this.appIdentifier == appIdentifier
      ensures this.loaders == if loaders.None? || loaders.value == [] then DefaultLoaders(variant) else loaders.value
      ensures !loaded && registry == map[]
    {
      this.app := app;
      this.appIdentifier := appIdentifier;
      this.registry := map[];
      this.loaded := false;
      this.loaders := [];
      new;
      if loaders.Some? && loaders.value != [] {
        this.loaders := this.loaders + loaders.value;
      } else {
        this.loaders := this.loaders + DefaultLoaders(variant);
      }
    }

    /** `valid_app_id`: exact equality with the configured identifier. */
    predicate ValidAppId(application: string)
      reads this
    {
      AppIdAccepts(appIdentifier, application)
    }

    /** `refresh`: discards the map, then runs every loader in order and
        stores each candidate of the application under its identifier. A
        loader that raises ends the refresh with what was stored so far. */
    method Refresh() returns (ok: bool)
      modifies this
      ensures Valid() && loaded
      ensures app == old(app) && appIdentifier == old(appIdentifier) && loaders == old(loaders)
      ensures registry == Collect(appIdentifier, Chain(app, loaders).themes)
      ensures ok == !Chain(app, loaders).failed
    {
      var scan := Chain(app, loaders);
      registry := map[];
      loaded := true;
      var i := 0;
      while i < |scan.themes|
        invariant 0 <= i <= |scan.themes|
        invariant registry == Collect(appIdentifier, scan.themes[..i])
        invariant loaded && app == old(app) && appIdentifier == old(appIdentifier) && loaders == old(loaders)
      {
        var t := scan.themes[i];
        assert scan.themes[..i + 1][..i] == scan.themes[..i];
        if ValidAppId(t.application) {
          registry := registry[t.identifier := t];
        }
        i := i + 1;
      }
      assert scan.themes[..i] == scan.themes;
      ok := !scan.failed;
    }

    /** The `themes` property: refreshes only while nothing is loaded, so
        every later read returns the same map. */
    method Themes() returns (themes: map<string, Theme>, ok: bool)
      modifies this
      ensures Valid() && loaded && themes == registry
      ensures app == old(app) && appIdentifier == old(appIdentifier) && loaders == old(loaders)
      ensures old(loaded) ==> registry == old(registry) && ok
      ensures old(Valid()) && old(loaded) ==> Valid()
      ensures !old(loaded) ==> registry == Collect(appIdentifier, Chain(app, loaders).themes)
                               && ok == !Chain(app, loaders).failed
      requires Valid()
    {
      ok := true;
      if !loaded {
        ok := Refresh();
      }
      themes := registry;
    }

    /** `list_themes`: the loaded themes sorted by identifier. */
    method ListThemes() returns (ts: seq<Theme>, ok: bool)
      requires Valid()
      modifies this
      ensures Valid() && loaded
      ensures app == old(app) && appIdentifier == old(appIdentifier) && loaders == old(loaders)
      ensures old(loaded) ==> registry == old(registry) && ok
      ensures !old(loaded) ==> registry == Collect(appIdentifier, Chain(app, loaders).themes)
                               && ok == !Chain(app, loaders).failed
      ensures SortedById(ts) && |ts| == |registry|
      ensures forall t :: t in ts <==> t in registry.Values
    {
      var themes;
      themes, ok := Themes();
      ts := SortById(themes);
    }
  }
}
