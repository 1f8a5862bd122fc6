/** Template names inside themes: the `_themes/<id>/<name>` namespace, how
    the active theme is recovered from a render context, how the themed
    template loader resolves a namespaced name, the themed-then-default
    fallback, and the lookup behind the themed static route. Rendering
    itself is abstracted to "which template, with which context". */
module TemplateNames {
  import opened Wrappers
  import opened Text
  import opened ThemeInfo
  import opened Loaders

  const ThemesPrefix := "_themes/"

  /** `'_themes/%s/%s' % (theme, name)`. */
  function ThemedName(id: string, name: string): string {
    ThemesPrefix + id + "/" + name
  }

  /** A template render context: its variables and the template's name. */
  datatype Context = Context(vars: map<string, string>, name: string)

  /** The RuntimeError raised when no theme is active. */
  const NoActiveTheme := "Could not find the active theme"

  /** `active_theme(ctx)`. */
  function ActiveTheme(ctx: Context): Result<string, string> {
    if "_theme" in ctx.vars then Success(ctx.vars["_theme"])
    else if ThemesPrefix <= ctx.name then Success(BeforeFirst(ctx.name[|ThemesPrefix|..], '/'))
    else Failure(NoActiveTheme)
  }

  /** The explicit marker wins; otherwise a namespaced template name gives
      the theme; otherwise the call fails. */
  lemma ActiveThemeCases(ctx: Context)
    ensures "_theme" in ctx.vars ==> ActiveTheme(ctx) == Success(ctx.vars["_theme"])
    ensures ActiveTheme(ctx).Failure? <==> "_theme" !in ctx.vars && !(ThemesPrefix <= ctx.name)
    ensures ActiveTheme(ctx).Success? && "_theme" !in ctx.vars ==>
              '/' !in ActiveTheme(ctx).value && ThemesPrefix + ActiveTheme(ctx).value <= ctx.name
  {
    if "_theme" !in ctx.vars && ThemesPrefix <= ctx.name {
      var rest := ctx.name[|ThemesPrefix|..];
      var id := BeforeFirst(rest, '/');
      assert ctx.name == ThemesPrefix + rest;
      assert ThemesPrefix + id == ctx.name[..|ThemesPrefix| + |id|];
    }
  }

  /** Round trip: inside a template named `ThemedName(id, n)`, with no
      marker in the context, the active theme is `id`. */
  lemma ActiveThemeOfThemedName(vars: map<string, string>, id: string, n: string)
    requires "_theme" !in vars && '/' !in id
    ensures ActiveTheme(Context(vars, ThemedName(id, n))) == Success(id)
  {
    ThemedNameParts(id, n);
    SplitFirstOfJoin(id, '/', n);
  }

  /** `global_theme_template(ctx, templatename, fallback)`: the namespaced
      name, unless falling back is allowed and the theme lacks it.
      `template_exists` asks whether a name is among the environment's
      `list_templates()`, here the set `listed`. */
  function GlobalThemeTemplate(ctx: Context, templateName: string, fallback: bool, listed: set<string>): (r: Result<string, string>)
    ensures r.Failure? <==> ActiveTheme(ctx).Failure?
    ensures r.Failure? ==> r.error == NoActiveTheme
    ensures r.Success? ==>
              var themed := ThemedName(ActiveTheme(ctx).value, templateName);
              r.value == (if !fallback || themed in listed then themed else templateName)
  {
    match ActiveTheme(ctx)
    case Failure(e) => Failure(e)
    case Success(theme) =>
      var path := ThemedName(theme, templateName);
      if !fallback || path in listed then Success(path) else Success(templateName)
  }

  /** The name the themed loader is asked for as it arrives: the module
      loader of `flask_themes` gets names without the prefix, its blueprint
      loader strips a leading `_themes/`, and the `flask_fleem` loader
      always drops the first eight characters. */
  datatype LoaderMode = ModuleLoader | BlueprintLoader | FleemLoader

  function Unprefixed(mode: LoaderMode, template: string): string {
    match mode
    case ModuleLoader => template
    case BlueprintLoader => if ThemesPrefix <= template then template[|ThemesPrefix|..] else template
    case FleemLoader => DropPrefix(template, |ThemesPrefix|)
  }

  /** Each theme's own template directory: directory path, then template
      name (as the directory walk of a `FileSystemLoader` lists it) to its
      source. */
  type TemplateDirs = map<string, map<string, string>>

  /** A segment `split_template_path` keeps: neither empty nor `.`. */
  predicate Kept(piece: string) {
    piece != "" && piece != "."
  }

  /** The segments `split_template_path` keeps, in order. */
  function KeptPieces(pieces: seq<string>): (r: seq<string>)
    ensures forall k :: 0 <= k < |r| ==> Kept(r[k]) && r[k] in pieces
    ensures (forall k :: 0 <= k < |pieces| ==> Kept(pieces[k])) ==> r == pieces
  {
    if pieces == [] then []
    else
      var rest := KeptPieces(pieces[1..]);
      assert pieces == [pieces[0]] + pieces[1..];
      if Kept(pieces[0]) then [pieces[0]] + rest else rest
  }

  /** A name as the directory walk lists it: `/`-separated segments, none
      of them empty, `.` or `..`. */
  predicate Canonical(n: string) {
    var pieces := Split(n, '/');
    forall k :: 0 <= k < |pieces| ==> Kept(pieces[k]) && pieces[k] != ".."
  }

  /** Every listed template name is canonical. */
  predicate Walked(dirs: TemplateDirs) {
    forall root, n :: root in dirs && n in dirs[root] ==> Canonical(n)
  }

  /** The name a theme's `FileSystemLoader` looks up for `name`:
      `split_template_path` refuses a `..` segment and drops empty and `.`
      ones; with no segment left the path is the directory itself, which is
      no template. */
  function NormalTemplate(name: string): Option<string> {
    NormalPieces(Split(name, '/'))
  }

  /** The same on the segments of the name. */
  function NormalPieces(pieces: seq<string>): Option<string> {
    if ".." in pieces then None
    else
      var kept := KeptPieces(pieces);
      if kept == [] then None else Some(JoinWith(kept, '/'))
  }

  /** Normalising yields a canonical name, and leaves exactly the canonical
      names unchanged. */
  lemma NormalTemplateSpec(name: string)
    ensures NormalTemplate(name).Some? ==> Canonical(NormalTemplate(name).value)
    ensures NormalTemplate(name) == Some(name) <==> Canonical(name)
  {
    var pieces := Split(name, '/');
    if NormalTemplate(name).Some? {
      var kept := KeptPieces(pieces);
      forall k | 0 <= k < |kept| ensures '/' !in kept[k] && kept[k] != ".." {
        var j :| 0 <= j < |pieces| && pieces[j] == kept[k];
      }
      SplitOfJoin(kept, '/');
    }
    if Canonical(name) {
      assert KeptPieces(pieces) == pieces;
    }
  }

  /** A leading segment `p` followed by `/` splits off as the first piece. */
  lemma SplitUnder(p: string, n: string)
    requires '/' !in p
    ensures Split(p + "/" + n, '/') == [p] + Split(n, '/')
  {
    SplitAfterPiece(p, '/', n);
    assert p + "/" + n == p + ['/'] + n;
  }

  /** Filtering distributes over concatenation: the kept segments of
      `a + b` are those of `a` followed by those of `b`, so every kept
      segment survives and the order is preserved. */
  lemma {:induction false} KeptPiecesAppend(a: seq<string>, b: seq<string>)
    ensures KeptPieces(a + b) == KeptPieces(a) + KeptPieces(b)
  {
    if a != [] {
      assert (a + b)[1..] == a[1..] + b;
      KeptPiecesAppend(a[1..], b);
    } else {
      assert a + b == b;
    }
  }

  /** A single segment is kept exactly when it is neither empty nor `.`. */
  lemma KeptPiecesOne(piece: string)
    ensures KeptPieces([piece]) == if Kept(piece) then [piece] else []
  {
    assert [piece][1..] == [];
  }

  /** Inserting an empty or `.` segment changes nothing, and inserting a
      `..` segment refuses the name. */
  lemma NormalPiecesInsert(front: seq<string>, piece: string, rest: seq<string>)
    ensures !Kept(piece) ==> NormalPieces(front + ([piece] + rest)) == NormalPieces(front + rest)
    ensures piece == ".." ==> NormalPieces(front + ([piece] + rest)) == None
  {
    assert ".." in front + ([piece] + rest) <==> ".." in front + rest || piece == "..";
    KeptPiecesAppend(front, [piece] + rest);
    KeptPiecesAppend([piece], rest);
    KeptPiecesAppend(front, rest);
    KeptPiecesOne(piece);
  }

  /** An empty or `.` segment is dropped, and a `..` segment refuses the
      name, in front of a name: `/b` and `./b` load `b`, `../b` nothing. */
  lemma NormalTemplateLeading(n: string)
    ensures NormalTemplate("/" + n) == NormalTemplate(n)
    ensures NormalTemplate("./" + n) == NormalTemplate(n)
    ensures NormalTemplate("../" + n) == None
  {
    var rest := Split(n, '/');
    SplitUnder("", n);
    SplitUnder(".", n);
    SplitUnder("..", n);
    assert "" + "/" + n == "/" + n && "." + "/" + n == "./" + n && ".." + "/" + n == "../" + n;
    NormalPiecesInsert([], "", rest);
    NormalPiecesInsert([], ".", rest);
    NormalPiecesInsert([], "..", rest);
    assert [] + rest == rest;
  }

  /** Inserting a segment `piece` after a first segment `p`. */
  lemma NormalTemplateInsert(p: string, piece: string, n: string)
    requires '/' !in p && '/' !in piece
    ensures !Kept(piece) ==> NormalTemplate(p + "/" + piece + "/" + n) == NormalTemplate(p + "/" + n)
    ensures piece == ".." ==> NormalTemplate(p + "/" + piece + "/" + n) == None
  {
    SplitUnder(piece, n);
    SplitUnder(p, piece + "/" + n);
    assert p + "/" + piece + "/" + n == p + "/" + (piece + "/" + n);
    SplitUnder(p, n);
    NormalPiecesInsert([p], piece, Split(n, '/'));
  }

  /** The same after a first segment `p`: `a//b` and `a/./b` load `a/b`,
      `a/../b` loads nothing. */
  lemma NormalTemplateSegments(p: string, n: string)
    requires '/' !in p
    ensures NormalTemplate(p + "//" + n) == NormalTemplate(p + "/" + n)
    ensures NormalTemplate(p + "/./" + n) == NormalTemplate(p + "/" + n)
    ensures NormalTemplate(p + "/../" + n) == None
  {
    NormalTemplateInsert(p, "", n);
    assert p + "/" + "" + "/" + n == p + "//" + n;
    NormalTemplateInsert(p, ".", n);
    assert p + "/" + "." + "/" + n == p + "/./" + n;
    NormalTemplateInsert(p, "..", n);
    assert p + "/" + ".." + "/" + n == p + "/../" + n;
  }

  /** A name with one segment in front is canonical exactly when that
      segment and the rest are. */
  lemma CanonicalUnder(id: string, n: string)
    requires '/' !in id
    ensures Canonical(id + "/" + n) <==> Kept(id) && id != ".." && Canonical(n)
  {
    SplitAfterPiece(id, '/', n);
    assert id + "/" + n == id + ['/'] + n;
    var pieces := Split(id + "/" + n, '/');
    assert pieces == [id] + Split(n, '/');
    assert forall k :: 0 <= k < |Split(n, '/')| ==> pieces[k + 1] == Split(n, '/')[k];
  }

  /** The theme's own `FileSystemLoader`, rooted at its templates directory. */
  function ThemeSource(t: Theme, dirs: TemplateDirs, name: string): Option<string> {
    var root := TemplatesPath(t);
    match NormalTemplate(name)
    case None => None
    case Some(n) => if root in dirs && n in dirs[root] then Some(dirs[root][n]) else None
  }

  datatype TemplateNotFound = TemplateNotFound(name: string)

  /** `ThemeTemplateLoader.get_source(environment, template)`. */
  function GetSource(mode: LoaderMode, registry: map<string, Theme>, dirs: TemplateDirs, template: string): Result<string, TemplateNotFound> {
    var name := Unprefixed(mode, template);
    match SplitFirst(name, '/')
    case None => Failure(TemplateNotFound(name))
    case Some((themeName, templateName)) =>
      if themeName !in registry then Failure(TemplateNotFound(name))
      else
        match ThemeSource(registry[themeName], dirs, templateName)
        case None => Failure(TemplateNotFound(name))
        case Some(src) => Success(src)
  }

  /** A name that splits at its first `/` into `id` and `n` resolves to
      template `n` of theme `id`; an unknown theme or a missing template is
      TemplateNotFound for the whole name. */
  lemma GetSourceFinds(mode: LoaderMode, registry: map<string, Theme>, dirs: TemplateDirs, template: string, id: string, n: string)
    requires Unprefixed(mode, template) == id + "/" + n && '/' !in id
    ensures GetSource(mode, registry, dirs, template) ==
            if id in registry && ThemeSource(registry[id], dirs, n).Some?
            then Success(ThemeSource(registry[id], dirs, n).value)
            else Failure(TemplateNotFound(id + "/" + n))
  {
    SplitFirstOfJoin(id, '/', n);
  }

  /** Conversely, a name that resolves splits into a registered theme and a
      template that theme has. */
  lemma GetSourceSplits(mode: LoaderMode, registry: map<string, Theme>, dirs: TemplateDirs, template: string)
    returns (id: string, n: string)
    requires GetSource(mode, registry, dirs, template).Success?
    ensures Unprefixed(mode, template) == id + "/" + n && '/' !in id
    ensures id in registry && ThemeSource(registry[id], dirs, n).Some?
  {
    var split := SplitFirst(Unprefixed(mode, template), '/');
    id, n := split.value.0, split.value.1;
  }

  /** Every miss (no `/`, unknown theme, missing template) is the same
      TemplateNotFound, naming what the loader was asked for. */
  lemma GetSourceNotFound(mode: LoaderMode, registry: map<string, Theme>, dirs: TemplateDirs, template: string)
    requires GetSource(mode, registry, dirs, template).Failure?
    ensures GetSource(mode, registry, dirs, template).error == TemplateNotFound(Unprefixed(mode, template))
  {
  }

  /** A namespaced name is the prefix followed by `id/n`. */
  lemma ThemedNameParts(id: string, n: string)
    ensures ThemesPrefix <= ThemedName(id, n)
    ensures ThemedName(id, n)[|ThemesPrefix|..] == id + "/" + n
    ensures ThemedName(id, n) == ThemesPrefix + (id + "/" + n)
  {
    assert ThemedName(id, n) == ThemesPrefix + (id + "/" + n);
  }

  /** Round trip: the blueprint and `flask_fleem` loaders resolve
      `ThemedName(id, n)` to template `n` of theme `id`. */
  lemma GetSourceOfThemedName(mode: LoaderMode, registry: map<string, Theme>, dirs: TemplateDirs, id: string, n: string)
    requires mode != ModuleLoader && '/' !in id
    ensures GetSource(mode, registry, dirs, ThemedName(id, n)) ==
            if id in registry && ThemeSource(registry[id], dirs, n).Some?
            then Success(ThemeSource(registry[id], dirs, n).value)
            else Failure(TemplateNotFound(id + "/" + n))
  {
    ThemedNameParts(id, n);
    GetSourceFinds(mode, registry, dirs, ThemedName(id, n), id, n);
  }

  /** The key under which `flask_fleem`'s loader looks for the manager in
      the application's `extensions`. */
  const ManagerKey := "fleem_manager"

  /** `flask_fleem`'s `get_source`, which reaches the registry through
      `current_app.extensions['fleem_manager'].themes`. `registered` is
      that manager's themes, or None when the key is absent; the KeyError
      is caught with the others and becomes TemplateNotFound. */
  function FleemGetSource(registered: Option<map<string, Theme>>, dirs: TemplateDirs, template: string): (r: Result<string, TemplateNotFound>)
    ensures registered.None? ==> r == Failure(TemplateNotFound(Unprefixed(FleemLoader, template)))
    ensures registered.Some? ==> r == GetSource(FleemLoader, registered.value, dirs, template)
  {
    match registered
    case None => Failure(TemplateNotFound(Unprefixed(FleemLoader, template)))
    case Some(registry) => GetSource(FleemLoader, registry, dirs, template)
  }

  /** With no manager stored under `fleem_manager` (nothing in the package
      stores one) even a template the registry holds is not found, while
      the same lookup through a stored manager finds it. */
  lemma UnregisteredManagerFindsNothing(registry: map<string, Theme>, dirs: TemplateDirs, id: string, n: string)
    requires id in registry && '/' !in id && ThemeSource(registry[id], dirs, n).Some?
    ensures FleemGetSource(None, dirs, ThemedName(id, n)) == Failure(TemplateNotFound(id + "/" + n))
    ensures FleemGetSource(Some(registry), dirs, ThemedName(id, n)) == Success(ThemeSource(registry[id], dirs, n).value)
  {
    ThemedNameParts(id, n);
    GetSourceOfThemedName(FleemLoader, registry, dirs, id, n);
  }

  /** `ThemeTemplateLoader.list_templates()`: every template of every
      registered theme, under its namespaced name. */
  function ListTemplates(registry: map<string, Theme>, dirs: TemplateDirs): set<string> {
    set id, n | id in registry && TemplatesPath(registry[id]) in dirs && n in dirs[TemplatesPath(registry[id])]
      :: ThemedName(id, n)
  }

  /** Every listed name is loadable by the `flask_fleem` loader: it is the
      namespaced name of a canonical template of a registered theme. */
  lemma ListedIsLoadable(registry: map<string, Theme>, dirs: TemplateDirs, name: string) returns (id: string, n: string)
    requires forall id :: id in registry ==> '/' !in id
    requires Walked(dirs)
    requires name in ListTemplates(registry, dirs)
    ensures name == ThemedName(id, n) && id in registry && Canonical(n)
    ensures ThemesPrefix <= name && GetSource(FleemLoader, registry, dirs, name).Success?
  {
    id, n :| id in registry && TemplatesPath(registry[id]) in dirs && n in dirs[TemplatesPath(registry[id])]
             && name == ThemedName(id, n);
    NormalTemplateSpec(n);
    assert ThemeSource(registry[id], dirs, n).Some?;
    GetSourceOfThemedName(FleemLoader, registry, dirs, id, n);
  }

  /** A name the `flask_fleem` loader resolves under the prefix is the
      namespaced name of a template of a registered theme. */
  lemma ResolvedName(registry: map<string, Theme>, dirs: TemplateDirs, name: string) returns (id: string, n: string)
    requires ThemesPrefix <= name && GetSource(FleemLoader, registry, dirs, name).Success?
    ensures name == ThemedName(id, n) && name[|ThemesPrefix|..] == id + "/" + n && '/' !in id
    ensures id in registry && ThemeSource(registry[id], dirs, n).Some?
  {
    id, n := GetSourceSplits(FleemLoader, registry, dirs, name);
    var rest := name[|ThemesPrefix|..];
    assert Unprefixed(FleemLoader, name) == rest;
    assert name == ThemesPrefix + rest;
    ThemedNameParts(id, n);
  }

  /** A template a theme's loader finds is listed under the namespaced form
      of its normalised name. */
  lemma ThemedNameListed(registry: map<string, Theme>, dirs: TemplateDirs, id: string, n: string)
    requires id in registry && ThemeSource(registry[id], dirs, n).Some?
    ensures NormalTemplate(n).Some? && ThemedName(id, NormalTemplate(n).value) in ListTemplates(registry, dirs)
  {
    var root := TemplatesPath(registry[id]);
    var m := NormalTemplate(n).value;
    assert root in dirs && m in dirs[root];
  }

  /** Every name the `flask_fleem` loader can load under the prefix is
      listed once its template part is normalised; a canonical one is
      listed as it is. */
  lemma LoadableIsListed(registry: map<string, Theme>, dirs: TemplateDirs, name: string) returns (id: string, n: string)
    requires ThemesPrefix <= name && GetSource(FleemLoader, registry, dirs, name).Success?
    ensures name == ThemedName(id, n) && name[|ThemesPrefix|..] == id + "/" + n && '/' !in id
    ensures NormalTemplate(n).Some?
    ensures ThemedName(id, NormalTemplate(n).value) in ListTemplates(registry, dirs)
    ensures Canonical(n) ==> name in ListTemplates(registry, dirs)
  {
    id, n := ResolvedName(registry, dirs, name);
    ThemedNameListed(registry, dirs, id, n);
    NormalTemplateSpec(n);
  }

  /** A pattern-matching identifier is a segment that is kept as it is. */
  lemma IdentifiersKept(registry: map<string, Theme>)
    requires forall id :: id in registry ==> MatchesIdentifier(id)
    ensures forall id :: id in registry ==> '/' !in id && Kept(id) && id != ".."
  {
    forall id | id in registry ensures '/' !in id && Kept(id) && id != ".." {
      MatchedNameIsSegment(id);
    }
  }

  /** Listed names are loadable and canonical after the prefix. */
  lemma ListedIsCanonical(registry: map<string, Theme>, dirs: TemplateDirs, name: string)
    requires forall id :: id in registry ==> MatchesIdentifier(id)
    requires Walked(dirs)
    requires name in ListTemplates(registry, dirs)
    ensures ThemesPrefix <= name && GetSource(FleemLoader, registry, dirs, name).Success?
    ensures Canonical(name[|ThemesPrefix|..])
  {
    IdentifiersKept(registry);
    var id, n := ListedIsLoadable(registry, dirs, name);
    ThemedNameParts(id, n);
    CanonicalUnder(id, n);
  }

  /** A loadable name that is canonical after the prefix is listed. */
  lemma CanonicalLoadableListed(registry: map<string, Theme>, dirs: TemplateDirs, name: string)
    requires ThemesPrefix <= name && GetSource(FleemLoader, registry, dirs, name).Success?
    requires Canonical(name[|ThemesPrefix|..])
    ensures name in ListTemplates(registry, dirs)
  {
    var id, n := LoadableIsListed(registry, dirs, name);
    CanonicalUnder(id, n);
  }

  /** What `list_templates` lists is exactly what the `flask_fleem` loader
      can load under the `_themes/` prefix and names canonically, provided
      every registered identifier matches the folder-name pattern (as
      `Registry.BuiltInRegistryIdentified` shows for the built-in loaders)
      and the template directories list canonical names. */
  lemma ListTemplatesMatchesGetSource(registry: map<string, Theme>, dirs: TemplateDirs, name: string)
    requires forall id :: id in registry ==> MatchesIdentifier(id)
    requires Walked(dirs)
    ensures name in ListTemplates(registry, dirs) <==>
            && ThemesPrefix <= name
            && GetSource(FleemLoader, registry, dirs, name).Success?
            && Canonical(name[|ThemesPrefix|..])
  {
    if name in ListTemplates(registry, dirs) {
      ListedIsCanonical(registry, dirs, name);
    }
    if ThemesPrefix <= name && GetSource(FleemLoader, registry, dirs, name).Success? && Canonical(name[|ThemesPrefix|..]) {
      CanonicalLoadableListed(registry, dirs, name);
    }
  }

  /** Either the identifier of a theme or the Theme itself. */
  datatype ThemeRef = ById(id: string) | ByTheme(theme: Theme)

  function RefId(theme: ThemeRef): string {
    match theme
    case ById(id) => id
    case ByTheme(t) => t.identifier
  }

  /** A render: the template that was rendered with its context, or the
      TemplateNotFound that escaped. */
  datatype Render = Rendered(template: string, context: map<string, string>) | NotFound(template: string)

  /** `render_template(name, **ctx)` in an environment that can load the
      names in `available`. A name in `raises` exists, but rendering it
      raises TemplateNotFound for the name it maps to: an `extends` or
      `include` of a template that is missing. */
  function RenderOnce(name: string, ctx: map<string, string>, available: set<string>, raises: map<string, string>): (r: Render)
    ensures r.Rendered? <==> name in available && name !in raises
    ensures r.Rendered? ==> r == Rendered(name, ctx)
    ensures r.NotFound? ==> r.template == if name in available then raises[name] else name
  {
    if name !in available then NotFound(name)
    else if name in raises then NotFound(raises[name])
    else Rendered(name, ctx)
  }

  /** `render_theme_template(theme, template_name, _fallback, **context)`.
      Also returns the names it tried to render. A TemplateNotFound from
      the first render, whether the themed template is missing or one it
      pulls in is, leads to the fallback when it is allowed and escapes
      otherwise. `available` is what the environment can load and
      `listed` what its `list_templates()` names. The two need not agree:
      a non-canonical name such as `_themes/cool/./hello.html` loads
      without being listed, and a theme whose identifier holds a `/` is
      listed under names that do not load. */
  method RenderThemeTemplate(theme: ThemeRef, templateName: string, fallback: bool,
                             context: map<string, string>, available: set<string>, listed: set<string>,
                             raises: map<string, string>)
    returns (outcome: Render, attempts: seq<string>)
    ensures var id := RefId(theme);
      && 1 <= |attempts| <= 2
      && attempts[0] == ThemedName(id, templateName)
      && (|attempts| == 2 <==> fallback && (attempts[0] !in available || attempts[0] in raises))
      && (|attempts| == 2 ==> attempts[1] == templateName)
      && outcome == RenderOnce(attempts[|attempts| - 1], context["_theme" := id], available, raises)
    ensures outcome.Rendered? ==> ActiveTheme(Context(outcome.context, outcome.template)) == Success(RefId(theme))
    ensures var themed := ThemedName(RefId(theme), templateName);
            outcome.Rendered? && themed !in raises && (themed in listed <==> themed in available) ==>
              GlobalThemeTemplate(Context(outcome.context, outcome.template), templateName, fallback, listed)
              == Success(outcome.template)
    ensures var themed := ThemedName(RefId(theme), templateName);
            fallback && themed in available - listed && themed !in raises ==>
              outcome == Rendered(themed, context["_theme" := RefId(theme)])
              && GlobalThemeTemplate(Context(outcome.context, outcome.template), templateName, fallback, listed)
                 == Success(templateName)
  {
    var id := RefId(theme);
    var ctx := context["_theme" := id];
    var themed := ThemedName(id, templateName);
    attempts := [themed];
    outcome := RenderOnce(themed, ctx, available, raises);
    if outcome.NotFound? && fallback {
      attempts := attempts + [templateName];
      outcome := RenderOnce(templateName, ctx, available, raises);
    }
  }

  /** The static route `/<themeid>/<path:filename>`: the directory and file
      to send, or 404 for an unknown theme. */
  function StaticRoute(registry: map<string, Theme>, themeId: string, filename: string): (r: Result<(string, string), int>)
    ensures r.Failure? <==> themeId !in registry
    ensures r.Failure? ==> r.error == 404
    ensures r.Success? ==>
              r.value.1 == filename && registry[themeId].path <= r.value.0 && r.value.0 == StaticPath(registry[themeId])
    ensures r.Success? ==> r.value.0 != TemplatesPath(registry[themeId])
  {
    if themeId in registry then
      StaticAndTemplatesDiffer(registry[themeId]);
      Success((StaticPath(registry[themeId]), filename))
    else Failure(404)
  }
}
