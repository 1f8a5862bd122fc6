# Flask theme registry and template namespacing, modelled in Dafny

This project models the core of two Flask theming extensions that live side by side
in one repository:

- the older single-module `flask_themes`;
- the newer package `flask_fleem`;
- the example blog application that uses them (`example/themesandbox.py`).

Both extensions do the same work:

- They discover theme folders on disk. A theme folder is a directory named like a
  Python identifier that holds an `info.json`.
- They build a `Theme` record from each folder's metadata.
- They keep a registry from identifier to theme. A `ThemeManager` fills it by running
  a chain of loaders, keeping only the themes whose `application` matches the
  configured identifier. A later theme replaces an earlier one with the same
  identifier.
- They namespace each theme's templates as `_themes/<id>/<name>`. Rendering works
  out the active theme from a render context and falls back from the themed template
  to the application's own.
- They serve each theme's static files under a themed route.

The example application keeps its posts in a `PostStore`. It has a map from slug to
post and a list ordered newest first. Adding a batch can fail partway through on a
duplicate slug.

Modules, one per concern:

- `wrappers.dfy` (`Wrappers`): `Option` and `Result`.
- `text.dfy` (`Text`): the Python string operations the code relies on. These are
  `strip()`, `split(sep)`, `split(sep, 1)`, `lower()`, slicing, and string order.
  Only ASCII is modelled.
- `theme.dfy` (`ThemeInfo`): covers the following.
  - Decoded JSON and the info dictionary, kept as its entries in iteration order.
  - `Theme.__init__` as `ParseTheme`, for both package variants.
  - The localized descriptions.
  - `static_path` and `templates_path`.
  - `return_bundle`.
- `loaders.dfy` (`Loaders`): the identifier pattern and `load_themes_from`, with the
  filesystem given as a value. Also the two built-in loaders, the `THEME_PATHS`
  splitter, and the loader chain. A directory that cannot be listed makes the chain
  raise. This is recorded as `Scan.failed`.
- `manager.dfy` (`Registry`): `ThemeManager` as a class with fields for the app, the
  application identifier, the loaders, the registry map and the "loaded" flag.
  - `refresh` is a loop that writes into the map.
  - `themes` is lazy.
  - `list_themes` sorts by identifier.
- `templates.dfy` (`TemplateNames`): covers the following.
  - `active_theme` and `global_theme_template`.
  - `ThemeTemplateLoader.get_source` in its three name-handling modes (see below)
    and `list_templates`.
  - Each theme's own Jinja `FileSystemLoader`, including how it normalises a
    template name: it drops empty and `.` segments and refuses `..`. So
    `_themes/cool//hello.html` loads the same template as `_themes/cool/hello.html`,
    but only the latter is listed.
  - `flask_fleem`'s route to the registry through `extensions['fleem_manager']`,
    including the finding below.
  - `render_theme_template`, as a method that returns what it rendered and the names
    it tried. Templates that exist but whose rendering raises TemplateNotFound (an
    `extends` or `include` of a missing template) are an input. So are the names
    `list_templates()` gives, which `template_exists` reads: a themed name that
    loads without being listed is rendered, while `global_theme_template` falls
    back to the bare name for it.
  - The lookup inside the static route.
- `fleem.dfy` (`Extension`): the `Fleem` object and `init_app`, including the finding
  below.
- `posts.dfy` (`Sandbox`): `Post(data)`, and `PostStore.add_posts` as a class method
  with a loop. Also the stable newest-first sort that `by_date.sort(...,
  reverse=True)` performs.

`get_source` has three modes for handling the name it is asked for:

- The module loader of `flask_themes` uses the name as it is.
- Its blueprint loader strips a leading `_themes/`.
- The `flask_fleem` loader always drops the first eight characters.

Some behaviour of the code worth knowing, all of it modelled:

- Namespaced names start with `_themes/`.
- `THEME_PATHS` is split on `;` only.
- Metadata is read from `info.json` only.
- A folder whose metadata cannot be built never aborts a scan. A search directory
  that cannot be listed does abort it. It raises from `os.listdir` and ends `refresh`
  with the themes stored so far.
- The static route answers 404 for an unknown theme. A missing file under a known
  theme is left to `send_from_directory`, which is not modelled.
- Python's `$` in `^[a-zA-Z_][a-zA-Z0-9_]*$` also matches just before a final
  newline. `MatchesIdentifier` encodes that. For any identifier `t`, a folder named
  `t` plus a newline whose metadata gives that same name as its identifier is
  accepted.
- Identifiers found by the built-in loaders are single path segments. The
  listing lemmas rely on that.

## Model

| member | source | states |
|---|---|---|
| Text.Strip | flask_themes/__init__.py:198 | the result is a contiguous piece of the input, with only whitespace cut from both sides, and it neither starts nor ends with whitespace |
| Text.Split | flask_fleem/theme_manager.py:62 | at least one piece, no piece contains the separator, and joining the pieces with the separator gives back the input |
| Text.SplitOfJoin | flask_fleem/theme_manager.py:62 | splitting a join of separator-free pieces returns exactly those pieces |
| Text.SplitFirst | flask_fleem/theme.py:148 | `split('/', 1)` yields two parts exactly when the separator occurs; the first part has no separator, and part + separator + rest is the input |
| Text.SplitFirstOfJoin | flask_fleem/fleem.py:60 | round trip: splitting `a + c + b` at the first `c`, where `a` has no `c`, gives back `a` and `b` |
| Text.BelowIrreflexive | flask_fleem/theme_manager.py:114 | the string order used to sort identifiers is irreflexive |
| Text.BelowTransitive | flask_fleem/theme_manager.py:114 | the string order is transitive |
| Text.BelowTotal | flask_fleem/theme_manager.py:114 | any two different strings are ordered one way or the other |
| Text.BelowAsymmetric | flask_fleem/theme_manager.py:114 | no two strings are ordered both ways |
| ThemeInfo.ParseTheme | flask_fleem/theme.py:15-72 | `Theme.__init__` after `info.json` is decoded: a built Theme keeps the given path and info; what it builds is stated by `ParseThemeRequiredKeys` and `ParseThemeFields` |
| ThemeInfo.ParseThemeRequiredKeys | flask_themes/__init__.py:60-86 | building a Theme succeeds exactly when `name`, `application`, `identifier` and `author` are all present (as strings); otherwise the error names the first missing one in the source's order |
| ThemeInfo.ParseThemeFields | flask_fleem/theme.py:25-72 | a built Theme copies the four required keys and takes each optional key from the info or its default: description `None` (flask_themes) or the string "None" (flask_fleem), `doctype` "html5", `options` {}, license, license_url, website and preview None |
| ThemeInfo.LocalizedDesc | flask_fleem/theme.py:43-47 | `localized_desc`; its contract is carried by `LocalizedEntriesKeys`, `LocalizedEntriesLastWins` and `LocalizedDescEnglish` |
| ThemeInfo.LocalizedEntriesKeys | flask_themes/__init__.py:78-81 | a language code is in the comprehension exactly when some `description_*` key has that lowered suffix |
| ThemeInfo.LocalizedEntriesLastWins | flask_fleem/theme.py:43-46 | the value kept for a code is that of the last `description_*` key with that code |
| ThemeInfo.LocalizedDescEnglish | flask_fleem/theme.py:47 | `en` is always present; it is the base description only when no `description_*` key gave `en`; other codes are untouched, and the keys are the comprehension's plus `en` |
| ThemeInfo.GetOfDistinct | flask_fleem/theme.py:38-72 | for a decoded object (each key once), `info.get(k)` is `v` exactly when the entry `(k, v)` is in the info |
| ThemeInfo.JoinPathUnder | flask_fleem/theme.py:102 | joining a relative component places it directly under the directory |
| ThemeInfo.ThemeDir | flask_fleem/theme.py:97-109 | `static_path` and `templates_path`: the named directory directly under the theme root |
| ThemeInfo.StaticAndTemplatesDiffer | flask_themes/__init__.py:109-121 | a theme's static and templates directories are different paths, so the static route never serves the templates directory |
| ThemeInfo.BundleTagInjective | flask_fleem/theme.py:88 | the output tag `theme-<id>-packed<ext>` determines the identifier: different themes never share a bundle output |
| ThemeInfo.ReturnBundle | flask_fleem/theme.py:87-94 | no bundle exactly when there are no resources, in which case the message is "No <ext> resources for <name>"; otherwise the bundle packs the resources into the theme's tag with the given filter |
| Loaders.MatchesIdentifier | flask_fleem/theme_manager.py:7 | `IDENTIFIER.match`; what it accepts is stated by `PatternAcceptsTrailingNewline` and `MatchedNameIsSegment` |
| Loaders.PatternAcceptsTrailingNewline | flask_fleem/theme_manager.py:7 | for every identifier `t`, the pattern accepts `t` plus a newline, which is not itself an identifier |
| Loaders.MatchedNameIsSegment | flask_themes/__init__.py:35 | a name the pattern accepts is a single, non-empty path component that starts with a letter or underscore |
| Loaders.LoadThemesFrom | flask_fleem/theme_manager.py:23-37 | `load_themes_from`; its contract is carried by `AcceptedSpec`, `LoadThemesFromSpec` and `AcceptedFolders` |
| Loaders.AcceptedFolders | flask_fleem/theme_manager.py:30-37 | every theme a scan yields is the accepted theme of a listed folder named by its identifier, and every accepted listed folder is yielded |
| Loaders.AcceptedSpec | flask_fleem/theme_manager.py:30-37 | a folder's theme is yielded exactly when its name matches the pattern, its metadata builds, and the built identifier equals the folder name; never more themes than folders |
| Loaders.LoadThemesFromSpec | flask_themes/__init__.py:159-173 | a scan raises only when the directory itself cannot be listed; bad folders are skipped; every yielded theme is the built metadata of its own folder |
| Loaders.NewlineFolderAccepted | flask_fleem/theme_manager.py:30-37 | a folder named `t` plus a newline, for an identifier `t`, is yielded when its metadata builds with that same name as identifier |
| Loaders.PackagedThemesLoader | flask_fleem/theme_manager.py:40-51 | every theme it yields is the accepted theme of a folder directly under `<root_path>/themes`, named by its identifier, and every accepted folder there is yielded; it raises only when that path exists but cannot be listed |
| Loaders.ConfiguredPaths | flask_fleem/theme_manager.py:60-62 | a string setting becomes its `;`-separated pieces, each stripped; a sequence is used as it is; an unset setting gives no paths |
| Loaders.LoadAll | flask_fleem/theme_manager.py:63-65 | `starchain(load_themes_from(p) for p in paths)` raises exactly when some path cannot be listed; `LoadAllInPathOrder` and `LoadAllStopsAtUnlistable` say what it yields |
| Loaders.ThemePathsLoader | flask_fleem/theme_manager.py:54-65 | `theme_paths_loader` raises exactly when some configured path cannot be listed; `LoadAllIdentified` says what it yields |
| Loaders.LoadAllInPathOrder | flask_themes/__init__.py:196-201 | when every path can be listed, the themes are those of each path concatenated in path order, and the chain does not raise |
| Loaders.LoadAllStopsAtUnlistable | flask_fleem/theme_manager.py:63-65 | the chain raises at the first path that cannot be listed, after yielding the themes of the paths before it |
| Loaders.LoadAllIdentified | flask_fleem/theme_manager.py:54-65 | the theme-paths chain yields only themes whose identifier the pattern accepts |
| Loaders.Chain | flask_fleem/theme_manager.py:147 | `starchain(ldr(app) for ldr in loaders)` raises exactly when some loader raises |
| Loaders.ChainIdentified | flask_fleem/theme_manager.py:147 | a chain of built-in loaders yields only themes whose identifier the pattern accepts |
| Registry.Collect | flask_themes/__init__.py:280-283 | every stored theme sits under its own identifier and belongs to the application |
| Registry.CollectKeys | flask_fleem/theme_manager.py:146-149 | after a refresh an identifier is present exactly when some candidate of the application carries it |
| Registry.CollectLastWins | flask_themes/__init__.py:273-283 | the theme stored under an identifier is the last candidate of the application carrying it |
| Registry.BuiltInRegistryIdentified | flask_fleem/theme_manager.py:146-149 | after a refresh with built-in loaders, every registry key matches the pattern and holds no `/` |
| Registry.InsertById | flask_fleem/theme_manager.py:114 | inserting into an identifier-sorted list keeps it sorted and adds exactly the new theme |
| Registry.SortById | flask_fleem/theme_manager.py:110-114 | the result is sorted by identifier, has one entry per registered theme, and holds exactly the registry's themes |
| Registry.ThemeManager.constructor | flask_fleem/theme_manager.py:87-97 | without loaders (None or empty) the loaders are the packaged-themes and theme-paths loaders, in that order; otherwise the given ones; nothing is loaded yet |
| Registry.ThemeManager.ValidAppId | flask_fleem/theme_manager.py:128-136 | `valid_app_id`: exact equality with the configured identifier, through `AppIdAccepts`, the same test `Registers` and `Collect` use; `Refresh` stores a candidate only when it holds (`CollectKeys`, `CollectLastWins`) |
| Registry.ThemeManager.Refresh | flask_themes/__init__.py:273-283 | the map is discarded and refilled from the chained candidates, so it equals `Collect` of them; a loader that raises ends the refresh with what was stored so far |
| Registry.ThemeManager.Themes | flask_fleem/theme_manager.py:99-107 | refreshes only while nothing is loaded; once loaded, every later read returns the same map |
| Registry.ThemeManager.ListThemes | flask_themes/__init__.py:247-251 | the loaded themes, sorted by identifier, one per registry entry |
| TemplateNames.ActiveTheme | flask_fleem/fleem.py:56-62 | `active_theme`; its contract is carried by `ActiveThemeCases` and `ActiveThemeOfThemedName` |
| TemplateNames.ActiveThemeCases | flask_fleem/fleem.py:56-62 | the `_theme` entry wins; otherwise a `_themes/` name gives the segment after the prefix, which holds no `/`; the call fails exactly when neither applies |
| TemplateNames.ActiveThemeOfThemedName | flask_themes/__init__.py:404-410 | round trip: inside `_themes/<id>/<n>` with no `_theme` entry and no `/` in `id`, the active theme is `id` |
| TemplateNames.GlobalThemeTemplate | flask_fleem/fleem.py:80-87 | fails exactly when there is no active theme; otherwise the namespaced name when fallback is off or `template_exists` finds it among the environment's `list_templates()` (the set `listed`), else the bare name |
| TemplateNames.ThemeSource | flask_fleem/theme.py:126-131 | a theme's own `FileSystemLoader.get_source`: the normalised name looked up in the theme's templates directory; `ThemedNameListed` relates it to the listing |
| TemplateNames.GetSource | flask_fleem/theme.py:145-155 | `ThemeTemplateLoader.get_source`; its contract is carried by `GetSourceFinds`, `GetSourceSplits`, `GetSourceNotFound` and `GetSourceOfThemedName` |
| TemplateNames.GetSourceFinds | flask_themes/__init__.py:317-329 | a name that splits at its first `/` into theme and template resolves to that template of that theme; an unknown theme or missing template is TemplateNotFound for the whole name |
| TemplateNames.GetSourceSplits | flask_fleem/theme.py:145-153 | a resolved name splits at its first `/` into a registered theme and a template it has |
| TemplateNames.GetSourceNotFound | flask_fleem/theme.py:145-155 | every miss (no `/`, unknown theme, missing template) raises the same TemplateNotFound naming the stripped name |
| TemplateNames.ThemedNameParts | flask_fleem/fleem.py:83 | a namespaced name is `_themes/` followed by `<id>/<n>` |
| TemplateNames.KeptPieces | flask_fleem/theme.py:153 | the segments Jinja's `split_template_path` keeps are non-empty, not `.`, and taken from the name; a name with only such segments keeps them all |
| TemplateNames.KeptPiecesAppend | flask_fleem/theme.py:153 | the kept segments of a concatenation are those of each part in order, so the filter keeps every non-empty, non-`.` segment and preserves their order |
| TemplateNames.KeptPiecesOne | flask_fleem/theme.py:153 | a single segment is kept exactly when it is neither empty nor `.` |
| TemplateNames.NormalTemplate | flask_fleem/theme.py:153 | the name a theme's `FileSystemLoader` looks up; its contract is carried by `NormalTemplateSpec`, `NormalTemplateLeading` and `NormalTemplateSegments` |
| TemplateNames.NormalTemplateSpec | flask_fleem/theme.py:126-131 | the name a theme's `FileSystemLoader` looks up is canonical, and a name is looked up unchanged exactly when it is canonical |
| TemplateNames.NormalPiecesInsert | flask_fleem/theme.py:153 | inserting an empty or `.` segment anywhere leaves the looked-up name unchanged; inserting `..` anywhere makes the lookup fail |
| TemplateNames.NormalTemplateLeading | flask_fleem/theme.py:153 | a leading empty or `.` segment is dropped, so `/b` and `./b` load `b`; a leading `..` makes the lookup fail |
| TemplateNames.NormalTemplateInsert | flask_fleem/theme.py:153 | after a first segment `p`, an inserted empty or `.` segment is dropped and an inserted `..` makes the lookup fail |
| TemplateNames.NormalTemplateSegments | flask_fleem/theme.py:153 | for a first segment `a`: `a//b` and `a/./b` load `a/b`, and `a/../b` loads nothing |
| TemplateNames.CanonicalUnder | flask_fleem/theme.py:160 | `<id>/<n>` is canonical exactly when `id` is a proper segment and `n` is canonical |
| TemplateNames.GetSourceOfThemedName | flask_fleem/theme.py:145-155 | round trip: the blueprint and `flask_fleem` loaders resolve `_themes/<id>/<n>` to template `n` of theme `id` |
| TemplateNames.FleemGetSource | flask_fleem/theme.py:7 | with no manager under `extensions['fleem_manager']` every lookup is TemplateNotFound of the stripped name; with one, it is the lookup in that manager's themes |
| TemplateNames.UnregisteredManagerFindsNothing | flask_fleem/theme.py:145-151 | without the `fleem_manager` entry even a template of a registered theme is not found; with it the same name resolves |
| TemplateNames.ResolvedName | flask_fleem/theme.py:145-149 | a name the `flask_fleem` loader resolves under `_themes/` is `_themes/<id>/<n>` for a registered theme `id` (no `/` in it) whose loader finds `n` |
| TemplateNames.ThemedNameListed | flask_fleem/theme.py:157-162 | a template a registered theme's loader finds is listed under the namespaced form of its normalised name |
| TemplateNames.ListTemplates | flask_fleem/theme.py:157-162 | `ThemeTemplateLoader.list_templates`; its contract is carried by `ListedIsLoadable`, `LoadableIsListed` and `ListTemplatesMatchesGetSource` |
| TemplateNames.ListedIsLoadable | flask_themes/__init__.py:331-338 | every listed name is `_themes/<id>/<n>` for a registered `id` and a canonical `n`, and it can be loaded |
| TemplateNames.LoadableIsListed | flask_fleem/theme.py:157-162 | every loadable `_themes/<id>/<n>` is listed once `n` is normalised, and as it is when `n` is canonical |
| TemplateNames.ListedIsCanonical | flask_fleem/theme.py:157-162 | with pattern-matching identifiers, a listed name is loadable and canonical after the prefix |
| TemplateNames.CanonicalLoadableListed | flask_fleem/theme.py:145-162 | a loadable `_themes/` name that is canonical after the prefix is listed |
| TemplateNames.ListTemplatesMatchesGetSource | flask_fleem/theme.py:145-162 | with pattern-matching identifiers and directory listings as the walk gives them, a name is listed exactly when it starts with `_themes/`, the loader can load it, and it is canonical after the prefix |
| TemplateNames.RenderOnce | flask_fleem/fleem.py:115-116 | a render succeeds exactly when the template exists and pulls in nothing missing; otherwise the TemplateNotFound names the missing template itself or the one it pulls in |
| TemplateNames.RenderThemeTemplate | flask_fleem/fleem.py:96-122 | a Theme argument becomes its identifier, which is stored as `_theme`; the first attempt is the namespaced name; exactly one retry with the bare name, only when fallback is on and the first render raised TemplateNotFound (missing, or pulling in a missing template); without fallback that error escapes; a render's context has that theme active; when the themed template pulls in nothing missing and is listed exactly when it loads, the rendered name is what `global_theme_template` picks; when it loads but is not listed (a non-canonical name) and fallback is on, the themed template is rendered while `global_theme_template` picks the bare name |
| TemplateNames.StaticRoute | flask_fleem/fleem.py:177-183 | 404 exactly when the theme is not registered; otherwise the file under the theme's static directory, which is never its templates directory (`StaticAndTemplatesDiffer`) |
| Extension.InitAppIdentifierAsWritten | flask_fleem/fleem.py:163-166 | as written: the import name when no identifier is passed, otherwise whatever identifier the object already held |
| Extension.AsWrittenFromConstructor | flask_fleem/fleem.py:148-153 | called from the constructor, the code as written picks the intended identifier |
| Extension.InitAppDropsExplicitIdentifier | flask_fleem/fleem.py:163-166 | an explicit identifier passed to `init_app` on an object built without one is lost |
| Extension.InitAppIdentifier | flask_themes/__init__.py:393-394 | the given identifier when there is one, the application's import name otherwise |
| Extension.Fleem.constructor | flask_fleem/fleem.py:136-155 | keeps its settings; without an application the given `theme_manager` is kept and nothing is registered; with one it runs `init_app`: it builds a fresh manager under the chosen identifier and registers the blueprint at the URL prefix. It runs the corrected `init_app` of the flask_fleem/theme.py:7 finding, so it also stores the manager under `fleem_manager`, which the code as written does not |
| Extension.Fleem.InitApp | flask_fleem/fleem.py:163-169 | the manager is fresh, bound to the app, uses the chosen identifier and the given or default loaders; it is stored under `fleem_manager`, where the template loader reads it; the blueprint is registered at the URL prefix |
| Sandbox.MakePost | example/themesandbox.py:33-37 | a post is built exactly when `slug`, `body`, `title` and `created` are all present; otherwise the KeyError names the first missing one in that order |
| Sandbox.MakePosts | example/themesandbox.py:52 | the batch builds exactly when every document does, post for post; otherwise the error is that of a document preceded only by good ones |
| Sandbox.FirstClash | example/themesandbox.py:53-55 | the index of the first post whose slug clashes, which lies in the batch; `FirstClashSpec` says which post that is |
| Sandbox.ClashFromSpec | example/themesandbox.py:53-55 | the clash search finds the first post whose slug is already stored or repeats an earlier one in the batch, and finds none exactly when there is none |
| Sandbox.FirstClashSpec | example/themesandbox.py:53-55 | the same for the whole batch |
| Sandbox.Register | example/themesandbox.py:56 | storing posts under their slugs; its contract is carried by `RegisterFresh` and `RegisterKeys` |
| Sandbox.RegisterFresh | example/themesandbox.py:56 | while no slug clashes, storing keeps every old entry and each stored post is found under its slug |
| Sandbox.RegisterKeys | example/themesandbox.py:56 | after storing a batch the slugs present are the old ones and the batch's |
| Sandbox.BatchReachable | example/themesandbox.py:53-56 | with no clash, every post of the batch is reachable under its slug and old entries are kept |
| Sandbox.InsertDesc | example/themesandbox.py:58 | one insertion step of the newest-first sort; its contract is carried by `InsertDescMembers`, `InsertDescPermutes`, `InsertDescSorted` and `InsertDescStable` |
| Sandbox.InsertDescMembers | example/themesandbox.py:58 | an insertion holds exactly the old posts and the new one |
| Sandbox.InsertDescPermutes | example/themesandbox.py:58 | an insertion adds exactly one occurrence of the new post |
| Sandbox.InsertDescSorted | example/themesandbox.py:58 | inserting into a newest-first list keeps it newest first |
| Sandbox.SortDesc | example/themesandbox.py:57-58 | `sort(key=attrgetter('created'), reverse=True)`; its contract is carried by `SortDescSorted`, `SortDescPermutes`, `SortDescMembers` and `SortDescStable` |
| Sandbox.SortDescSorted | example/themesandbox.py:58 | the sort orders posts newest first |
| Sandbox.SortDescPermutes | example/themesandbox.py:57-58 | the sort is a permutation of its input, so the list grows by exactly the batch |
| Sandbox.SortDescMembers | example/themesandbox.py:57-58 | the sorted list holds exactly the posts it was given |
| Sandbox.SameTimeAppend | example/themesandbox.py:58 | the posts created at one time, taken from a concatenation, are those from each part, in order |
| Sandbox.InsertDescStable | example/themesandbox.py:58 | an insertion puts the new post after every post of the same time |
| Sandbox.SortDescStable | example/themesandbox.py:58 | stability: posts created at the same time keep their input order |
| Sandbox.PartialBatchKeepsIndex | example/themesandbox.py:53-56 | a batch cut short by a clash only adds new slugs, so the listed posts stay indexed |
| Sandbox.WholeBatchKeepsIndex | example/themesandbox.py:56-58 | after a clash-free batch is appended and sorted, each listed post is the one stored under its slug |
| Sandbox.PostStore.constructor | example/themesandbox.py:47-49 | the store starts empty |
| Sandbox.PostStore.RegisterBatch | example/themesandbox.py:53-56 | stores each post under its slug, stopping at the first clash; the list is untouched |
| Sandbox.PostStore.AddPosts | example/themesandbox.py:51-58 | a bad document changes nothing; a duplicate slug raises, leaves `by_date` unchanged, and leaves `by_slug` with the posts stored before it; otherwise `by_slug` gains every post and `by_date` becomes the stable newest-first sort of the old list plus the batch; the list stays sorted and indexed throughout |

## Left out

- Filesystem access is not modelled: `os.listdir`, `isdir`, `exists`, `open` and `os.path.abspath`. The directory listings and the decoded `info.json` of each folder are an input value (`Loaders.FileSystem`). Paths are not normalised.
- `list_folders`, `license_text` and `theme_files_of` are not modelled, because they only read the disk. `return_bundle` takes the resource list `theme_files_of` would return.
- JSON decoding is not modelled. Metadata arrives already decoded, and numbers are integers (floats are not modelled).
- ThemeInfo.ParseTheme: it rejects a required key whose value is not a string. The source instead builds such a theme and only drops it later, if at all. Integer or list identifiers are not modelled.
- Jinja is only partly modelled. Of `FileSystemLoader`, the model keeps the name normalisation and the lookup. Its directory walk is an input: each theme's templates directory lists canonical names (`TemplateDirs`, `Walked`). Separators other than `/` are not modelled.
- TemplateNames.RenderThemeTemplate: rendering is reduced to "which template, with which context". The templates the environment can load are an input set (`available`), and the names its `list_templates()` gives, which `template_exists` reads, are another (`listed`). The two are independent inputs: a name may load without being listed, or be listed without loading. So are the existing templates whose `extends` or `include` names a missing template (`raises`), each with the name it is missing. Template inheritance itself is not modelled.
- Render-context values are modelled as strings.
- The `.encode("utf8")` in `list_templates` is not modelled, and neither is Unicode in general: `lower()` and `strip()` cover ASCII only.
- `url_for`, `static_file_url` and `global_theme_static` are not modelled. They delegate to Flask's URL building.
- `send_from_directory` and `abort` are reduced to the pair (directory, file) and the status 404.
- `get_theme` is not modelled: it is a plain map lookup through Flask's context stack. `template_exists` is the membership test in `listed` inside `TemplateNames.GlobalThemeTemplate`.
- `get_themes_list` is not modelled. The `flask_themes` version lists `list_themes()`. The `flask_fleem` version (flask_fleem/fleem.py:48) calls `list()` on the method `list_themes` without calling it, which raises TypeError.
- In the static route and in `flask_themes`' `get_source`, the manager is reached through Flask's context stack as `app.theme_manager`. Here its registry is passed in directly.
- `flask_fleem`'s `list_templates` also reads `extensions['fleem_manager']`. As written it raises KeyError when the key is absent. `ListTemplates` models it with the manager's registry given, as the corrected `init_app` leaves it.
- Extension.Fleem.constructor: with an application it runs the corrected `init_app` of the flask_fleem/theme.py:7 finding, so the manager is stored under `fleem_manager`. The code as written stores nothing under that key; `TemplateNames.UnregisteredManagerFindsNothing` shows what follows from that.
- `bind_app` is not modelled: it sets `app.theme_manager`, and the model has no `Flask` object.
- `setup_themes` is not modelled separately. Its identifier default is `Extension.InitAppIdentifier`, and the rest is glue.
- `manager_cls` is not modelled: the manager class is always `ThemeManager`.
- Registering template globals and the Flask `Module` is not modelled. Of the blueprint, only its URL prefix is kept.
- `Fleem.query_manager` and the properties built on it are not modelled. They only look up attributes on the manager class.
- `register_theme_css` and `register_theme_js` are not modelled: they are empty stubs.
- The `flask.ext.assets` `Environment` is not modelled.
- The exact text of the manifest message in `return_bundle` is not modelled: only quote-free names get Python 2's `repr` of a list.
- `Post.content` is not modelled: it is HTML markup.
- Post dates: `created` is an integer. The example's YAML documents give dates. Only their order matters to the sort, and that order is what the integer stands for.
- The example application's views, session handling and YAML loading are not modelled.
- `new-theme.py` is not modelled: it only writes files.
- `setup.py` and `_compat.py` are not modelled.
- Concurrent refreshes are not modelled: the source does not support them.

## Findings

| source | as written | input that shows it | evidently intended | confidence | as-written member | corrected member |
|---|---|---|---|---|---|---|
| flask_fleem/fleem.py:163-166 | `init_app` assigns `self.app_identifier` only when the `app_identifier` argument is None, then builds the manager from `self.app_identifier` | `Fleem()` followed by `init_app(app, 'testing', ThemeManager, None)`: the manager is built with identifier None, so it accepts only themes whose `application` is JSON null, and never the app's own | use the given identifier, else the import name, as `setup_themes` does (flask_themes/__init__.py:393-395) | not executed | Extension.InitAppDropsExplicitIdentifier | Extension.Fleem.InitApp |
| flask_fleem/theme.py:7 | the template loader reads its manager from `current_app.extensions['fleem_manager']`, but nothing in the package stores that key; `init_app` sets only `self.theme_manager` (flask_fleem/fleem.py:166), and `bind_app` sets `app.theme_manager` | any `render_theme_template` with `_themes/cool/hello.html`, where theme `cool` has `hello.html`: the lookup raises KeyError inside the `try` and becomes TemplateNotFound | `init_app` stores the manager under `fleem_manager`, as tests/test_fleem.py:80 expects | not executed | TemplateNames.UnregisteredManagerFindsNothing | Extension.Fleem.InitApp |
