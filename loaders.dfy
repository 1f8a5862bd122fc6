/** Theme discovery: scanning a directory for theme folders, and the two
    built-in loaders (themes packaged with the application, and the folders
    named by the `THEME_PATHS` setting). The filesystem is an input value. */
module Loaders {
  import opened Wrappers
  import opened Text
  import opened ThemeInfo

  predicate IsIdentStart(c: char) {
    'a' <= c <= 'z' || 'A' <= c <= 'Z' || c == '_'
  }

  predicate IsIdentChar(c: char) {
    IsIdentStart(c) || '0' <= c <= '9'
  }

  /** `[a-zA-Z_][a-zA-Z0-9_]*` matched against the whole of `s`. */
  predicate IsIdentifier(s: string) {
    |s| >= 1 && IsIdentStart(s[0]) && forall i :: 1 <= i < |s| ==> IsIdentChar(s[i])
  }

  /** `IDENTIFIER.match(s)` for the pattern `^[a-zA-Z_][a-zA-Z0-9_]*$`.
      Python's `$` matches at the end of the text and also just before a
      newline that ends it. */
  predicate MatchesIdentifier(s: string) {
    IsIdentifier(s) || (|s| >= 2 && s[|s| - 1] == '\n' && IsIdentifier(s[..|s| - 1]))
  }

  /** The pattern lets through any identifier followed by one newline,
      although that name is not itself an identifier. */
  lemma PatternAcceptsTrailingNewline(t: string)
    requires IsIdentifier(t)
    ensures MatchesIdentifier(t + "\n") && !IsIdentifier(t + "\n")
  {
    var s := t + "\n";
    assert s[..|s| - 1] == t;
    assert s[|s| - 1] == '\n' && !IsIdentChar('\n');
  }

  /** A matching name is a single, non-empty path component that starts
      with a letter or an underscore (so it is neither `.` nor `..`). */
  lemma MatchedNameIsSegment(s: string)
    requires MatchesIdentifier(s)
    ensures '/' !in s && |s| >= 1 && IsIdentStart(s[0])
  {
    if IsIdentifier(s) {
      forall i | 0 <= i < |s| ensures s[i] != '/' {
        if i > 0 { assert IsIdentChar(s[i]); }
      }
    } else {
      var t := s[..|s| - 1];
      assert s[0] == t[0];
      forall i | 0 <= i < |s| ensures s[i] != '/' {
        if 0 < i < |s| - 1 { assert s[i] == t[i] && IsIdentChar(t[i]); }
      }
    }
  }

  /** What the loaders see of the disk: each directory with the names of
      its sub-directories in listing order, the other existing paths, and
      the decoded `info.json` of every theme root whose file exists and
      decodes. */
  datatype FileSystem = FileSystem(
    dirs: map<string, seq<string>>,
    files: set<string>,
    infos: map<string, Info>)

  predicate Exists(fs: FileSystem, p: string) {
    p in fs.dirs || p in fs.files
  }

  /** What a loader's iterator produces: the themes it yields, and whether
      it then raised (an unlistable directory). */
  datatype Scan = Scan(themes: seq<Theme>, failed: bool)

  /** Chaining two iterators: the second runs only if the first did not raise. */
  function Then(a: Scan, b: Scan): Scan {
    if a.failed then a else Scan(a.themes + b.themes, b.failed)
  }

  /** One step of the scan in `load_themes_from`: the theme a folder yields,
      or None when its name does not match, its metadata cannot be read or
      built, or its identifier is not the folder's name. */
  function Candidate(variant: Variant, fs: FileSystem, path: string, basename: string): Option<Theme> {
    if !MatchesIdentifier(basename) then None
    else
      var root := JoinPath(path, basename);
      if root !in fs.infos then None
      else
        match ParseTheme(variant, root, fs.infos[root])
        case Failure(_) => None
        case Success(t) => if t.identifier == basename then Some(t) else None
  }

  function Accepted(variant: Variant, fs: FileSystem, path: string, names: seq<string>): seq<Theme> {
    if names == [] then []
    else
      Accepted(variant, fs, path, names[..|names| - 1]) +
      match Candidate(variant, fs, path, names[|names| - 1])
      case Some(t) => [t]
      case None => []
  }

  /** `load_themes_from(path)`: raises when `path` cannot be listed;
      otherwise yields the accepted folders and skips the rest. */
  function LoadThemesFrom(variant: Variant, fs: FileSystem, path: string): Scan {
    if path in fs.dirs then Scan(Accepted(variant, fs, path, fs.dirs[path]), false)
    else Scan([], true)
  }

  /** A theme is yielded exactly when some listed folder is accepted, and
      every yielded theme passed all three checks for its folder. */
  lemma {:induction false} AcceptedSpec(variant: Variant, fs: FileSystem, path: string, names: seq<string>, t: Theme)
    ensures t in Accepted(variant, fs, path, names) <==>
            exists b :: b in names && Candidate(variant, fs, path, b) == Some(t)
    ensures t in Accepted(variant, fs, path, names) ==>
            && t.identifier in names
            && MatchesIdentifier(t.identifier)
            && JoinPath(path, t.identifier) in fs.infos
            && ParseTheme(variant, JoinPath(path, t.identifier), fs.infos[JoinPath(path, t.identifier)]) == Success(t)
    ensures |Accepted(variant, fs, path, names)| <= |names|
  {
    if names != [] {
      var init := names[..|names| - 1];
      var last := names[|names| - 1];
      AcceptedSpec(variant, fs, path, init, t);
      assert names == init + [last];
      if exists b :: b in names && Candidate(variant, fs, path, b) == Some(t) {
        var b :| b in names && Candidate(variant, fs, path, b) == Some(t);
        if b != last {
          assert b in init;
        }
      }
      if t in Accepted(variant, fs, path, names) && t !in Accepted(variant, fs, path, init) {
        assert Candidate(variant, fs, path, last) == Some(t);
      }
    }
  }

  /** `load_themes_from` never aborts on a bad folder: it fails only when
      the directory itself cannot be listed. */
  lemma LoadThemesFromSpec(variant: Variant, fs: FileSystem, path: string, t: Theme)
    ensures LoadThemesFrom(variant, fs, path).failed <==> path !in fs.dirs
    ensures t in LoadThemesFrom(variant, fs, path).themes <==>
            path in fs.dirs && exists b :: b in fs.dirs[path] && Candidate(variant, fs, path, b) == Some(t)
    ensures t in LoadThemesFrom(variant, fs, path).themes ==>
            MatchesIdentifier(t.identifier) && t.identifier in fs.dirs[path]
            && ParseTheme(variant, JoinPath(path, t.identifier), fs.infos[JoinPath(path, t.identifier)]) == Success(t)
  {
    if path in fs.dirs {
      AcceptedSpec(variant, fs, path, fs.dirs[path], t);
    }
  }

  /** A folder named `t` plus a newline is yielded when its metadata builds
      with that same name as identifier. */
  lemma NewlineFolderAccepted(variant: Variant, fs: FileSystem, path: string, t: string, theme: Theme)
    requires IsIdentifier(t)
    requires JoinPath(path, t + "\n") in fs.infos
    requires ParseTheme(variant, JoinPath(path, t + "\n"), fs.infos[JoinPath(path, t + "\n")]) == Success(theme)
    requires theme.identifier == t + "\n"
    ensures Candidate(variant, fs, path, t + "\n") == Some(theme)
    ensures !IsIdentifier(theme.identifier)
  {
    PatternAcceptsTrailingNewline(t);
  }

  /** Every theme in `ts` has an identifier the pattern accepts. */
  predicate Identified(ts: seq<Theme>) {
    forall t :: t in ts ==> MatchesIdentifier(t.identifier)
  }

  /** The host application as the loaders see it. */
  datatype App = App(importName: string, rootPath: string, themePaths: PathsSetting, fs: FileSystem)

  /** `app.config['THEME_PATHS']`: unset, a `;`-separated string, or a
      sequence of paths. */
  datatype PathsSetting = Unset | PathString(s: string) | PathList(paths: seq<string>)

  /** Every theme of a scan of `path` is its own folder's, and every folder
      accepted there is among them. */
  lemma AcceptedFolders(variant: Variant, fs: FileSystem, path: string)
    ensures forall t :: t in LoadThemesFrom(variant, fs, path).themes ==>
              path in fs.dirs && t.identifier in fs.dirs[path] && Candidate(variant, fs, path, t.identifier) == Some(t)
    ensures forall b :: path in fs.dirs && b in fs.dirs[path] && Candidate(variant, fs, path, b).Some? ==>
              Candidate(variant, fs, path, b).value in LoadThemesFrom(variant, fs, path).themes
  {
    forall t | t in LoadThemesFrom(variant, fs, path).themes
      ensures path in fs.dirs && t.identifier in fs.dirs[path] && Candidate(variant, fs, path, t.identifier) == Some(t)
    {
      LoadThemesFromSpec(variant, fs, path, t);
      var b :| b in fs.dirs[path] && Candidate(variant, fs, path, b) == Some(t);
    }
    forall b | path in fs.dirs && b in fs.dirs[path] && Candidate(variant, fs, path, b).Some?
      ensures Candidate(variant, fs, path, b).value in LoadThemesFrom(variant, fs, path).themes
    {
      LoadThemesFromSpec(variant, fs, path, Candidate(variant, fs, path, b).value);
    }
  }

  /** `packaged_themes_loader`: scans `<root_path>/themes` when it exists.
      It yields exactly the themes accepted from the folders directly under
      that directory, and raises only when the path exists but cannot be
      listed. */
  function PackagedThemesLoader(variant: Variant, app: App): (r: Scan)
    ensures var themesPath := JoinPath(app.rootPath, "themes");
            r.failed <==> Exists(app.fs, themesPath) && themesPath !in app.fs.dirs
    ensures var themesPath := JoinPath(app.rootPath, "themes");
            forall t :: t in r.themes ==>
              themesPath in app.fs.dirs && t.identifier in app.fs.dirs[themesPath]
              && Candidate(variant, app.fs, themesPath, t.identifier) == Some(t)
    ensures var themesPath := JoinPath(app.rootPath, "themes");
            forall b :: themesPath in app.fs.dirs && b in app.fs.dirs[themesPath]
                        && Candidate(variant, app.fs, themesPath, b).Some? ==>
              Candidate(variant, app.fs, themesPath, b).value in r.themes
  {
    var themesPath := JoinPath(app.rootPath, "themes");
    AcceptedFolders(variant, app.fs, themesPath);
    if Exists(app.fs, themesPath) then LoadThemesFrom(variant, app.fs, themesPath) else Scan([], false)
  }

  /** The directories `theme_paths_loader` scans: a string setting is split
      on `;` and each piece stripped; a sequence is used as it is. */
  function ConfiguredPaths(setting: PathsSetting): (paths: seq<string>)
    ensures setting.Unset? ==> paths == []
    ensures setting.PathList? ==> paths == setting.paths
    ensures setting.PathString? ==>
              |paths| == |Split(setting.s, ';')|
              && forall k :: 0 <= k < |paths| ==> paths[k] == Strip(Split(setting.s, ';')[k]) && ';' !in paths[k]
  {
    match setting
    case Unset => []
    case PathList(ps) => ps
    case PathString(s) =>
      var pieces := Split(s, ';');
      seq(|pieces|, k requires 0 <= k < |pieces| => StripKeepsOut(pieces[k], ';'); Strip(pieces[k]))
  }

  /** Stripping cannot introduce a character. */
  lemma StripKeepsOut(s: string, c: char)
    requires c !in s
    ensures c !in Strip(s)
  {
  }

  /** The themes found under each path, in path order. */
  function Loaded(variant: Variant, fs: FileSystem, paths: seq<string>): seq<seq<Theme>> {
    seq(|paths|, j requires 0 <= j < |paths| => LoadThemesFrom(variant, fs, paths[j]).themes)
  }

  function Concat(ss: seq<seq<Theme>>): seq<Theme> {
    if ss == [] then [] else Concat(ss[..|ss| - 1]) + ss[|ss| - 1]
  }

  /** `starchain(load_themes_from(p) for p in paths)`: it raises exactly
      when some path cannot be listed. */
  function LoadAll(variant: Variant, fs: FileSystem, paths: seq<string>): (r: Scan)
    ensures r.failed <==> exists k :: 0 <= k < |paths| && paths[k] !in fs.dirs
  {
    if paths == [] then Scan([], false)
    else
      var init := paths[..|paths| - 1];
      assert forall k :: 0 <= k < |init| ==> init[k] == paths[k];
      Then(LoadAll(variant, fs, init), LoadThemesFrom(variant, fs, paths[|paths| - 1]))
  }

  /** When every path can be listed, the scans are concatenated in path
      order and the chain does not raise. */
  lemma {:induction false} LoadAllInPathOrder(variant: Variant, fs: FileSystem, paths: seq<string>)
    requires forall j :: 0 <= j < |paths| ==> paths[j] in fs.dirs
    ensures LoadAll(variant, fs, paths) == Scan(Concat(Loaded(variant, fs, paths)), false)
  {
    if paths != [] {
      var n := |paths|;
      var init := paths[..n - 1];
      LoadAllInPathOrder(variant, fs, init);
      assert Loaded(variant, fs, paths)[..n - 1] == Loaded(variant, fs, init);
    }
  }

  /** The chain raises at the first path that cannot be listed, after
      yielding everything found under the paths before it; the paths after
      it are never scanned. */
  lemma {:induction false} LoadAllStopsAtUnlistable(variant: Variant, fs: FileSystem, paths: seq<string>, k: nat)
    requires k < |paths| && paths[k] !in fs.dirs
    requires forall j :: 0 <= j < k ==> paths[j] in fs.dirs
    ensures LoadAll(variant, fs, paths) == Scan(Concat(Loaded(variant, fs, paths[..k])), true)
  {
    var n := |paths|;
    var init := paths[..n - 1];
    if k == n - 1 {
      LoadAllInPathOrder(variant, fs, init);
      assert paths[..k] == init;
    } else {
      LoadAllStopsAtUnlistable(variant, fs, init, k);
      assert init[..k] == paths[..k];
    }
  }

  /** The chain over several paths yields only pattern-matching identifiers. */
  lemma {:induction false} LoadAllIdentified(variant: Variant, fs: FileSystem, paths: seq<string>)
    ensures Identified(LoadAll(variant, fs, paths).themes)
  {
    if paths != [] {
      var init := paths[..|paths| - 1];
      var last := paths[|paths| - 1];
      LoadAllIdentified(variant, fs, init);
      forall t | t in LoadThemesFrom(variant, fs, last).themes
        ensures MatchesIdentifier(t.identifier)
      {
        LoadThemesFromSpec(variant, fs, last, t);
      }
    }
  }

  /** `theme_paths_loader`: it raises exactly when a configured path
      cannot be listed. */
  function ThemePathsLoader(variant: Variant, app: App): (r: Scan)
    ensures r.failed <==> exists p :: p in ConfiguredPaths(app.themePaths) && p !in app.fs.dirs
  {
    LoadAll(variant, app.fs, ConfiguredPaths(app.themePaths))
  }

  /** A loader: one of the two built-in ones of a package, or any other
      callable, modelled by the candidates it returns. */
  datatype Loader = PackagedThemes(variant: Variant) | ThemePaths(variant: Variant) | Custom(candidates: seq<Theme>)

  function RunLoader(app: App, loader: Loader): Scan {
    match loader
    case PackagedThemes(v) => PackagedThemesLoader(v, app)
    case ThemePaths(v) => ThemePathsLoader(v, app)
    case Custom(cs) => Scan(cs, false)
  }

  /** `starchain(ldr(app) for ldr in loaders)`: it raises exactly when
      some loader raises. */
  function Chain(app: App, loaders: seq<Loader>): (r: Scan)
    ensures r.failed <==> exists k :: 0 <= k < |loaders| && RunLoader(app, loaders[k]).failed
  {
    if loaders == [] then Scan([], false)
    else
      var init := loaders[..|loaders| - 1];
      assert forall k :: 0 <= k < |init| ==> init[k] == loaders[k];
      Then(Chain(app, init), RunLoader(app, loaders[|loaders| - 1]))
  }

  /** The loaders a manager uses when it is given none. */
  function DefaultLoaders(variant: Variant): seq<Loader> {
    [PackagedThemes(variant), ThemePaths(variant)]
  }

  /** A loader that only yields what a directory scan accepts. */
  predicate BuiltIn(loader: Loader) {
    loader.PackagedThemes? || loader.ThemePaths?
  }

  /** A chain of built-in loaders yields only pattern-matching identifiers. */
  lemma {:induction false} ChainIdentified(app: App, loaders: seq<Loader>)
    requires forall j :: 0 <= j < |loaders| ==> BuiltIn(loaders[j])
    ensures Identified(Chain(app, loaders).themes)
  {
    if loaders != [] {
      var last := loaders[|loaders| - 1];
      ChainIdentified(app, loaders[..|loaders| - 1]);
      match last
      case PackagedThemes(v) =>
        var p := JoinPath(app.rootPath, "themes");
        forall t | t in PackagedThemesLoader(v, app).themes
          ensures MatchesIdentifier(t.identifier)
        {
          LoadThemesFromSpec(v, app.fs, p, t);
        }
      case ThemePaths(v) =>
        LoadAllIdentified(v, app.fs, ConfiguredPaths(app.themePaths));
    }
  }
}
