/** A theme's metadata, built from the decoded `info.json` of its directory,
    and the values derived from it: the static and template directories and
    the asset bundle. Both packages construct themes the same way except for
    the default description. */
module ThemeInfo {
  import opened Wrappers
  import opened Text

  /** A decoded JSON value. Numbers are modelled as integers. */
  datatype Json =
    | Null
    | Bool(b: bool)
    | Num(n: int)
    | Str(s: string)
    | Arr(items: seq<Json>)
    | Obj(fields: map<string, Json>)

  /** The decoded `info.json` object: its entries in the order the
      dictionary yields them. */
  type Info = seq<(string, Json)>

  /** Which package's Theme class: `flask_themes` leaves a missing
      description as None, `flask_fleem` fills in the string "None". */
  datatype Variant = FlaskThemes | FlaskFleem

  datatype Theme = Theme(
    path: string,
    info: Info,
    name: string,
    application: string,
    identifier: string,
    description: Json,
    localizedDesc: map<string, Json>,
    author: string,
    license: Json,
    licenseUrl: Json,
    website: Json,
    preview: Json,
    doctype: Json,
    options: Json)

  /** Why constructing a Theme raised. */
  datatype ThemeError = MissingKey(key: string) | NotAString(key: string)

  const DescriptionPrefix := "description_"

  /** `info.get(k)`: the value stored under `k`, the later entry winning. */
  function Get(info: Info, k: string): Option<Json> {
    if info == [] then None
    else if info[|info| - 1].0 == k then Some(info[|info| - 1].1)
    else Get(info[..|info| - 1], k)
  }

  /** A decoded JSON object holds each key once. */
  predicate DistinctKeys(info: Info) {
    forall i, j :: 0 <= i < j < |info| ==> info[i].0 != info[j].0
  }

  /** For a decoded object, `Get` is the dictionary lookup: the value is
      the one entry with that key. */
  lemma {:induction false} GetOfDistinct(info: Info, k: string, v: Json)
    requires DistinctKeys(info)
    ensures Get(info, k) == Some(v) <==> (k, v) in info
  {
    if info != [] {
      var init := info[..|info| - 1];
      var last := info[|info| - 1];
      assert info == init + [last];
      GetOfDistinct(init, k, v);
      if last.0 == k {
        forall i | 0 <= i < |init| ensures init[i].0 != k {
          assert init[i] == info[i];
        }
      }
    }
  }

  function GetOr(info: Info, k: string, default: Json): Json {
    Get(info, k).GetOr(default)
  }

  /** `info[k]` for one of the four required keys. */
  function Required(info: Info, k: string): Result<string, ThemeError> {
    match Get(info, k)
    case None => Failure(MissingKey(k))
    case Some(Str(s)) => Success(s)
    case Some(_) => Failure(NotAString(k))
  }

  predicate IsDescriptionKey(k: string) {
    DescriptionPrefix <= k
  }

  /** The language code a `description_<X>` key stands for: `X` lowered.
      "description_" has its only underscore at its end, so the text after
      the first underscore is exactly `X`. */
  function LanguageOf(k: string): string
    requires IsDescriptionKey(k)
  {
    Lower(k[|DescriptionPrefix|..])
  }

  /** The dictionary comprehension over `info.items()` that collects the
      localized descriptions; a later key with the same code wins. */
  function LocalizedEntries(info: Info): map<string, Json> {
    if info == [] then map[]
    else
      var m := LocalizedEntries(info[..|info| - 1]);
      var (k, v) := info[|info| - 1];
      if IsDescriptionKey(k) then m[LanguageOf(k) := v] else m
  }

  /** `localized_desc` after `setdefault('en', description)`. */
  function LocalizedDesc(info: Info, description: Json): map<string, Json> {
    var m := LocalizedEntries(info);
    if "en" in m then m else m["en" := description]
  }

  function DefaultDescription(variant: Variant): Json {
    match variant
    case FlaskThemes => Null
    case FlaskFleem => Str("None")
  }

  /** `Theme.__init__` once `info.json` has been read and decoded: the
      required keys are looked up in the source's order, so the error
      names the first one that is missing. */
  function ParseTheme(variant: Variant, path: string, info: Info): (r: Result<Theme, ThemeError>)
    ensures r.Success? ==> r.value.path == path && r.value.info == info
  {
    var name :- Required(info, "name");
    var application :- Required(info, "application");
    var identifier :- Required(info, "identifier");
    var description := GetOr(info, "description", DefaultDescription(variant));
    var author :- Required(info, "author");
    Success(Theme(
      path, info, name, application, identifier, description,
      LocalizedDesc(info, description), author,
      GetOr(info, "license", Null), GetOr(info, "license_url", Null),
      GetOr(info, "website", Null), GetOr(info, "preview", Null),
      GetOr(info, "doctype", Str("html5")), GetOr(info, "options", Obj(map[]))))
  }

  const RequiredKeys: seq<string> := ["name", "application", "identifier", "author"]

  /** Construction succeeds exactly when all four required keys hold
      strings; otherwise the error names the first offending key. */
  lemma ParseThemeRequiredKeys(variant: Variant, path: string, info: Info)
    ensures ParseTheme(variant, path, info).Success? <==>
            forall k :: k in RequiredKeys ==> Required(info, k).Success?
    ensures ParseTheme(variant, path, info).Failure? ==>
            exists i :: 0 <= i < |RequiredKeys|
              && Required(info, RequiredKeys[i]).Failure?
              && ParseTheme(variant, path, info).error == Required(info, RequiredKeys[i]).error
              && forall j :: 0 <= j < i ==> Required(info, RequiredKeys[j]).Success?
  {
    var r := ParseTheme(variant, path, info);
    if Required(info, "name").Failure? {
      assert r.error == Required(info, RequiredKeys[0]).error;
    } else if Required(info, "application").Failure? {
      assert r.error == Required(info, RequiredKeys[1]).error;
    } else if Required(info, "identifier").Failure? {
      assert r.error == Required(info, RequiredKeys[2]).error;
    } else if Required(info, "author").Failure? {
      assert r.error == Required(info, RequiredKeys[3]).error;
    }
  }

  /** The fields of a constructed theme: the required keys copied, the
      optional ones copied when present and defaulted otherwise. */
  lemma ParseThemeFields(variant: Variant, path: string, info: Info)
    requires ParseTheme(variant, path, info).Success?
    ensures var t := ParseTheme(variant, path, info).value;
      && Get(info, "name") == Some(Str(t.name))
      && Get(info, "application") == Some(Str(t.application))
      && Get(info, "identifier") == Some(Str(t.identifier))
      && Get(info, "author") == Some(Str(t.author))
      && t.description == GetOr(info, "description", DefaultDescription(variant))
      && t.license == GetOr(info, "license", Null)
      && t.licenseUrl == GetOr(info, "license_url", Null)
      && t.website == GetOr(info, "website", Null)
      && t.preview == GetOr(info, "preview", Null)
      && t.doctype == GetOr(info, "doctype", Str("html5"))
      && t.options == GetOr(info, "options", Obj(map[]))
      && t.localizedDesc == LocalizedDesc(info, t.description)
  {
  }

  /** A code is in `localized_desc` exactly when some `description_*` key
      lowers to it, or it is "en". */
  lemma {:induction false} LocalizedEntriesKeys(info: Info, code: string)
    ensures code in LocalizedEntries(info) <==>
            exists i :: 0 <= i < |info| && IsDescriptionKey(info[i].0) && LanguageOf(info[i].0) == code
  {
    if info != [] {
      var init := info[..|info| - 1];
      LocalizedEntriesKeys(init, code);
      if code in LocalizedEntries(init) {
        var i :| 0 <= i < |init| && IsDescriptionKey(init[i].0) && LanguageOf(init[i].0) == code;
        assert info[i] == init[i];
      }
      if exists i :: 0 <= i < |info| && IsDescriptionKey(info[i].0) && LanguageOf(info[i].0) == code {
        var i :| 0 <= i < |info| && IsDescriptionKey(info[i].0) && LanguageOf(info[i].0) == code;
        if i < |init| {
          assert init[i] == info[i];
        }
      }
    }
  }

  /** The value stored for a code comes from the LAST `description_*` key
      that lowers to it. */
  lemma {:induction false} LocalizedEntriesLastWins(info: Info, code: string)
    requires code in LocalizedEntries(info)
    ensures exists i :: 0 <= i < |info| && IsDescriptionKey(info[i].0) && LanguageOf(info[i].0) == code
                        && LocalizedEntries(info)[code] == info[i].1
                        && forall j :: i < j < |info| ==> !(IsDescriptionKey(info[j].0) && LanguageOf(info[j].0) == code)
  {
    var init := info[..|info| - 1];
    var (k, v) := info[|info| - 1];
    if IsDescriptionKey(k) && LanguageOf(k) == code {
      assert LocalizedEntries(info)[code] == info[|info| - 1].1;
    } else {
      LocalizedEntriesLastWins(init, code);
      var i :| 0 <= i < |init| && IsDescriptionKey(init[i].0) && LanguageOf(init[i].0) == code
                && LocalizedEntries(init)[code] == init[i].1
                && forall j :: i < j < |init| ==> !(IsDescriptionKey(init[j].0) && LanguageOf(init[j].0) == code);
      assert info[i] == init[i];
      forall j | i < j < |info|
        ensures !(IsDescriptionKey(info[j].0) && LanguageOf(info[j].0) == code)
      {
        if j < |init| {
          assert info[j] == init[j];
        }
      }
    }
  }

  /** `setdefault('en', description)`: "en" falls back to the base
      description only when no `description_*` key supplied it, and the
      other codes are left alone. */
  lemma LocalizedDescEnglish(info: Info, description: Json)
    ensures "en" in LocalizedDesc(info, description)
    ensures (forall i :: 0 <= i < |info| && IsDescriptionKey(info[i].0) ==> LanguageOf(info[i].0) != "en")
            ==> LocalizedDesc(info, description)["en"] == description
    ensures forall code :: code in LocalizedEntries(info) ==>
              code in LocalizedDesc(info, description) &&
              LocalizedDesc(info, description)[code] == LocalizedEntries(info)[code]
    ensures LocalizedDesc(info, description).Keys == LocalizedEntries(info).Keys + {"en"}
  {
    LocalizedEntriesKeys(info, "en");
  }

  /** `os.path.join(a, b)` for two POSIX path components. */
  function JoinPath(a: string, b: string): string {
    if |b| > 0 && b[0] == '/' then b
    else if a == [] || a[|a| - 1] == '/' then a + b
    else a + "/" + b
  }

  /** A relative component is placed directly under the directory. */
  lemma JoinPathUnder(a: string, b: string)
    requires b != [] && b[0] != '/'
    ensures a <= JoinPath(a, b)
    ensures JoinPath(a, b)[|a|..] == b || JoinPath(a, b)[|a|..] == "/" + b
  {
  }

  /** A directory directly under the theme's root. */
  function ThemeDir(t: Theme, sub: string): (r: string)
    requires sub != [] && sub[0] != '/'
    ensures t.path <= r && (r[|t.path|..] == sub || r[|t.path|..] == "/" + sub)
  {
    JoinPathUnder(t.path, sub);
    JoinPath(t.path, sub)
  }

  /** `static_path`. */
  function StaticPath(t: Theme): string {
    ThemeDir(t, "static")
  }

  /** `templates_path`. */
  function TemplatesPath(t: Theme): string {
    ThemeDir(t, "templates")
  }

  lemma StaticAndTemplatesDiffer(t: Theme)
    ensures StaticPath(t) != TemplatesPath(t)
  {
    var s, p, n := StaticPath(t), TemplatesPath(t), |t.path|;
    assert s[n..] != p[n..];
  }

  datatype Bundle = Bundle(contents: seq<string>, output: string, filters: string)

  /** What `return_bundle` returns: a message and, when the theme has
      resources of that kind, the bundle packing them. */
  datatype BundleResult = BundleResult(message: string, bundle: Option<Bundle>)

  /** `"theme-{}-packed{}".format(identifier, extension)`. */
  function BundleTag(identifier: string, extension: string): string {
    "theme-" + identifier + "-packed" + extension
  }

  /** The tag names the theme: two themes never share an output file for
      the same extension. */
  lemma BundleTagInjective(id1: string, id2: string, extension: string)
    requires BundleTag(id1, extension) == BundleTag(id2, extension)
    ensures id1 == id2
  {
    var t := BundleTag(id1, extension);
    assert |id1| == |id2|;
    assert id1 == t[6..6 + |id1|];
    assert id2 == t[6..6 + |id2|];
  }

  /** Python 2's repr of a list of plain ASCII strings without quotes or
      backslashes: `['a', 'b']`. */
  function ReprList(items: seq<string>): string {
    "[" + ReprItems(items) + "]"
  }

  function ReprItems(items: seq<string>): string {
    if items == [] then ""
    else if |items| == 1 then "'" + items[0] + "'"
    else "'" + items[0] + "', " + ReprItems(items[1..])
  }

  /** `return_bundle(extension, resource_filter)`, given the files
      `theme_files_of(extension)` found. */
  function ReturnBundle(t: Theme, extension: string, filters: string, resources: seq<string>): (r: BundleResult)
    ensures r.bundle.None? <==> resources == []
    ensures r.bundle.Some? ==> r.bundle.value == Bundle(resources, BundleTag(t.identifier, extension), filters)
    ensures resources == [] ==> r.message == "No " + extension + " resources for " + t.name
  {
    if resources != [] then
      BundleResult(extension + " for theme " + t.name + " == " + ReprList(resources),
                   Some(Bundle(resources, BundleTag(t.identifier, extension), filters)))
    else
      BundleResult("No " + extension + " resources for " + t.name, None)
  }
}
