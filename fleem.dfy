/** The `Fleem` extension object: it remembers its settings and, once given
    an application, builds the application's ThemeManager. */
module Extension {
  import opened Wrappers
  import opened ThemeInfo
  import opened Loaders
  import opened Registry
  import opened TemplateNames

  /** The identifier `init_app` hands to the manager AS WRITTEN: the import
      name when no identifier is given, otherwise whatever the object had
      stored, ignoring the identifier passed in. */
  function InitAppIdentifierAsWritten(stored: Option<string>, given: Option<string>, importName: string): (r: Option<string>)
    ensures given.None? ==> r == Some(importName)
    ensures given.Some? ==> r == stored
  {
    if given.None? then Some(importName) else stored
  }

  /** Called from the constructor the stored and the given identifier are the
      same value, so there the code as written does what is intended. */
  lemma AsWrittenFromConstructor(given: Option<string>, importName: string)
    ensures InitAppIdentifierAsWritten(given, given, importName) == Some(InitAppIdentifier(given, importName))
  {
  }

  /** `Fleem()` followed by `init_app(app, 'testing', ...)`: the explicit
      identifier is lost and the manager is built with none. */
  lemma InitAppDropsExplicitIdentifier()
    ensures InitAppIdentifierAsWritten(None, Some("testing"), "app") == None
    ensures InitAppIdentifier(Some("testing"), "app") == "testing"
  {
  }

  /** The identifier `init_app` evidently means to use: the one given, or
      the application's import name when none is given. */
  function InitAppIdentifier(given: Option<string>, importName: string): (r: string)
    ensures given.Some? ==> r == given.value
    ensures given.None? ==> r == importName
  {
    given.GetOr(importName)
  }

  class Fleem {
    var app: Option<App>
    var loaders: Option<seq<Loader>>
    var appIdentifier: Option<string>
    var themeUrlPrefix: string
    /** `theme_manager`: the one given, replaced when an application is set up. */
    var manager: ThemeManager?
    /** The URL prefix the themes blueprint was registered under, if it was. */
    var blueprintPrefix: Option<string>
    /** The entries this object has stored in the application's
        `extensions` dictionary. */
    var extensions: map<string, ThemeManager>

    /** `Fleem(app, loaders, app_identifier, theme_manager=...,
        theme_url_prefix=...)`: keeps its arguments and, when an application
        is given, sets it up, which replaces the given manager. */
    constructor (app: Option<App>, loaders: Option<seq<Loader>>, appIdentifier: Option<string>,
                 themeManager: ThemeManager?, themeUrlPrefix: string)
      ensures this.app == app && this.loaders == loaders && this.themeUrlPrefix == themeUrlPrefix
      ensures app.None? ==>
                && manager == themeManager && blueprintPrefix.None? && extensions == map[]
                && this.appIdentifier == appIdentifier
      ensures app.Some? ==>
                && manager != null && fresh(manager) && manager.Valid() && !manager.loaded
                && manager.app == app.value
                && manager.appIdentifier == InitAppIdentifier(appIdentifier, app.value.importName)
                && this.appIdentifier == Some(manager.appIdentifier)
                && manager.loaders == (if loaders.None? || loaders.value == [] then DefaultLoaders(FlaskFleem) else loaders.value)
                && blueprintPrefix == Some(themeUrlPrefix)
                && extensions == map[ManagerKey := manager]
    {
      this.app := app;
      this.loaders := loaders;
      this.appIdentifier := appIdentifier;
      this.themeUrlPrefix := themeUrlPrefix;
      this.manager := themeManager;
      this.blueprintPrefix := None;
      this.extensions := map[];
      new;
      if app.Some? {
        InitApp(app.value, appIdentifier, loaders);
      }
    }

    /** `init_app(app, app_identifier, manager_class, loaders)`, with the
        identifier chosen by InitAppIdentifier: builds a fresh manager,
        stores it under `fleem_manager` where the template loader looks for
        it, and registers the themes blueprint under the URL prefix. */
    method InitApp(app: App, appIdentifier: Option<string>, loaders: Option<seq<Loader>>)
      modifies this
      ensures this.app == old(this.app) && this.loaders == old(this.loaders)
      ensures themeUrlPrefix == old(themeUrlPrefix)
      ensures this.appIdentifier == Some(InitAppIdentifier(appIdentifier, app.importName))
      ensures manager != null && fresh(manager) && manager.Valid() && !manager.loaded
      ensures manager.app == app && manager.appIdentifier == InitAppIdentifier(appIdentifier, app.importName)
      ensures manager.loaders == if loaders.None? || loaders.value == [] then DefaultLoaders(FlaskFleem) else loaders.value
      ensures blueprintPrefix == Some(themeUrlPrefix)
      ensures extensions == old(extensions)[ManagerKey := manager]
    {
      var id := InitAppIdentifier(appIdentifier, app.importName);
      this.appIdentifier := Some(id);
      manager := new ThemeManager(FlaskFleem, app, id, loaders);
      blueprintPrefix := Some(themeUrlPrefix);
      extensions := extensions[ManagerKey := manager];
    }
  }
}
