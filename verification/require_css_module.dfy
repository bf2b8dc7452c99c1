/** The parts of the default export of src/requireCssModule.js that decide
    names: the options looked up for a file's extension, and the function
    that turns a class name of that file into its scoped name. */
module RequireCssModule {
  import opened Wrappers
  import Chars
  import JsString
  import CssUnescape
  import LocalIdent

  // ---------------------------------------------------------------------
  // `getFiletypeOptions` (src/requireCssModule.js:51-56)

  /** `path.slice(path.lastIndexOf('.'))`: from the last `.` on. Without a
      `.`, `lastIndexOf` gives -1 and `slice(-1)` keeps the last character. */
  function Extension(path: string): (ext: string)
    ensures |ext| <= |path| && ext == path[|path| - |ext|..]
    ensures '.' in path ==> |ext| >= 1 && ext[0] == '.' && '.' !in ext[1..]
    ensures '.' !in path ==> ext == (if path == [] then [] else [path[|path| - 1]])
  {
    var i := JsString.LastIndexOf(path, '.');
    var ext := JsString.Slice(path, i, |path|);
    if '.' in path then
      assert 0 <= i && ext == path[i..];
      assert forall j :: 0 <= j < |ext| - 1 ==> ext[1..][j] == path[i + 1 + j];
      ext
    else
      ext
  }

  /** What `filetypes[extension]` gives: `null` when `filetypes` is
      falsy, the entry when there is one, `undefined` otherwise. */
  datatype Lookup<T> = Null | Undefined | Found(value: T)

  /** `getFiletypeOptions`. */
  function GetFiletypeOptions<T>(cssSourceFilePath: string, filetypes: Option<map<string, T>>): (r: Lookup<T>)
    ensures r.Null? <==> filetypes.None?
    ensures r.Found? <==> filetypes.Some? && Extension(cssSourceFilePath) in filetypes.value
    ensures r.Found? ==> r.value == filetypes.value[Extension(cssSourceFilePath)]
  {
    if filetypes.None? then Null
    else if Extension(cssSourceFilePath) in filetypes.value then Found(filetypes.value[Extension(cssSourceFilePath)])
    else Undefined
  }

  /** A file named `<stem>.<suffix>` gets the entry for `.<suffix>`,
      whatever dots the stem holds. */
  lemma FiletypeOfSuffix<T>(stem: string, suffix: string, filetypes: map<string, T>)
    requires '.' !in suffix
    ensures GetFiletypeOptions(stem + "." + suffix, Some(filetypes))
         == (if "." + suffix in filetypes then Found(filetypes["." + suffix]) else Undefined)
  {
    var path := stem + "." + suffix;
    assert path[|stem|] == '.';
    assert forall j :: |stem| < j < |path| ==> path[j] == suffix[j - |stem| - 1];
    assert JsString.LastIndexOf(path, '.') == |stem|;
    assert path[|stem|..] == "." + suffix;
  }

  /** The quirk of a path without `.`: its "extension" is its last
      character. */
  lemma FiletypeWithoutDot<T>(path: string, filetypes: map<string, T>)
    requires '.' !in path && path != []
    ensures GetFiletypeOptions(path, Some(filetypes))
         == (if [path[|path| - 1]] in filetypes then Found(filetypes[[path[|path| - 1]]]) else Undefined)
  {
  }

  // ---------------------------------------------------------------------
  // The `generateScopedName` dispatch (src/requireCssModule.js:117-159)

  /** The `generateScopedName` option: a function, a template string, or
      nothing. */
  datatype ScopedNameOption =
    | Callback(generate: (string, string) -> string)
    | Template(template: string)
    | Unset

  /** The options of the default export that the dispatch reads. */
  datatype Options = Options(generateScopedName: ScopedNameOption, context: Option<string>)

  /** `options.context || process.cwd()`. */
  function ContextOf(options: Options, cwd: string): (c: string)
    ensures c == cwd <==> options.context.None? || options.context.value == "" || options.context.value == cwd
    ensures options.context.Some? && options.context.value != "" ==> c == options.context.value
  {
    if options.context.Some? && options.context.value != "" then options.context.value else cwd
  }

  /** `options.generateScopedName || optionsDefaults.generateScopedName` on
      the path where it is not a function. */
  function TemplateOf(options: Options, defaultTemplate: string): string
  {
    if options.generateScopedName.Template? && options.generateScopedName.template != "" then
      options.generateScopedName.template
    else defaultTemplate
  }

  /** The options object literal of the default path: webpack's defaults,
      no salt, no `regExp`. */
  function DefaultIdentOptions(context: string): (o: LocalIdent.IdentOptions)
    ensures o.context == context
  {
    LocalIdent.IdentOptions(context, "md4", "hex", 20, "", "")
  }

  /** The `generateScopedName` closure chosen for the options: the user's
      function itself, or one that calls `getLocalIdent` on the unescaped
      class name. */
  function GenerateScopedName(host: LocalIdent.Host, cwd: string, defaultTemplate: string, options: Options): (string, string) -> string
  {
    if options.generateScopedName.Callback? then options.generateScopedName.generate
    else
      (clazz: string, resourcePath: string) =>
        LocalIdent.LocalIdentOf(host, LocalIdent.LoaderContext(resourcePath, None), TemplateOf(options, defaultTemplate),
          CssUnescape.Unescaped(clazz), DefaultIdentOptions(ContextOf(options, cwd)))
  }

  /** The default closure at work: it builds the options object, which
      `getLocalIdent` then fills in, and escapes nothing itself. */
  method DefaultScopedName(host: LocalIdent.Host, cwd: string, defaultTemplate: string, options: Options,
                           clazz: string, resourcePath: string)
    returns (name: string)
    requires !options.generateScopedName.Callback?
    ensures name == GenerateScopedName(host, cwd, defaultTemplate, options)(clazz, resourcePath)
  {
    var localName := CssUnescape.Unescape(clazz);
    var identOptions := new LocalIdent.LocalIdentOptions(DefaultIdentOptions(ContextOf(options, cwd)));
    name := LocalIdent.GetLocalIdent(host, LocalIdent.LoaderContext(resourcePath, None),
      TemplateOf(options, defaultTemplate), localName, identOptions);
  }

  // ---------------------------------------------------------------------
  // Properties

  /** A function option is used as it is: the class name is not unescaped
      and the result is not escaped. */
  lemma CallbackUsedAsIs(host: LocalIdent.Host, cwd: string, defaultTemplate: string, options: Options, clazz: string, resourcePath: string)
    requires options.generateScopedName.Callback?
    ensures GenerateScopedName(host, cwd, defaultTemplate, options)(clazz, resourcePath)
         == options.generateScopedName.generate(clazz, resourcePath)
  {
  }

  /** Otherwise the name is what `getLocalIdent` returns for the resource
      path alone, the configured or default template, the unescaped class
      name and the fixed defaults. */
  lemma DefaultCallsGetLocalIdent(host: LocalIdent.Host, cwd: string, defaultTemplate: string, options: Options,
                                  clazz: string, resourcePath: string)
    requires !options.generateScopedName.Callback?
    ensures GenerateScopedName(host, cwd, defaultTemplate, options)(clazz, resourcePath)
         == LocalIdent.LocalIdentOf(host, LocalIdent.LoaderContext(resourcePath, None),
              TemplateOf(options, defaultTemplate), CssUnescape.Unescaped(clazz),
              LocalIdent.IdentOptions(ContextOf(options, cwd), "md4", "hex", 20, "", ""))
  {
  }

  /** On the default path the name decodes to a safe identifier: no
      reserved filename character, control character or dot, and no
      leading digit. */
  lemma DefaultNameIsSafe(host: LocalIdent.Host, cwd: string, defaultTemplate: string, options: Options,
                          clazz: string, resourcePath: string)
    requires !options.generateScopedName.Callback?
    ensures var decoded := CssUnescape.Unescaped(GenerateScopedName(host, cwd, defaultTemplate, options)(clazz, resourcePath));
      (forall i :: 0 <= i < |decoded| ==> !LocalIdent.IsReserved(decoded[i]) && !LocalIdent.IsControl(decoded[i]) && decoded[i] != '.')
      && (decoded == [] || !Chars.IsDigit(decoded[0]))
  {
    LocalIdent.LocalIdentIsSafe(host, LocalIdent.LoaderContext(resourcePath, None), TemplateOf(options, defaultTemplate),
      CssUnescape.Unescaped(clazz), DefaultIdentOptions(ContextOf(options, cwd)));
  }

  /** The empty `regExp` default: the scoped name never depends on how the
      resource path would be matched. */
  lemma ScopedNameIgnoresRegExpMatch(host: LocalIdent.Host, cwd: string, defaultTemplate: string, options: Options,
                                     clazz: string, resourcePath: string,
                                     other: (string, string) -> Option<seq<Option<string>>>)
    ensures GenerateScopedName(host.(matchRegExp := other), cwd, defaultTemplate, options)(clazz, resourcePath)
         == GenerateScopedName(host, cwd, defaultTemplate, options)(clazz, resourcePath)
  {
    if !options.generateScopedName.Callback? {
      LocalIdent.EmptyRegExpIgnoresMatch(host, LocalIdent.LoaderContext(resourcePath, None), TemplateOf(options, defaultTemplate),
        CssUnescape.Unescaped(clazz), DefaultIdentOptions(ContextOf(options, cwd)), other);
    }
  }

  /** The empty salt default: only the content is hashed, so two hashes
      that agree on a single update give the same scoped name. */
  lemma ScopedNameHashesContentOnly(host: LocalIdent.Host, cwd: string, defaultTemplate: string, options: Options,
                                    clazz: string, resourcePath: string,
                                    other: (string, seq<string>, string) -> string)
    requires forall f, c, e :: other(f, [c], e) == host.digest(f, [c], e)
    ensures GenerateScopedName(host.(digest := other), cwd, defaultTemplate, options)(clazz, resourcePath)
         == GenerateScopedName(host, cwd, defaultTemplate, options)(clazz, resourcePath)
  {
    if !options.generateScopedName.Callback? {
      LocalIdent.EmptySaltHashesContentOnly(host, LocalIdent.LoaderContext(resourcePath, None), TemplateOf(options, defaultTemplate),
        CssUnescape.Unescaped(clazz), DefaultIdentOptions(ContextOf(options, cwd)), other);
    }
  }
}
