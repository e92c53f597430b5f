/** The language registry of crates/syntax/src/language.rs: languages by name and an
    extension table from file extensions to language names; a file name's language is
    found through the text after its last '.'. */
module SyntaxLanguage {
  import opened Wrappers

  /** The kinds of highlighted token. */
  datatype TokenType = Keyword | Function | Type | String | Comment | Number | Operator
                     | Variable | Punctuation | Property | Constant | None

  /** A language: its name and the file extensions it claims (the tree-sitter grammar
      and the highlight query it also carries are not part of this model). */
  datatype LanguageConfig = LanguageConfig(name: seq<char>, extensions: seq<seq<char>>)

  const RustConfig := LanguageConfig("rust", ["rs"])
  const JavaScriptConfig := LanguageConfig("javascript", ["js", "jsx", "mjs"])

  /** The extension table after mapping each of `exts` to `name`, in order: every listed
      extension now names `name`, every other entry is kept. */
  function WithExtensions(m: map<seq<char>, seq<char>>, exts: seq<seq<char>>, name: seq<char>)
    : (r: map<seq<char>, seq<char>>)
    ensures forall e :: e in r <==> e in m || e in exts
    ensures forall e :: e in exts ==> r[e] == name
    ensures forall e :: e in m && e !in exts ==> r[e] == m[e]
  {
    if exts == [] then m
    else WithExtensions(m, exts[..|exts| - 1], name)[exts[|exts| - 1] := name]
  }

  /** `filename.rsplit('.').next()`: the text after the last '.', or the whole name when
      it has no '.'. */
  function ExtensionOf(filename: seq<char>): (e: seq<char>)
    ensures '.' !in e
    ensures |e| <= |filename| && e == filename[|filename| - |e|..]
    ensures |e| < |filename| ==> filename[|filename| - |e| - 1] == '.'
  {
    if filename == [] then []
    else if filename[|filename| - 1] == '.' then []
    else
      var e := ExtensionOf(filename[..|filename| - 1]);
      assert filename[|filename| - |e| - 1..] == filename[..|filename| - 1][|filename| - 1 - |e|..] + [filename[|filename| - 1]];
      e + [filename[|filename| - 1]]
  }

  /** A name without '.' is its own extension. */
  lemma NoDotWholeName(filename: seq<char>)
    requires '.' !in filename
    ensures ExtensionOf(filename) == filename
  {
  }

  /** The language the tables give to the extension `ext`. */
  function LookupExtension(languages: map<seq<char>, LanguageConfig>, extensionMap: map<seq<char>, seq<char>>,
                           ext: seq<char>): Option<LanguageConfig>
  {
    if ext in extensionMap && extensionMap[ext] in languages then Some(languages[extensionMap[ext]])
    else Option.None
  }

  /** The language of a file name under the tables `languages` and `extensionMap`. */
  function Detect(languages: map<seq<char>, LanguageConfig>, extensionMap: map<seq<char>, seq<char>>,
                  filename: seq<char>): Option<LanguageConfig>
  {
    LookupExtension(languages, extensionMap, ExtensionOf(filename))
  }

  /** The builtin tables. */
  const BuiltinLanguages: map<seq<char>, LanguageConfig> := map["rust" := RustConfig, "javascript" := JavaScriptConfig]
  const BuiltinExtensionMap: map<seq<char>, seq<char>> :=
    map["rs" := "rust", "js" := "javascript", "jsx" := "javascript", "mjs" := "javascript"]

  /** A file whose extension is unmapped has no language. */
  lemma DetectUnmapped(languages: map<seq<char>, LanguageConfig>, extensionMap: map<seq<char>, seq<char>>,
                       filename: seq<char>)
    requires ExtensionOf(filename) !in extensionMap
    ensures Detect(languages, extensionMap, filename) == Option.None
  {
  }

  class LanguageRegistry {
    var languages: map<seq<char>, LanguageConfig>
    var extensionMap: map<seq<char>, seq<char>>

    /** `LanguageRegistry::new`: the two builtin languages registered. */
    constructor()
      ensures languages == BuiltinLanguages
      ensures extensionMap == BuiltinExtensionMap
    {
      languages := map[];
      extensionMap := map[];
      new;
      Register(RustConfig);
      Register(JavaScriptConfig);
      assert JavaScriptConfig.extensions[..2] == ["js", "jsx"];
      assert JavaScriptConfig.extensions[..1] == ["js"];
    }

    /** `register`: each extension of `config` mapped to its name, then the config stored
        under its name. */
    method Register(config: LanguageConfig)
      modifies this
      ensures extensionMap == WithExtensions(old(extensionMap), config.extensions, config.name)
      ensures languages == old(languages)[config.name := config]
    {
      for i := 0 to |config.extensions|
        invariant extensionMap == WithExtensions(old(extensionMap), config.extensions[..i], config.name)
        invariant languages == old(languages)
      {
        assert config.extensions[..i + 1][..i] == config.extensions[..i];
        extensionMap := extensionMap[config.extensions[i] := config.name];
      }
      assert config.extensions[..|config.extensions|] == config.extensions;
      languages := languages[config.name := config];
    }

    /** `detect_language`. */
    function DetectLanguage(filename: seq<char>): (r: Option<LanguageConfig>)
      reads this
      ensures r.Some? <==> ExtensionOf(filename) in extensionMap && extensionMap[ExtensionOf(filename)] in languages
      ensures r.Some? ==> r.value == languages[extensionMap[ExtensionOf(filename)]]
    {
      Detect(languages, extensionMap, filename)
    }

    /** `get_language`: the config registered under `name`, if any. */
    function GetLanguage(name: seq<char>): (r: Option<LanguageConfig>)
      reads this
      ensures r.Some? <==> name in languages
      ensures r.Some? ==> r.value == languages[name]
    {
      if name in languages then Some(languages[name]) else Option.None
    }
  }

  /** After registering `config`, every file with one of its extensions is detected as
      `config`, whatever was registered before. */
  lemma RegisteredDetected(languages: map<seq<char>, LanguageConfig>, extensionMap: map<seq<char>, seq<char>>,
                           config: LanguageConfig, filename: seq<char>)
    requires ExtensionOf(filename) in config.extensions
    ensures Detect(languages[config.name := config], WithExtensions(extensionMap, config.extensions, config.name),
                   filename) == Some(config)
  {
    var ext := ExtensionOf(filename);
    var m := WithExtensions(extensionMap, config.extensions, config.name);
    assert ext in m && m[ext] == config.name;
  }

  /** A later registration takes over the extensions it shares with an earlier one and
      leaves the earlier one's other extensions alone. */
  lemma LaterRegistrationOverrides(m: map<seq<char>, seq<char>>, a: LanguageConfig, b: LanguageConfig, e: seq<char>)
    requires e in a.extensions
    ensures var m2 := WithExtensions(WithExtensions(m, a.extensions, a.name), b.extensions, b.name);
      m2[e] == if e in b.extensions then b.name else a.name
  {
  }

  /** The builtin table: "rs" is Rust, "js", "jsx" and "mjs" are JavaScript, other
      extensions have no language. */
  lemma BuiltinExtensions(ext: seq<char>)
    ensures LookupExtension(BuiltinLanguages, BuiltinExtensionMap, ext) ==
      if ext == "rs" then Some(RustConfig)
      else if ext == "js" || ext == "jsx" || ext == "mjs" then Some(JavaScriptConfig)
      else Option.None
  {
    assert ext in BuiltinExtensionMap <==> ext == "rs" || ext == "js" || ext == "jsx" || ext == "mjs";
  }

  /** The extension of `stem.ext` is `ext` when `ext` has no '.'. */
  lemma {:induction false} ExtensionAfterDot(stem: seq<char>, ext: seq<char>)
    requires '.' !in ext
    ensures ExtensionOf(stem + "." + ext) == ext
    decreases |ext|
  {
    var f := stem + "." + ext;
    if ext == [] {
      assert f[|f| - 1] == '.';
    } else {
      assert f[..|f| - 1] == stem + "." + ext[..|ext| - 1];
      ExtensionAfterDot(stem, ext[..|ext| - 1]);
      assert ext[..|ext| - 1] + [ext[|ext| - 1]] == ext;
    }
  }

  /** "main.rs" is Rust. */
  lemma MainRsIsRust()
    ensures Detect(BuiltinLanguages, BuiltinExtensionMap, "main.rs") == Some(RustConfig)
  {
    assert "main.rs" == "main" + "." + "rs";
    ExtensionAfterDot("main", "rs");
    BuiltinExtensions("rs");
  }

  /** "app.test.mjs" is JavaScript: only the text after the last '.' counts. */
  lemma TestMjsIsJavaScript()
    ensures Detect(BuiltinLanguages, BuiltinExtensionMap, "app.test.mjs") == Some(JavaScriptConfig)
  {
    assert "app.test.mjs" == "app.test" + "." + "mjs";
    ExtensionAfterDot("app.test", "mjs");
    BuiltinExtensions("mjs");
  }

  /** "README" has no language. */
  lemma ReadmeHasNone()
    ensures Detect(BuiltinLanguages, BuiltinExtensionMap, "README") == Option.None
  {
    NoDotWholeName("README");
    BuiltinExtensions("README");
  }

  /** "rs." has no language: its extension is empty. */
  lemma TrailingDotHasNone()
    ensures Detect(BuiltinLanguages, BuiltinExtensionMap, "rs.") == Option.None
  {
    assert "rs." == "rs" + "." + [];
    ExtensionAfterDot("rs", []);
    BuiltinExtensions([]);
  }

  /** A file named just "rs" is Rust: a name without '.' is looked up whole. */
  lemma BareRsIsRust()
    ensures Detect(BuiltinLanguages, BuiltinExtensionMap, "rs") == Some(RustConfig)
  {
    NoDotWholeName("rs");
    BuiltinExtensions("rs");
  }
}
