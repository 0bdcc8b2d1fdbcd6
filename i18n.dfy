// The path and translation helpers of src/utils/i18n.ts: a site served in
// Japanese at unprefixed paths and in English under `/en`, with `ja` as the
// default language; translations are a tree of objects keyed by the dotted
// parts of a translation key, with `{{name}}` placeholders in the texts.

module I18n {
  import opened Common
  import opened Text

  // ---------------------------------------------------------------- languages

  datatype Language = Ja | En
  {
    /** The language code as it appears in paths and in `SupportedLanguage`. */
    function Code(): string
    {
      match this
      case Ja => "ja"
      case En => "en"
    }
  }

  const DefaultLanguage: Language := Ja

  /** `SUPPORTED_LANGUAGES`, in declaration order. */
  const SupportedLanguages: seq<Language> := [Ja, En]

  /** `SUPPORTED_LANGUAGES.includes(code)`, giving the language found. */
  function LanguageOfCode(code: string): (r: Option<Language>)
    ensures r.Some? ==> r.value.Code() == code
    ensures r.None? ==> code != "ja" && code != "en"
  {
    assert Ja in SupportedLanguages && En in SupportedLanguages;
    assert Ja.Code() == "ja" && En.Code() == "en";
    FindLanguage(SupportedLanguages, code)
  }

  function FindLanguage(langs: seq<Language>, code: string): (r: Option<Language>)
    ensures r.Some? ==> r.value in langs && r.value.Code() == code
    ensures r.None? ==> forall l :: l in langs ==> l.Code() != code
  {
    if |langs| == 0 then None
    else if langs[0].Code() == code then Some(langs[0])
    else FindLanguage(langs[1..], code)
  }

  /** `isValidLanguage`: true exactly for the two supported codes. */
  function IsValidLanguage(code: string): (r: bool)
    ensures r <==> code == "ja" || code == "en"
  {
    LanguageOfCode(code).Some?
  }

  /** `ensureValidLanguage`: the language a valid code names, the default otherwise. */
  function EnsureValidLanguage(code: string): (r: Language)
    ensures IsValidLanguage(code) ==> r.Code() == code
    ensures !IsValidLanguage(code) ==> r == DefaultLanguage
  {
    match LanguageOfCode(code)
    case Some(l) => l
    case None => DefaultLanguage
  }

  /** Validating a language's own code gives that language back. */
  lemma {:induction false} EnsureValidCode(l: Language)
    ensures EnsureValidLanguage(l.Code()) == l
  {
    match l
    case Ja =>
    case En => assert LanguageOfCode("en") == Some(En);
  }

  datatype Direction = Ltr | Rtl

  /** The right-to-left languages among the supported ones: none at present. */
  const RtlLanguages: seq<Language> := []

  /** `getLanguageDirection`: every supported language is written left to right. */
  function GetLanguageDirection(lang: Language): (r: Direction)
    ensures r == Ltr
  {
    if lang in RtlLanguages then Rtl else Ltr
  }

  // -------------------------------------------------------------------- paths

  /** `path.split('/').filter(Boolean)`: the non-empty pieces between slashes, in order. */
  function Segments(path: string): (segs: seq<string>)
    ensures segs == Filter(Split(path, '/'), IsNonEmpty)
    ensures forall i :: 0 <= i < |segs| ==> segs[i] != "" && '/' !in segs[i]
  {
    NonEmpty(Split(path, '/'))
  }

  /** The segment list without a leading language segment, when there is one. */
  function DropLanguage(segs: seq<string>): seq<string>
  {
    if |segs| > 0 && LanguageOfCode(segs[0]).Some? then segs[1..] else segs
  }

  /** A path written from non-empty, slash-free segments. */
  function CanonicalPath(segs: seq<string>): string
  {
    "/" + Join(segs, '/')
  }

  /** A canonical path splits back into the segments it was written from. */
  lemma {:induction false} SegmentsOfCanonical(segs: seq<string>)
    requires forall i :: 0 <= i < |segs| ==> segs[i] != "" && '/' !in segs[i]
    ensures Segments(CanonicalPath(segs)) == segs
  {
    if |segs| == 0 {
      assert CanonicalPath(segs) == "" + ['/'] + "";
      SplitAtFirstSeparator("", '/', "");
      assert Split("", '/') == [""];
      assert NonEmpty(["", ""]) == [];
    } else {
      assert CanonicalPath(segs) == "" + ['/'] + Join(segs, '/');
      SplitAtFirstSeparator("", '/', Join(segs, '/'));
      SplitJoin(segs, '/');
      NonEmptyKeepsAll(segs);
      assert ([""] + segs)[1..] == segs;
    }
  }

  /** `detectLanguageFromPath`: the first segment when it is a language code, the default otherwise. */
  function DetectLanguageFromPath(path: string): (r: Language)
    ensures r == En <==> |Segments(path)| > 0 && Segments(path)[0] == "en"
  {
    var segs := Segments(path);
    if |segs| > 0 && LanguageOfCode(segs[0]).Some? then LanguageOfCode(segs[0]).value
    else DefaultLanguage
  }

  /**
   * `removeLanguageFromPath`: the path rebuilt from its non-empty segments,
   * without a leading language segment. The result always starts with `/`, has
   * no empty segment, and its segments are the input's minus at most the first.
   */
  function RemoveLanguageFromPath(path: string): (r: string)
    ensures |r| > 0 && r[0] == '/'
    ensures Segments(r) == DropLanguage(Segments(path))
    ensures r == CanonicalPath(Segments(r))
  {
    var segs := DropLanguage(Segments(path));
    SegmentsOfCanonical(segs);
    CanonicalPath(segs)
  }

  /** The canonical path of no segments is `/`, and no other canonical path is. */
  lemma CanonicalRoot(segs: seq<string>)
    requires forall i :: 0 <= i < |segs| ==> segs[i] != ""
    ensures CanonicalPath(segs) == "/" <==> segs == []
  {
    if segs != [] {
      if |segs| == 1 {
        assert Join(segs, '/') == segs[0];
      }
      assert |Join(segs, '/')| > 0;
    }
  }

  /**
   * `addLanguageToPath`: the default language leaves the path untouched; any
   * other language prefixes the cleaned path with its code.
   */
  function AddLanguageToPath(path: string, lang: Language): (r: string)
    ensures lang == DefaultLanguage ==> r == path
  {
    if lang == DefaultLanguage then path
    else
      var cleanPath := RemoveLanguageFromPath(path);
      "/" + lang.Code() + (if cleanPath == "/" then "" else cleanPath)
  }

  /**
   * Adding English yields the canonical path of `en` followed by the cleaned
   * input's segments: it detects as English and cleans back to the cleaned input.
   */
  lemma AddEnglish(path: string)
    ensures var r := AddLanguageToPath(path, En);
      r == CanonicalPath(["en"] + Segments(RemoveLanguageFromPath(path)))
      && Segments(r) == ["en"] + Segments(RemoveLanguageFromPath(path))
      && DetectLanguageFromPath(r) == En
      && RemoveLanguageFromPath(r) == RemoveLanguageFromPath(path)
  {
    PrefixedPath(RemoveLanguageFromPath(path), En);
  }

  /** Prefixing a cleaned path with a language code adds exactly one leading segment. */
  lemma {:induction false} PrefixedPath(cleanPath: string, lang: Language)
    requires cleanPath == CanonicalPath(Segments(cleanPath))
    ensures var r := "/" + lang.Code() + (if cleanPath == "/" then "" else cleanPath);
      r == CanonicalPath([lang.Code()] + Segments(cleanPath))
      && Segments(r) == [lang.Code()] + Segments(cleanPath)
  {
    var segs := Segments(cleanPath);
    var r := "/" + lang.Code() + (if cleanPath == "/" then "" else cleanPath);
    var code := lang.Code();
    CanonicalRoot(segs);
    var all := [code] + segs;
    assert forall i :: 0 <= i < |all| ==> all[i] != "" && '/' !in all[i];
    if segs == [] {
      assert r == "/" + code;
      assert Join(all, '/') == code;
    } else {
      assert all[1..] == segs;
      assert Join(all, '/') == code + ['/'] + Join(segs, '/');
      assert r == "/" + (code + ['/'] + Join(segs, '/'));
    }
    assert r == CanonicalPath(all);
    SegmentsOfCanonical(all);
  }

  /**
   * `getLocalizedPath`: the path cleaned of its language and re-prefixed for
   * the target; the current language plays no part.
   */
  function GetLocalizedPath(path: string, currentLang: Language, targetLang: Language): (r: string)
    ensures targetLang == DefaultLanguage ==> r == RemoveLanguageFromPath(path)
    ensures targetLang == En ==> DetectLanguageFromPath(r) == En
    ensures targetLang == En ==> Segments(r) == ["en"] + DropLanguage(DropLanguage(Segments(path)))
    ensures targetLang == En ==> r == CanonicalPath(["en"] + DropLanguage(DropLanguage(Segments(path))))
    ensures |r| > 0 && r[0] == '/'
  {
    var cleanPath := RemoveLanguageFromPath(path);
    AddEnglish(cleanPath);
    AddLanguageToPath(cleanPath, targetLang)
  }

  /**
   * Switching to the default language yields a path that detects as the
   * default exactly when the segment after a dropped language segment is not
   * itself a language code (`/en/en/x` becomes `/en/x`).
   */
  lemma {:induction false} LocalizedToDefault(path: string, currentLang: Language)
    ensures DetectLanguageFromPath(GetLocalizedPath(path, currentLang, Ja)) == Ja
      <==> (|DropLanguage(Segments(path))| == 0 || DropLanguage(Segments(path))[0] != "en")
  {
    var r := GetLocalizedPath(path, currentLang, Ja);
    assert Segments(r) == DropLanguage(Segments(path));
  }

  /**
   * `generateLocalizedRoutes`: fills a record with one path per supported
   * language, each the base path with that language added.
   */
  method GenerateLocalizedRoutes(basePath: string) returns (routes: map<Language, string>)
    ensures routes.Keys == {Ja, En}
    ensures routes[Ja] == basePath
    ensures DetectLanguageFromPath(routes[En]) == En
    ensures RemoveLanguageFromPath(routes[En]) == RemoveLanguageFromPath(basePath)
    ensures routes[En] == CanonicalPath(["en"] + Segments(RemoveLanguageFromPath(basePath)))
  {
    routes := map[];
    var i := 0;
    while i < |SupportedLanguages|
      invariant 0 <= i <= |SupportedLanguages|
      invariant routes.Keys == set k | 0 <= k < i :: SupportedLanguages[k]
      invariant forall l :: l in routes ==> routes[l] == AddLanguageToPath(basePath, l)
    {
      var lang := SupportedLanguages[i];
      routes := routes[lang := AddLanguageToPath(basePath, lang)];
      i := i + 1;
    }
    assert routes.Keys == {SupportedLanguages[0], SupportedLanguages[1]};
    AddEnglish(basePath);
  }

  /** `getLocalizedMeta`'s reading of a record entry: a missing entry is `undefined`, as falsy as "". */
  function MetaEntry(content: map<Language, string>, lang: Language): string
  {
    if lang in content then content[lang] else ""
  }

  /**
   * `getLocalizedMeta`: the text for the requested language, falling back to
   * the default language's text, and to "" when both are empty or missing.
   */
  function GetLocalizedMeta(content: map<Language, string>, lang: Language): (r: string)
    ensures MetaEntry(content, lang) != "" ==> r == content[lang]
    ensures MetaEntry(content, lang) == "" && MetaEntry(content, DefaultLanguage) != "" ==> r == content[DefaultLanguage]
    ensures r == "" <==> MetaEntry(content, lang) == "" && MetaEntry(content, DefaultLanguage) == ""
  {
    if MetaEntry(content, lang) != "" then MetaEntry(content, lang)
    else if MetaEntry(content, DefaultLanguage) != "" then MetaEntry(content, DefaultLanguage)
    else ""
  }

  // ------------------------------------------------------------- translation

  /**
   * A translation tree: a string, an object keyed by key segments, or any
   * other JSON value (number, boolean, null), which can be neither walked into
   * nor returned.
   */
  datatype Translation = Text(text: string) | Object(entries: map<string, Translation>) | Scalar

  /**
   * The value the lookup loop reaches by walking `keys` from `root`, or None
   * when some step meets a non-object or a missing key.
   */
  function Lookup(root: Translation, keys: seq<string>): Option<Translation>
  {
    if |keys| == 0 then Some(root)
    else
      match Lookup(root, keys[..|keys| - 1])
      case Some(Object(m)) =>
        if keys[|keys| - 1] in m then Some(m[keys[|keys| - 1]]) else None
      case _ => None
  }

  /** The walk can start with its first step. */
  lemma {:induction false} LookupFirstStep(m: map<string, Translation>, k: string, keys: seq<string>)
    ensures Lookup(Object(m), [k] + keys) == if k in m then Lookup(m[k], keys) else None
    decreases |keys|
  {
    var all := [k] + keys;
    if |keys| == 0 {
      assert all[..0] == [];
    } else {
      assert all[..|all| - 1] == [k] + keys[..|keys| - 1];
      LookupFirstStep(m, k, keys[..|keys| - 1]);
    }
  }

  /** The translation tree holding `text` at the end of the key path `keys`. */
  function Nested(keys: seq<string>, text: string): Translation
  {
    if |keys| == 0 then Text(text) else Object(map[keys[0] := Nested(keys[1..], text)])
  }

  /** Walking a nested tree along its own key path reaches its text. */
  lemma {:induction false} LookupNested(keys: seq<string>, text: string)
    ensures Lookup(Nested(keys, text), keys) == Some(Text(text))
  {
    if |keys| > 0 {
      LookupNested(keys[1..], text);
      LookupFirstStep(map[keys[0] := Nested(keys[1..], text)], keys[0], keys[1..]);
      assert [keys[0]] + keys[1..] == keys;
    }
  }

  /** A placeholder `{{name}}` at the start of `s`, giving `name`. */
  function PlaceholderAt(s: string): (r: Option<string>)
    ensures r.Some? ==> |r.value| > 0 && |r.value| + 4 <= |s|
    ensures r.Some? ==> s[..|r.value| + 4] == "{{" + r.value + "}}"
    ensures r.Some? ==> forall i :: 0 <= i < |r.value| ==> IsWordChar(r.value[i])
  {
    if StartsWith(s, "{{") then
      var name := Run(s[2..], IsWordChar);
      if |name| > 0 && StartsWith(s[2 + |name|..], "}}") then
        assert s[..|name| + 4] == s[..2] + s[2..][..|name|] + s[2 + |name|..][..2];
        Some(name)
      else None
    else None
  }

  /** The replacement for `{{name}}`: the parameter's text, or the placeholder itself when it is missing or empty. */
  function Replacement(name: string, params: map<string, string>): string
  {
    if name in params && params[name] != "" then params[name] else "{{" + name + "}}"
  }

  /** `value.replace(/\{\{(\w+)\}\}/g, ...)`: every placeholder, scanned left to right, replaced. */
  function Substitute(s: string, params: map<string, string>): string
    decreases |s|
  {
    if |s| == 0 then ""
    else
      match PlaceholderAt(s)
      case Some(name) => Replacement(name, params) + Substitute(s[|name| + 4..], params)
      case None => [s[0]] + Substitute(s[1..], params)
  }

  /** With no parameters every placeholder stays as it is. */
  lemma {:induction false} SubstituteNoParams(s: string)
    ensures Substitute(s, map[]) == s
    decreases |s|
  {
    if |s| > 0 {
      match PlaceholderAt(s)
      case Some(name) =>
        SubstituteNoParams(s[|name| + 4..]);
        assert s == s[..|name| + 4] + s[|name| + 4..];
      case None =>
        SubstituteNoParams(s[1..]);
        assert s == [s[0]] + s[1..];
    }
  }

  /** A placeholder at the very start is recognised with its whole name. */
  lemma PlaceholderFirst(name: string, u: string)
    requires |name| > 0 && forall i :: 0 <= i < |name| ==> IsWordChar(name[i])
    ensures PlaceholderAt("{{" + name + "}}" + u) == Some(name)
  {
    var s := "{{" + name + "}}" + u;
    assert s[..2] == "{{";
    assert s[2..] == name + ("}}" + u);
    RunStops(name, "}}" + u, IsWordChar);
    assert s[2 + |name|..] == "}}" + u;
  }

  /**
   * Text without `{` is copied, and a placeholder after it whose parameter is
   * a non-empty string is replaced by that string.
   */
  lemma SubstituteOnePlaceholder(t: string, name: string, u: string, params: map<string, string>)
    requires '{' !in t
    requires |name| > 0 && forall i :: 0 <= i < |name| ==> IsWordChar(name[i])
    requires name in params && params[name] != ""
    ensures Substitute(t + "{{" + name + "}}" + u, params) == t + params[name] + Substitute(u, params)
  {
    var rest := "{{" + name + "}}" + u;
    assert t + "{{" + name + "}}" + u == t + rest;
    SubstituteCopiesText(t, rest, params);
    SubstitutePlaceholderFirst(name, u, params);
    assert t + (params[name] + Substitute(u, params)) == t + params[name] + Substitute(u, params);
  }

  /** The first character put back in front of the rest gives the text again. */
  lemma PrependFirst(t: string, w: string)
    requires |t| > 0
    ensures [t[0]] + (t[1..] + w) == t + w
  {
    assert t == [t[0]] + t[1..];
  }

  /** Text without `{` holds no placeholder and is copied unchanged. */
  lemma {:induction false} SubstituteCopiesText(t: string, rest: string, params: map<string, string>)
    requires '{' !in t
    ensures Substitute(t + rest, params) == t + Substitute(rest, params)
    decreases |t|
  {
    if |t| > 0 {
      PrependFirst(t, rest);
      SubstituteCopiesChar(t[0], t[1..] + rest, params);
      SubstituteCopiesText(t[1..], rest, params);
      PrependFirst(t, Substitute(rest, params));
    } else {
      assert t + rest == rest;
    }
  }

  /** A placeholder at the start is replaced by its replacement text. */
  lemma SubstitutePlaceholderFirst(name: string, u: string, params: map<string, string>)
    requires |name| > 0 && forall i :: 0 <= i < |name| ==> IsWordChar(name[i])
    ensures Substitute("{{" + name + "}}" + u, params) == Replacement(name, params) + Substitute(u, params)
  {
    var s := "{{" + name + "}}" + u;
    PlaceholderFirst(name, u);
    assert s[|name| + 4..] == u;
  }

  /** A character other than `{` is copied. */
  lemma SubstituteCopiesChar(c: char, rest: string, params: map<string, string>)
    requires c != '{'
    ensures Substitute([c] + rest, params) == [c] + Substitute(rest, params)
  {
    var s := [c] + rest;
    assert s[0] == c && !StartsWith(s, "{{");
    assert s[1..] == rest;
  }

  /** The string a translation function returns for `key` and `params`. */
  function TranslationOf(translations: map<string, Translation>, key: string, params: Option<map<string, string>>): string
  {
    match Lookup(Object(translations), Split(key, '.'))
    case Some(Text(value)) => if params.Some? then Substitute(value, params.value) else value
    case _ => key
  }

  /**
   * The function `createTranslationFunction(translations)` returns, applied to
   * `key` and `params`: walks the dotted key through the tree and returns the
   * key itself when a step fails or the value reached is not a string.
   */
  method Translate(translations: map<string, Translation>, key: string, params: Option<map<string, string>>)
    returns (text: string)
    ensures text == TranslationOf(translations, key, params)
  {
    var keys := Split(key, '.');
    var value := Object(translations);
    var i := 0;
    while i < |keys|
      invariant 0 <= i <= |keys|
      invariant Lookup(Object(translations), keys[..i]) == Some(value)
    {
      var k := keys[i];
      assert keys[..i + 1][..i] == keys[..i];
      if value.Object? && k in value.entries {
        value := value.entries[k];
      } else {
        LookupFails(Object(translations), keys, i);
        return key;
      }
      i := i + 1;
    }
    assert keys[..i] == keys;
    if !value.Text? {
      return key;
    }
    if params.Some? {
      return Substitute(value.text, params.value);
    }
    return value.text;
  }

  /** A walk that fails at some step fails for the whole key path. */
  lemma {:induction false} LookupFails(root: Translation, keys: seq<string>, i: nat)
    requires i < |keys|
    requires Lookup(root, keys[..i + 1]).None?
    ensures Lookup(root, keys).None?
    decreases |keys| - i
  {
    if i + 1 < |keys| {
      assert keys[..i + 2][..i + 1] == keys[..i + 1];
      LookupFails(root, keys, i + 1);
    } else {
      assert keys[..i + 1] == keys;
    }
  }

  /** A key whose path is missing from the tree translates to itself. */
  lemma MissingKeyIsReturned(key: string, params: Option<map<string, string>>)
    ensures TranslationOf(map[], key, params) == key
  {
    var keys := Split(key, '.');
    assert keys[..1][..0] == [];
    LookupFails(Object(map[]), keys, 0);
  }

  /**
   * A text stored under a dotted key is found by that key; with parameters, a
   * placeholder-free text is returned as stored.
   */
  lemma {:induction false} StoredTextIsFound(keys: seq<string>, text: string)
    requires |keys| >= 1 && forall i :: 0 <= i < |keys| ==> '.' !in keys[i]
    ensures TranslationOf(map[keys[0] := Nested(keys[1..], text)], Join(keys, '.'), None) == text
    ensures TranslationOf(map[keys[0] := Nested(keys[1..], text)], Join(keys, '.'), Some(map[])) == text
  {
    SplitJoin(keys, '.');
    assert Nested(keys, text) == Object(map[keys[0] := Nested(keys[1..], text)]);
    LookupNested(keys, text);
    SubstituteNoParams(text);
  }
}
