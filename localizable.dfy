/**
 * The `Localizable` object: a single-slot catalog cache with fallback to the
 * default language, the language policy over a stored preference, and the
 * four `localize` entry points.
 */
module Localization {
  import opened Wrappers
  import opened Text
  import opened Catalogs
  import opened Substitution

  class Localizable {
    /** The raw values of the `Languages` enum, in declaration order. */
    const languages: seq<string>
    /** The app bundle as seen through `Bundle.main.path` and `JSONSerialization`:
        a name is a key when a `<name>.json` resource exists, and maps to the
        parsed top-level dictionary, or to `None` when the file cannot be read,
        is not JSON, or its top level is not a dictionary. */
    const bundle: map<string, Option<Catalog>>
    /** `Locale.preferredLanguages`. */
    const device: seq<string>

    /** The cached catalog (`json`). */
    var json: Option<Catalog>
    var fileName: string
    var defaultLanguage: string
    /** The value stored under `localizable.swift.language` in `UserDefaults`. */
    var stored: Option<string>
    /** How many `LanguageChangeNotification`s have been posted. */
    var notifications: nat

    predicate Valid()
      reads this
    {
      |device| > 0 && defaultLanguage in languages
    }

    /** The initial state: no catalog cached, file name `lang`, default language English. */
    constructor (languages: seq<string>, bundle: map<string, Option<Catalog>>, device: seq<string>, stored: Option<string>)
      requires |device| > 0 && "en" in languages
      ensures Valid()
      ensures this.languages == languages && this.bundle == bundle && this.device == device
      ensures this.stored == stored && json == None && fileName == "lang" && defaultLanguage == "en"
      ensures notifications == 0
    {
      this.languages := languages;
      this.bundle := bundle;
      this.device := device;
      this.stored := stored;
      json := None;
      fileName := "lang";
      defaultLanguage := "en";
      notifications := 0;
    }

    /** The resource name `<fileName>-<lang>`. */
    function ResourceName(lang: string): string
      reads this`fileName
    {
      fileName + "-" + lang
    }

    /** `readJSON(named:)`: the parsed catalog of a resource, `None` when it is
        missing or does not parse. */
    function Fetch(name: string): (r: Option<Catalog>)
      ensures name in bundle ==> r == bundle[name]
      ensures name !in bundle ==> r == None
    {
      if name in bundle then bundle[name] else None
    }

    // -------------------------------------------------------------------------
    // Language policy

    /** `language()`: the stored preference, or else the device's first
        language tag up to its first `-`. */
    function Language(): (r: string)
      reads this`stored
      requires |device| > 0
      ensures stored.Some? ==> r == stored.value
      ensures stored.None? ==> r <= device[0] && '-' !in r
      ensures stored.None? ==> |r| == |device[0]| || device[0][|r|] == '-'
    {
      if stored.Some? then stored.value
      else SplitHead(device[0], '-'); Split(device[0], '-')[0]
    }

    /** `update(language: Languages)`: persist the code, reload the cache and post
        one notification. */
    method UpdateLanguage(lang: string)
      requires Valid() && lang in languages
      modifies this`stored, this`json, this`notifications
      ensures Valid()
      ensures stored == Some(lang) && Language() == lang
      ensures json == Reloaded()
      ensures notifications == old(notifications) + 1
    {
      stored := Some(lang);
      var _ := ReadJSON(true);
      notifications := notifications + 1;
    }

    /** `update(language: String)`: a code outside `Languages` changes nothing
        and posts nothing. */
    method UpdateLanguageCode(code: string)
      requires Valid()
      modifies this`stored, this`json, this`notifications
      ensures Valid()
      ensures code !in languages ==>
        stored == old(stored) && json == old(json) && notifications == old(notifications)
      ensures code in languages ==>
        stored == Some(code) && json == Reloaded() && notifications == old(notifications) + 1
    {
      if code !in languages {
        return;
      }
      UpdateLanguage(code);
    }

    /** `resetLanguage()`: forget the stored preference; the cache is kept and
        nothing is posted. */
    method ResetLanguage()
      requires Valid()
      modifies this`stored
      ensures Valid()
      ensures stored == None && json == old(json) && notifications == old(notifications)
    {
      stored := None;
    }

    /** The declared codes whose resource exists, in declaration order; only
        existence is checked, not whether the file parses. */
    function Present(codes: seq<string>): (r: seq<string>)
      reads this`fileName
      ensures forall x :: x in r <==> x in codes && ResourceName(x) in bundle
      ensures |r| <= |codes|
      decreases |codes|
    {
      if codes == [] then []
      else
        var last := codes[|codes| - 1];
        Present(codes[..|codes| - 1]) + (if ResourceName(last) in bundle then [last] else [])
    }

    /** `availableLanguages()`. */
    method AvailableLanguages() returns (r: seq<string>)
      ensures r == Present(languages)
    {
      r := [];
      var i := 0;
      while i < |languages|
        invariant 0 <= i <= |languages|
        invariant r == Present(languages[..i])
      {
        var code := languages[i];
        assert languages[..i + 1][..i] == languages[..i];
        if ResourceName(code) in bundle {
          r := r + [code];
        }
        i := i + 1;
      }
      assert languages[..i] == languages;
    }

    // -------------------------------------------------------------------------
    // Catalog cache

    /** What a reload stores: the active language's catalog, or, when that is
        missing and the active language is not the default, the default
        language's catalog (which may be missing too). */
    function Reloaded(): (r: Option<Catalog>)
      reads this`stored, this`fileName, this`defaultLanguage
      requires |device| > 0
      ensures Fetch(ResourceName(Language())).Some? ==> r == Fetch(ResourceName(Language()))
      ensures r.Some? ==>
                || r == Fetch(ResourceName(Language()))
                || (Language() != defaultLanguage && r == Fetch(ResourceName(defaultLanguage)))
      ensures r.None? <==>
                && Fetch(ResourceName(Language())).None?
                && (Language() == defaultLanguage || Fetch(ResourceName(defaultLanguage)).None?)
    {
      var lang := Language();
      var primary := Fetch(ResourceName(lang));
      if primary.None? && lang != defaultLanguage then Fetch(ResourceName(defaultLanguage))
      else primary
    }

    /** The catalog `readJSON(reload:)` leaves in the cache. */
    function Cached(reload: bool): Option<Catalog>
      reads this`json, this`stored, this`fileName, this`defaultLanguage
      requires |device| > 0
    {
      if json.Some? && !reload then json else Reloaded()
    }

    /** `readJSON(reload:)`: a cached catalog is returned as it is unless a reload
        is asked for; a missing one is never kept as a hit, so every read without
        a catalog tries the bundle again. Changing `fileName` or
        `defaultLanguage` does not invalidate the cache. */
    method ReadJSON(reload: bool) returns (r: Option<Catalog>)
      requires Valid()
      modifies this`json
      ensures Valid()
      ensures old(json).Some? && !reload ==> json == old(json)
      ensures old(json).None? || reload ==> json == Reloaded()
      ensures r == json
    {
      if json != None && !reload {
        return json;
      }
      var lang := Language();
      json := Fetch(ResourceName(lang));
      if json == None && lang != defaultLanguage {
        json := Fetch(ResourceName(defaultLanguage));
      }
      r := json;
    }

    /** Assigning the public `fileName`: the cache is left as it is. */
    method SetFileName(name: string)
      requires Valid()
      modifies this`fileName
      ensures Valid()
      ensures fileName == name && json == old(json)
    {
      fileName := name;
    }

    /** Assigning the public `defaultLanguage`: the cache is left as it is. */
    method SetDefaultLanguage(lang: string)
      requires Valid() && lang in languages
      modifies this`defaultLanguage
      ensures Valid()
      ensures defaultLanguage == lang && json == old(json)
    {
      defaultLanguage := lang;
    }

    // -------------------------------------------------------------------------
    // The localize entry points

    /** `localize(key:)`: the localization of `key`, or `key` itself on any miss. */
    method Localize(key: string) returns (r: string)
      requires Valid()
      modifies this`json
      ensures Valid()
      ensures json == old(Cached(false))
      ensures r == Resolve(json, key)
    {
      var catalog := ReadJSON(false);
      r := Resolve(catalog, key);
    }

    /** `localize(key:replace:)`: a miss is returned untouched; otherwise every
        `%` becomes `replace`. */
    method LocalizeReplace(key: string, replace: string) returns (r: string)
      requires Valid()
      modifies this`json
      ensures Valid()
      ensures json == old(Cached(false))
      ensures Resolve(json, key) == key ==> r == key
      ensures Resolve(json, key) != key ==> r == Single(Resolve(json, key), replace)
    {
      r := Localize(key);
      if r == key {
        return key;
      }
      r := Single(r, replace);
    }

    /** `localize(key:values:)`: a miss is returned untouched; otherwise the
        positional splice as written. */
    method LocalizeValues(key: string, values: seq<string>) returns (r: string)
      requires Valid()
      modifies this`json
      ensures Valid()
      ensures json == old(Cached(false))
      ensures Resolve(json, key) == key ==> r == key
      ensures Resolve(json, key) != key ==> r == Spliced(Resolve(json, key), values)
    {
      r := Localize(key);
      if r == key {
        return key;
      }
      r := Positional(r, values);
    }

    /** `localize(key:dictionary:)`: the pairs are applied with no miss guard, so
        a key that missed is rewritten too. */
    method LocalizeNamed(key: string, pairs: seq<(string, string)>) returns (r: string)
      requires Valid()
      modifies this`json
      ensures Valid()
      ensures json == old(Cached(false))
      ensures r == Named(Resolve(json, key), pairs)
    {
      r := Localize(key);
      r := ReplaceNamed(r, pairs);
    }
  }

  /** With no catalog at all, the dictionary overload still rewrites the key:
      `"Hi :name"` with `name` = `Sam` comes back as `"Hi Sam"`. */
  lemma NamedRewritesMissedKey()
    ensures Named(Resolve(None, "Hi :name"), [("name", "Sam")]) == "Hi Sam"
  {
    NamedExample();
  }
}
