/**
 * Application configuration: a tree of YAML/JSON values, the built-in
 * defaults, the recursive merge of a user file over them and the section
 * accessors the rest of the application reads.
 */
module Config {
  import opened Wrappers

  /** A YAML/JSON value. */
  datatype Value =
    | Null
    | Bool(b: bool)
    | Int(i: int)
    | Real(r: real)
    | Str(s: string)
    | List(items: seq<Value>)
    | Dict(fields: map<string, Value>)

  /** Python truthiness of a loaded value. */
  predicate Truthy(v: Value)
  {
    match v
    case Null => false
    case Bool(b) => b
    case Int(i) => i != 0
    case Real(r) => r != 0.0
    case Str(s) => s != ""
    case List(xs) => xs != []
    case Dict(m) => m != map[]
  }

  const DrawioExe := @"C:\\Program Files\\draw.io\\draw.io.exe"
  const MaxItemsPerGroup := 300

  const LlmApiDefaults: map<string, Value> := map[
    "base_url" := Str("https://api.openai.com/v1"),
    "api_key" := Str(""),
    "models" := Dict(map["small" := Str("gpt-4o-mini"), "medium" := Str("gpt-4o"), "large" := Str("gpt-4o")]),
    "timeout" := Real(120.0)]

  const PaletteDefaults: map<string, Value> := map[
    "grays" := List([Str("#212529"), Str("#343a40"), Str("#495057"), Str("#6c757d"), Str("#adb5bd"),
                     Str("#ced4da"), Str("#dee2e6"), Str("#e9ecef"), Str("#f8f9fa")]),
    "lightColors" := List([Str("#F94144"), Str("#F9C74F"), Str("#90BE6D"), Str("#54a4ea"), Str("#D1A2E6"),
                           Str("#F3722C"), Str("#43AA8B"), Str("#277DA1"), Str("#F8961E"), Str("#F9844A"),
                           Str("#4D908E")]),
    "darkColors" := List([Str("#C73335"), Str("#C9A23F"), Str("#739957"), Str("#427eaf"), Str("#9a78a9"),
                          Str("#C15A22"), Str("#35876F"), Str("#1F6481"), Str("#C77618"), Str("#C66A3C"),
                          Str("#3D7371")]),
    "highlightColors" := List([Str("#ff6565"), Str("#ededed"), Str("#68a8fc")])]

  const DictionaryDefaults: map<string, Value> := map[
    "mdxPath" := Str(@"D:\\Dictionaries\\OALD9\\oald9.mdx"),
    "cssPath" := Str(@"D:\\Dictionaries\\OALD9\\oald9.css")]

  const ExternalDefaults: map<string, Value> := map[
    "llm_api" := Dict(LlmApiDefaults),
    "drawioExe" := Str(DrawioExe)]

  const UiDefaults: map<string, Value> := map[
    "fontFamily" := Str("Cascadia Code, 思源等宽"),
    "window" := Dict(map["width" := Int(620), "height" := Int(860)]),
    "palette" := Dict(PaletteDefaults)]

  /** `DEFAULT_CONFIG`. */
  const Defaults: map<string, Value> := map[
    "external_dependencies" := Dict(ExternalDefaults),
    "ui" := Dict(UiDefaults),
    "storage" := Dict(map["maxItemsPerGroup" := Int(MaxItemsPerGroup)]),
    "plugins" := Dict(map["dictionary" := Dict(DictionaryDefaults)])]

  /**
   * `_merge(base, override)`: keys only in `base` keep their value; where both
   * sides hold a dict the two are merged recursively; otherwise the override
   * value replaces the base value.
   */
  function Merge(base: map<string, Value>, override: map<string, Value>): (r: map<string, Value>)
    ensures r.Keys == base.Keys + override.Keys
    ensures forall k :: k in base && k !in override ==> r[k] == base[k]
    ensures forall k :: k in override && !(override[k].Dict? && k in base && base[k].Dict?) ==>
      r[k] == override[k]
    decreases Dict(override)
  {
    map k | k in base.Keys + override.Keys ::
      if k !in override then base[k]
      else if override[k].Dict? && k in base && base[k].Dict? then
        Dict(Merge(base[k].fields, override[k].fields))
      else override[k]
  }

  /** The value `yaml.safe_load` (or the JSON fallback) read from the user's file. */
  datatype FileConfig = Missing | Unparsable | Loaded(v: Value)

  /**
   * `load_config`: the defaults merged with the file's mapping. A missing or
   * unparsable file, or a falsy document, contributes `{}`; a truthy
   * document that is not a mapping makes `_merge` raise.
   */
  function LoadConfig(file: FileConfig): (r: Option<map<string, Value>>)
    ensures r.Some? ==> Defaults.Keys <= r.value.Keys
    ensures r.None? <==> file.Loaded? && Truthy(file.v) && !file.v.Dict?
  {
    match file
    case Loaded(v) =>
      if !Truthy(v) then Some(Merge(Defaults, map[]))
      else if v.Dict? then Some(Merge(Defaults, v.fields))
      else None
    case _ => Some(Merge(Defaults, map[]))
  }

  /** `d.get(key, default)` on a value that must be a dict; `None` when it is not (AttributeError). */
  function GetOr(d: Value, key: string, default: Value): (r: Option<Value>)
    ensures r.Some? <==> d.Dict?
  {
    if d.Dict? then Some(if key in d.fields then d.fields[key] else default) else None
  }

  /** `cfg.get(key, default)` on the loaded top-level mapping. */
  function Section(cfg: map<string, Value>, key: string, default: Value): Value
  {
    if key in cfg then cfg[key] else default
  }

  /** `get_palette_config`, over an already-loaded configuration. */
  function PaletteSettings(cfg: map<string, Value>): (r: Option<Value>)
    ensures "ui" !in cfg ==> r == Some(Dict(PaletteDefaults))
  {
    GetOr(Section(cfg, "ui", Dict(map[])), "palette", Dict(PaletteDefaults))
  }

  /** `get_llm_settings` (and its alias `get_openai_settings`). */
  function LlmSettings(cfg: map<string, Value>): (r: Option<Value>)
    ensures "external_dependencies" !in cfg ==> r == Some(Dict(LlmApiDefaults))
  {
    GetOr(Section(cfg, "external_dependencies", Dict(map[])), "llm_api", Dict(LlmApiDefaults))
  }

  /** `get_dictionary_settings`. */
  function DictionarySettings(cfg: map<string, Value>): (r: Option<Value>)
    ensures "plugins" !in cfg ==> r == Some(Dict(DictionaryDefaults))
  {
    GetOr(Section(cfg, "plugins", Dict(map[])), "dictionary", Dict(DictionaryDefaults))
  }

  /** `get_tools_settings`: a dict whose only key is "drawioExe". */
  function ToolsSettings(cfg: map<string, Value>): (r: Option<map<string, Value>>)
    ensures r.Some? ==> r.value.Keys == {"drawioExe"}
    ensures r.Some? <==> Section(cfg, "external_dependencies", Dict(map[])).Dict?
  {
    var ext := GetOr(Section(cfg, "external_dependencies", Dict(map[])), "drawioExe", Str(DrawioExe));
    if ext.Some? then Some(map["drawioExe" := ext.value]) else None
  }

  /** `get_storage_settings`. */
  function StorageSettings(cfg: map<string, Value>): (r: Value)
    ensures "storage" !in cfg ==> r == Dict(map["maxItemsPerGroup" := Int(MaxItemsPerGroup)])
  {
    Section(cfg, "storage", Dict(map["maxItemsPerGroup" := Int(MaxItemsPerGroup)]))
  }

  // Properties of the merge.

  /** `_merge(base, {})` (and so `_merge(base, None)`) is `base`. */
  lemma MergeEmpty(base: map<string, Value>)
    ensures Merge(base, map[]) == base
  {
  }

  /** Merging a configuration with itself changes nothing. */
  lemma {:induction false} MergeSelf(base: map<string, Value>)
    ensures Merge(base, base) == base
    decreases Dict(base)
  {
    var r := Merge(base, base);
    forall k | k in base
      ensures r[k] == base[k]
    {
      if base[k].Dict? {
        MergeSelf(base[k].fields);
      }
    }
  }

  /** Applying the same override twice is the same as applying it once. */
  lemma {:induction false} MergeIdempotent(base: map<string, Value>, override: map<string, Value>)
    ensures Merge(Merge(base, override), override) == Merge(base, override)
    decreases Dict(override)
  {
    var once := Merge(base, override);
    var twice := Merge(once, override);
    forall k | k in once
      ensures twice[k] == once[k]
    {
      if k in override && override[k].Dict? && k in base && base[k].Dict? {
        MergeIdempotent(base[k].fields, override[k].fields);
      } else if k in override && override[k].Dict? {
        MergeSelf(override[k].fields);
      }
    }
  }

  /** With no usable file, or an empty one, the configuration is exactly the defaults. */
  lemma LoadWithoutFile(file: FileConfig)
    requires !file.Loaded? || !Truthy(file.v)
    ensures LoadConfig(file) == Some(Defaults)
  {
    MergeEmpty(Defaults);
  }

  /** A truthy or falsy mapping in the file is merged over the defaults as it stands. */
  lemma LoadedMapping(fields: map<string, Value>)
    ensures LoadConfig(Loaded(Dict(fields))) == Some(Merge(Defaults, fields))
  {
    if fields == map[] {
      assert !Truthy(Dict(fields));
    } else {
      assert Truthy(Dict(fields));
    }
  }

  /**
   * The shape every nested accessor shares: `cfg.get(sec, {}).get(key, d)` on
   * the defaults merged with a mapping, where the defaults hold `d` there.
   * The default stays unless the mapping names `sec.key`; a dict there is
   * merged over `d`, any other value replaces it, and a `sec` that is not a
   * dict makes `.get` raise.
   */
  ghost predicate NestedSetting(fields: map<string, Value>, sec: string, key: string, d: map<string, Value>, p: Option<Value>)
  {
    && (sec !in fields ==> p == Some(Dict(d)))
    && (sec in fields && !fields[sec].Dict? ==> p.None?)
    && (sec in fields && fields[sec].Dict? ==>
          var inner := fields[sec].fields;
          && (key !in inner ==> p == Some(Dict(d)))
          && (key in inner && inner[key].Dict? ==> p == Some(Dict(Merge(d, inner[key].fields))))
          && (key in inner && !inner[key].Dict? ==> p == Some(inner[key])))
  }

  lemma NestedGet(defaults: map<string, Value>, fields: map<string, Value>, sec: string, key: string,
                  secDefaults: map<string, Value>, d: map<string, Value>)
    requires sec in defaults && defaults[sec] == Dict(secDefaults)
    requires key in secDefaults && secDefaults[key] == Dict(d)
    ensures NestedSetting(fields, sec, key, d,
                          GetOr(Section(Merge(defaults, fields), sec, Dict(map[])), key, Dict(d)))
  {
    var cfg := Merge(defaults, fields);
    assert sec in cfg;
    if sec in fields && fields[sec].Dict? {
      assert cfg[sec] == Dict(Merge(secDefaults, fields[sec].fields));
      var inner := Merge(secDefaults, fields[sec].fields);
      assert key in inner;
    }
  }

  /** The palette of a loaded mapping, read from "ui.palette". */
  lemma LoadedPalette(fields: map<string, Value>)
    ensures LoadConfig(Loaded(Dict(fields))).Some?
    ensures NestedSetting(fields, "ui", "palette", PaletteDefaults, PaletteSettings(LoadConfig(Loaded(Dict(fields))).value))
  {
    LoadedMapping(fields);
    NestedGet(Defaults, fields, "ui", "palette", UiDefaults, PaletteDefaults);
  }

  /** The LLM settings of a loaded mapping, read from "external_dependencies.llm_api". */
  lemma LoadedLlm(fields: map<string, Value>)
    ensures LoadConfig(Loaded(Dict(fields))).Some?
    ensures NestedSetting(fields, "external_dependencies", "llm_api", LlmApiDefaults,
                          LlmSettings(LoadConfig(Loaded(Dict(fields))).value))
  {
    LoadedMapping(fields);
    NestedGet(Defaults, fields, "external_dependencies", "llm_api", ExternalDefaults, LlmApiDefaults);
  }

  /** The dictionary settings of a loaded mapping, read from "plugins.dictionary". */
  lemma LoadedDictionary(fields: map<string, Value>)
    ensures LoadConfig(Loaded(Dict(fields))).Some?
    ensures NestedSetting(fields, "plugins", "dictionary", DictionaryDefaults,
                          DictionarySettings(LoadConfig(Loaded(Dict(fields))).value))
  {
    LoadedMapping(fields);
    NestedGet(Defaults, fields, "plugins", "dictionary", map["dictionary" := Dict(DictionaryDefaults)], DictionaryDefaults);
  }

  /** The storage settings of a loaded mapping: a dict is merged over the default cap, any other value replaces it. */
  lemma LoadedStorage(fields: map<string, Value>)
    ensures LoadConfig(Loaded(Dict(fields))).Some?
    ensures var p := StorageSettings(LoadConfig(Loaded(Dict(fields))).value);
      && ("storage" !in fields ==> p == Dict(map["maxItemsPerGroup" := Int(MaxItemsPerGroup)]))
      && ("storage" in fields && fields["storage"].Dict? ==>
            p == Dict(Merge(map["maxItemsPerGroup" := Int(MaxItemsPerGroup)], fields["storage"].fields)))
      && ("storage" in fields && !fields["storage"].Dict? ==> p == fields["storage"])
  {
    LoadedMapping(fields);
  }

  /** A file that does not mention "storage" leaves the storage cap at its default. */
  lemma LoadedKeepsStorageDefault(fields: map<string, Value>)
    requires fields != map[] && "storage" !in fields
    ensures LoadConfig(Loaded(Dict(fields))).Some?
    ensures StorageSettings(LoadConfig(Loaded(Dict(fields))).value) == Dict(map["maxItemsPerGroup" := Int(MaxItemsPerGroup)])
  {
  }
}
