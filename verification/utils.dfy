/**
 * Configuration: the typed snapshot every component reads, the defaults the
 * plugin starts from, and `validate_config`, the normaliser that makes the
 * four required keys of a raw (JSON-like) configuration map present and
 * correctly typed.
 */
module Config {

  /** The options one sync run reads.  `config.get(key, default)` in the
      source becomes a field of this record. */
  datatype Settings = Settings(
    namingConvention: string,      // file_naming_convention
    blocksIgnored: seq<string>,    // blocks_ignored
    extensionsInclude: seq<string>,
    extensionsIgnore: seq<string>,
    directoriesInclude: seq<string>,
    directoriesIgnore: seq<string>,
    filesInclude: seq<string>,
    filesIgnore: seq<string>,
    partialNamesInclude: seq<string>,
    partialNamesIgnore: seq<string>,
    attemptInjection: bool,
    conflictPolicy: string,        // handle_file_conflicts
    includeSystemFolders: bool,
    outputDirectoryTree: bool)

  /** The defaults the plugin uses when no settings file overrides them. */
  const DefaultSettings := Settings(
    "on_fence",
    ["lessthan_3", "nameless", "readme", "properties", "without_ext"],
    [], [], [], [], [], [], [], [],
    false,
    "prepend_and_comment",
    false,
    true)

  /** A raw configuration value as loaded from a settings file. */
  datatype Json =
    | JStr(s: string)
    | JList(items: seq<Json>)
    | JBool(b: bool)
    | JNum(n: int)
    | JNull
    | JObj(fields: map<string, Json>)

  datatype FieldType = StrField | ListField

  /** `isinstance(v, str)` / `isinstance(v, list)`. */
  predicate HasType(v: Json, t: FieldType) {
    match t
    case StrField => v.JStr?
    case ListField => v.JList?
  }

  /** `str()` and `list()`: the value a missing or mistyped field gets. */
  function DefaultOf(t: FieldType): (v: Json)
    ensures HasType(v, t)
  {
    match t
    case StrField => JStr("")
    case ListField => JList([])
  }

  /** One iteration of the loop in `validate_config`: a field that is missing
      or has the wrong type is replaced by the type's empty value; every other
      entry is left alone. */
  function ValidateField(c: map<string, Json>, name: string, t: FieldType): (r: map<string, Json>)
    ensures r.Keys == c.Keys + {name}
    ensures HasType(r[name], t)
    ensures name in c && HasType(c[name], t) ==> r[name] == c[name]
    ensures !(name in c && HasType(c[name], t)) ==> r[name] == DefaultOf(t)
    ensures forall k :: k in c && k != name ==> r[k] == c[k]
  {
    if name in c && HasType(c[name], t) then c else c[name := DefaultOf(t)]
  }

  /** The four keys `validate_config` insists on (their lengths differ, which
      is the cheapest way to see they are distinct). */
  const NamingKey := "file_naming_convention"
  const BlocksKey := "blocks_ignored"
  const IncludeKey := "extensions_2_include"
  const IgnoreKey := "extensions_2_ignore"

  lemma RequiredKeysDistinct()
    ensures NamingKey != BlocksKey && NamingKey != IncludeKey && NamingKey != IgnoreKey
    ensures BlocksKey != IncludeKey && BlocksKey != IgnoreKey && IncludeKey != IgnoreKey
  {
    assert |NamingKey| == 22 && |BlocksKey| == 14 && |IncludeKey| == 20 && |IgnoreKey| == 19;
  }

  /** `validate_config(config)`: the loop over the four required fields. */
  function ValidateConfig(c: map<string, Json>): (r: map<string, Json>)
    ensures forall k :: k in r <==> k in c || IsRequired(k)
    ensures NamingKey in r && BlocksKey in r && IncludeKey in r && IgnoreKey in r
    ensures r[NamingKey].JStr?
    ensures r[BlocksKey].JList? && r[IncludeKey].JList? && r[IgnoreKey].JList?
  {
    RequiredKeysDistinct();
    var c1 := ValidateField(c, NamingKey, StrField);
    assert c1[NamingKey].JStr?;
    assert forall k :: k in c1 <==> k in c || k == NamingKey;
    var c2 := ValidateField(c1, BlocksKey, ListField);
    assert c2[NamingKey].JStr? && c2[BlocksKey].JList?;
    assert forall k :: k in c2 <==> k in c || k == NamingKey || k == BlocksKey;
    var c3 := ValidateField(c2, IncludeKey, ListField);
    assert c3[NamingKey].JStr? && c3[BlocksKey].JList? && c3[IncludeKey].JList?;
    assert forall k :: k in c3 <==> k in c || k == NamingKey || k == BlocksKey || k == IncludeKey;
    ValidateField(c3, IgnoreKey, ListField)
  }

  predicate IsRequired(k: string) {
    k == NamingKey || k == BlocksKey || k == IncludeKey || k == IgnoreKey
  }

  /** Every key that is not required, and every required key that already had
      the right type, keeps its value; a missing or mistyped required key gets
      `""` (the naming convention) or `[]` (the three lists). */
  lemma ValidateConfigPreserves(c: map<string, Json>)
    ensures forall k :: k in c && !IsRequired(k) ==> ValidateConfig(c)[k] == c[k]
    ensures NamingKey in c && c[NamingKey].JStr? ==>
              ValidateConfig(c)[NamingKey] == c[NamingKey]
    ensures !(NamingKey in c && c[NamingKey].JStr?) ==>
              ValidateConfig(c)[NamingKey] == JStr("")
    ensures forall k :: IsRequired(k) && k != NamingKey ==>
              ValidateConfig(c)[k] == (if k in c && c[k].JList? then c[k] else JList([]))
  {
    RequiredKeysDistinct();
    var c1 := ValidateField(c, NamingKey, StrField);
    var c2 := ValidateField(c1, BlocksKey, ListField);
    var c3 := ValidateField(c2, IncludeKey, ListField);
    var r := ValidateField(c3, IgnoreKey, ListField);
    assert ValidateConfig(c) == r;
    forall k | k in c && !IsRequired(k) ensures r[k] == c[k] {
      assert c3[k] == c2[k] == c1[k] == c[k];
    }
    assert r[NamingKey] == c1[NamingKey];
    forall k | IsRequired(k) && k != NamingKey
      ensures r[k] == (if k in c && c[k].JList? then c[k] else JList([]))
    {
      if k in c {
        assert c1[k] == c[k];
      } else {
        assert k !in c1;
      }
      if k == BlocksKey {
        assert r[k] == c3[k] == c2[k];
      } else if k == IncludeKey {
        assert r[k] == c3[k];
        if k in c { assert c2[k] == c1[k]; } else { assert k !in c2; }
      } else {
        if k in c { assert c3[k] == c2[k] == c1[k]; } else { assert k !in c3; }
      }
    }
  }

  /** Applying `validate_config` twice equals applying it once. */
  lemma ValidateConfigIdempotent(c: map<string, Json>)
    ensures ValidateConfig(ValidateConfig(c)) == ValidateConfig(c)
  {
    var r := ValidateConfig(c);
    var rr := ValidateConfig(r);
    ValidateConfigPreserves(c);
    ValidateConfigPreserves(r);
    assert rr.Keys == r.Keys;
    forall k | k in r ensures rr[k] == r[k] {
      if !IsRequired(k) {
      } else if k == NamingKey {
      } else {
        assert r[k].JList?;
      }
    }
  }
}
