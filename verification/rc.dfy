/**
 * The `.hfmrc` configuration of bin/core.js: its defaults, how a loaded file is
 * merged over them (`getRc`), and the add-if-absent rule of `alias`.
 * The YAML file is abstracted to the document it loads as: `None` when the file
 * does not exist, `Some(doc)` when it loads as a mapping (an empty file loads as
 * `Some(map[])`).
 */
module Rc {
  import opened Wrappers

  /** A YAML/JSON value as js-yaml loads it. */
  datatype Value =
    | Null
    | Bool(b: bool)
    | Num(n: int)
    | Str(s: string)
    | List(items: seq<Value>)
    | Obj(fields: map<string, Value>)

  /** A top-level configuration document. */
  type Doc = map<string, Value>

  const GoogleUrl: string := "https://raw.githubusercontent.com/googlehosts/hosts/master/hosts-files/hosts"
  const MirrorUrl: string := "https://coding.net/u/scaffrey/p/hosts/git/raw/master/hosts-files/hosts"

  /** The list entry `{ url }`. */
  function Source(url: string): Value {
    Obj(map["url" := Str(url)])
  }

  /** `HFM_CONFIG`: two built-in aliases and no custom entries. */
  const DefaultList: map<string, Value> := map["Google" := Source(GoogleUrl), "GoogleMirror" := Source(MirrorUrl)]
  const Defaults: Doc := map["list" := Obj(DefaultList), "custom" := List([])]

  /** The object literal a loaded file is spread over. */
  const Fallback: Doc := map["list" := Obj(map[]), "custom" := List([])]

  /** What `getRc` returns, and the file as it stands afterwards. */
  datatype Loaded = Loaded(config: Doc, file: Doc)

  /**
   * `getRc()`: a missing file is created holding the defaults, which are returned;
   * otherwise every key of the file overrides `list: {}` and `custom: []`.
   */
  function GetRc(file: Option<Doc>): (r: Loaded)
    ensures file.None? ==> r.config == Defaults && r.file == Defaults
    ensures file.Some? ==> r.file == file.value
    ensures file.Some? ==> r.config.Keys == file.value.Keys + {"list", "custom"}
    ensures file.Some? ==> forall k | k in file.value :: r.config[k] == file.value[k]
    ensures file.Some? && "list" !in file.value ==> r.config["list"] == Obj(map[])
    ensures file.Some? && "custom" !in file.value ==> r.config["custom"] == List([])
  {
    match file
    case None => Loaded(Defaults, Defaults)
    case Some(doc) => Loaded(Fallback + doc, doc)
  }

  /** Without a file the aliases are exactly Google and GoogleMirror, and `custom` is empty. */
  lemma DefaultAliases()
    ensures GetRc(None).config["list"].Obj?
    ensures GetRc(None).config["list"].fields.Keys == {"Google", "GoogleMirror"}
    ensures GetRc(None).config["list"].fields["Google"] == Source(GoogleUrl)
    ensures GetRc(None).config["list"].fields["GoogleMirror"] == Source(MirrorUrl)
    ensures GetRc(None).config["custom"] == List([])
  {
  }

  /** Reading the configuration again after `getRc` gives the same configuration. */
  lemma RereadIsStable(file: Option<Doc>)
    ensures GetRc(Some(GetRc(file).file)).config == GetRc(file).config
  {
    if file.None? {
      assert Fallback + Defaults == Defaults;
    }
  }

  /** JavaScript truthiness of a loaded value. */
  predicate Truthy(v: Value) {
    match v
    case Null => false
    case Bool(b) => b
    case Num(n) => n != 0
    case Str(s) => s != ""
    case List(_) => true
    case Obj(_) => true
  }

  /** Property names every plain object inherits from `Object.prototype`; each yields a truthy value. */
  const InheritedNames: set<string> := {
    "constructor", "hasOwnProperty", "isPrototypeOf", "propertyIsEnumerable",
    "toLocaleString", "toString", "valueOf", "__proto__",
    "__defineGetter__", "__defineSetter__", "__lookupGetter__", "__lookupSetter__"
  }

  /** `!!listObj[name]` on a list object loaded from YAML. */
  predicate HasAlias(entries: map<string, Value>, name: string) {
    if name in entries then Truthy(entries[name]) else name in InheritedNames
  }

  datatype Outcome = Added | AlreadyAdded | ListNotObject

  /** What `alias` reports, and the file as it stands afterwards. */
  datatype AliasResult = AliasResult(outcome: Outcome, file: Doc)

  /** Replacing the list of config by entries with name mapped to `{url}`. */
  lemma WithEntry(config: Doc, entries: map<string, Value>, name: string, url: string)
    requires "list" in config
    ensures var doc := config["list" := Obj(entries[name := Source(url)])];
      && doc.Keys == config.Keys
      && (forall k | k in config && k != "list" :: doc[k] == config[k])
      && doc["list"].fields.Keys == entries.Keys + {name}
      && doc["list"].fields[name] == Source(url)
      && (forall k | k in entries && k != name :: doc["list"].fields[k] == entries[k])
  {
  }

  /**
   * `alias(name, url)`: reads the configuration; when its list lacks `name` it writes
   * the configuration read a second time with `name -> { url }` added to the first list.
   */
  function Alias(file: Option<Doc>, name: string, url: string): (r: AliasResult)
    ensures var config := GetRc(file).config;
      r.outcome == AlreadyAdded <==> config["list"].Obj? && HasAlias(config["list"].fields, name)
    ensures var config := GetRc(file).config;
      r.outcome == ListNotObject <==> !config["list"].Obj?
    ensures r.outcome != Added ==> r.file == GetRc(file).file
    ensures r.outcome == Added ==>
      var config := GetRc(file).config;
      var previous := config["list"].fields;
      && r.file.Keys == config.Keys
      && (forall k | k in config && k != "list" :: r.file[k] == config[k])
      && r.file["list"].Obj?
      && r.file["list"].fields.Keys == previous.Keys + {name}
      && r.file["list"].fields[name] == Source(url)
      && (forall k | k in previous && k != name :: r.file["list"].fields[k] == previous[k])
  {
    var first := GetRc(file);
    match first.config["list"]
    case Obj(entries) =>
      if HasAlias(entries, name) then AliasResult(AlreadyAdded, first.file)
      else
        RereadIsStable(file);
        var second := GetRc(Some(first.file));
        WithEntry(second.config, entries, name, url);
        AliasResult(Added, second.config["list" := Obj(entries[name := Source(url)])])
    case _ => AliasResult(ListNotObject, first.file)
  }

  /** Adding never changes whether any other name counts as present. */
  lemma AliasKeepsOtherAliases(file: Option<Doc>, name: string, url: string, other: string)
    requires Alias(file, name, url).outcome == Added && other != name
    ensures var before := GetRc(file).config["list"].fields;
      var after := GetRc(Some(Alias(file, name, url).file)).config["list"];
      after.Obj? && (HasAlias(after.fields, other) <==> HasAlias(before, other))
  {
    var r := Alias(file, name, url);
    var before := GetRc(file).config["list"].fields;
    var after := GetRc(Some(r.file)).config["list"];
    assert after == r.file["list"];
    if other in before {
      assert other in after.fields && after.fields[other] == before[other];
    } else {
      assert other !in after.fields;
    }
  }

  /** A second `alias` of the same name, with any url, reports it as added and writes nothing. */
  lemma AliasTwiceReportsDuplicate(file: Option<Doc>, name: string, url: string, url2: string)
    requires Alias(file, name, url).outcome == Added
    ensures Alias(Some(Alias(file, name, url).file), name, url2).outcome == AlreadyAdded
    ensures Alias(Some(Alias(file, name, url).file), name, url2).file == Alias(file, name, url).file
  {
    var r := Alias(file, name, url);
    assert GetRc(Some(r.file)).config["list"] == r.file["list"];
    assert Truthy(r.file["list"].fields[name]);
  }

  /** A built-in alias counts as present even before the file exists. */
  lemma AliasOfBuiltIn(url: string)
    ensures Alias(None, "Google", url) == AliasResult(AlreadyAdded, Defaults)
  {
  }

  /** An inherited property name such as `toString` counts as present in an empty list. */
  lemma AliasOfInheritedName(url: string)
    ensures Alias(Some(map[]), "toString", url).outcome == AlreadyAdded
  {
  }

  /** A falsy entry does not count as present, so it is overwritten. */
  lemma AliasOverwritesFalsyEntry(url: string)
    ensures var r := Alias(Some(map["list" := Obj(map["mine" := Str("")])]), "mine", url);
      r.outcome == Added && r.file["list"] == Obj(map["mine" := Source(url)])
  {
    var doc := map["list" := Obj(map["mine" := Str("")])];
    var config := GetRc(Some(doc)).config;
    assert config["list"] == Obj(map["mine" := Str("")]);
    assert !HasAlias(config["list"].fields, "mine");
    var r := Alias(Some(doc), "mine", url);
    assert r.file["list"].fields.Keys == {"mine"};
  }
}
