/**
 * `getStorages()` (core/storages/__init__.py): builds the storages the node
 * uses from the `storages` configuration value, a list of dicts, each with a
 * `type` and the constructor arguments of that type. The result is the list
 * of constructor calls, in configuration order.
 */
module Storages {
  import opened Classes
  import opened Config

  /** A storage to construct, with the configuration values passed to its constructor. */
  datatype StorageConfig =
    | LocalConfig(path: Value)
    | AListConfig(username: Value, password: Value, url: Value, path: Value)

  /** `d[key]` on a dict: the entry, or KeyError. */
  function Field(d: map<string, Value>, key: string): (r: Result<Value>)
    ensures r.Ok? <==> key in d
    ensures r.Ok? ==> r.value == d[key]
    ensures r.Err? ==> r.error == KeyError(key)
  {
    if key in d then Ok(d[key]) else Err(KeyError(key))
  }

  /**
   * What one entry of the list contributes: a local storage for type
   * `local`, an AList storage for type `alist`, nothing for another type.
   * An entry that is not a dict cannot be indexed by `"type"` (TypeError); a
   * missing key raises KeyError, the arguments being read in the order
   * `username`, `password`, `url`, `path`.
   */
  function EntryStorage(entry: Value): Result<Option<StorageConfig>>
  {
    if !entry.Dict? then Err(TypeError)
    else
      var d := entry.entries;
      match Field(d, "type")
      case Err(e) => Err(e)
      case Ok(kind) =>
        if kind == Str("local") then
          match Field(d, "path")
          case Err(e) => Err(e)
          case Ok(path) => Ok(Some(LocalConfig(path)))
        else if kind == Str("alist") then
          match Field(d, "username")
          case Err(e) => Err(e)
          case Ok(username) =>
            match Field(d, "password")
            case Err(e) => Err(e)
            case Ok(password) =>
              match Field(d, "url")
              case Err(e) => Err(e)
              case Ok(url) =>
                match Field(d, "path")
                case Err(e) => Err(e)
                case Ok(path) => Ok(Some(AListConfig(username, password, url, path)))
        else Ok(None)
  }

  /** The storages built from the entries, front to back; the first entry that raises ends it. */
  function Built(entries: seq<Value>): Result<seq<StorageConfig>>
  {
    if entries == [] then Ok([])
    else match EntryStorage(entries[0])
      case Err(e) => Err(e)
      case Ok(s) =>
        match Built(entries[1..])
        case Err(e) => Err(e)
        case Ok(rest) => Ok((if s.Some? then [s.value] else []) + rest)
  }

  /**
   * Iterating the configuration value: a list yields its items; a dict or a
   * string yields strings, which cannot be indexed by `"type"`, so any of
   * them raises TypeError; an empty one yields nothing; a number, a boolean
   * or None is not iterable (TypeError).
   */
  function Configured(config: Value): Result<seq<StorageConfig>>
  {
    match config
    case List(items) => Built(items)
    case Dict(entries) => if entries == map[] then Ok([]) else Err(TypeError)
    case Str(s) => if s == "" then Ok([]) else Err(TypeError)
    case _ => Err(TypeError)
  }

  /** Each configured storage comes from one entry, at most one per entry. */
  lemma {:induction false} BuiltLength(entries: seq<Value>)
    requires Built(entries).Ok?
    ensures |Built(entries).value| <= |entries|
  {
    if entries != [] {
      BuiltLength(entries[1..]);
    }
  }

  /** `Built` succeeds exactly when every entry does. */
  lemma {:induction false} BuiltOkIff(entries: seq<Value>)
    ensures Built(entries).Ok? <==> forall i :: 0 <= i < |entries| ==> EntryStorage(entries[i]).Ok?
  {
    if entries != [] {
      BuiltOkIff(entries[1..]);
      assert forall i :: 1 <= i < |entries| ==> entries[i] == entries[1..][i - 1];
    }
  }

  /** When it fails, the error is that of the first entry that raises. */
  lemma {:induction false} BuiltRaisesFirst(entries: seq<Value>)
    requires Built(entries).Err?
    ensures exists i :: (0 <= i < |entries| && EntryStorage(entries[i]) == Err(Built(entries).error)
      && forall j :: 0 <= j < i ==> EntryStorage(entries[j]).Ok?)
  {
    if EntryStorage(entries[0]).Err? {
      assert EntryStorage(entries[0]) == Err(Built(entries).error);
    } else {
      BuiltRaisesFirst(entries[1..]);
      var i :| 0 <= i < |entries[1..]| && EntryStorage(entries[1..][i]) == Err(Built(entries[1..]).error)
        && forall j :: 0 <= j < i ==> EntryStorage(entries[1..][j]).Ok?;
      assert EntryStorage(entries[i + 1]) == Err(Built(entries).error);
      assert forall j :: 1 <= j < i + 1 ==> entries[j] == entries[1..][j - 1];
    }
  }

  /** A result with `done` in front of what it built. */
  function Prefixed(done: seq<StorageConfig>, r: Result<seq<StorageConfig>>): Result<seq<StorageConfig>>
  {
    match r
    case Err(e) => Err(e)
    case Ok(rest) => Ok(done + rest)
  }

  /** What an entry that does not raise adds: its storage, or nothing. */
  function Added(s: Option<StorageConfig>): seq<StorageConfig>
  {
    if s.Some? then [s.value] else []
  }

  /** One step of `Built` past an entry that does not raise. */
  lemma BuiltStep(entries: seq<Value>)
    requires entries != [] && EntryStorage(entries[0]).Ok?
    ensures Built(entries) == Prefixed(Added(EntryStorage(entries[0]).value), Built(entries[1..]))
  {
  }

  /** `Built` of an entry in front of others. */
  lemma BuiltCons(e: Value, rest: seq<Value>)
    requires EntryStorage(e).Ok?
    ensures Built([e] + rest) == Prefixed(Added(EntryStorage(e).value), Built(rest))
  {
    assert ([e] + rest)[0] == e && ([e] + rest)[1..] == rest;
  }

  /** Concatenation of built storages is associative. */
  lemma AssocAdded(x: seq<StorageConfig>, y: seq<StorageConfig>, z: seq<StorageConfig>)
    ensures x + (y + z) == (x + y) + z
  {
  }

  /** Building two runs of entries one after the other builds their storages one after the other. */
  lemma {:induction false} BuiltAppend(a: seq<Value>, b: seq<Value>)
    requires Built(a).Ok? && Built(b).Ok?
    ensures Built(a + b) == Ok(Built(a).value + Built(b).value)
  {
    if a == [] {
      assert a + b == b;
      assert Built(a).value + Built(b).value == Built(b).value;
    } else {
      BuiltStep(a);
      assert a + b == [a[0]] + (a[1..] + b);
      BuiltCons(a[0], a[1..] + b);
      BuiltAppend(a[1..], b);
      AssocAdded(Added(EntryStorage(a[0]).value), Built(a[1..]).value, Built(b).value);
    }
  }

  /**
   * A storage comes from a dict of type `local` or `alist`, and its
   * constructor arguments are that dict's entries, unchanged.
   */
  lemma EntryPassesThrough(e: Value)
    requires EntryStorage(e).Ok? && EntryStorage(e).value.Some?
    ensures var c := EntryStorage(e).value.value;
      && e.Dict? && "type" in e.entries && "path" in e.entries && c.path == e.entries["path"]
      && (c.LocalConfig? <==> e.entries["type"] == Str("local"))
      && (c.AListConfig? <==> e.entries["type"] == Str("alist"))
      && (c.AListConfig? ==>
            && "username" in e.entries && c.username == e.entries["username"]
            && "password" in e.entries && c.password == e.entries["password"]
            && "url" in e.entries && c.url == e.entries["url"])
  {
  }

  /** An entry of another type, S3 among them, contributes nothing. */
  lemma OtherTypesSkipped(e: Value)
    requires e.Dict? && "type" in e.entries && e.entries["type"] != Str("local") && e.entries["type"] != Str("alist")
    ensures EntryStorage(e) == Ok(None)
  {
  }

  /** The keys the constructor of a storage of type `kind` reads, in the order they are read. */
  function ArgumentKeys(kind: Value): seq<string>
  {
    if kind == Str("local") then ["path"]
    else if kind == Str("alist") then ["username", "password", "url", "path"]
    else []
  }

  /** The first of `keys` that `d` lacks, if any. */
  function FirstAbsent(d: map<string, Value>, keys: seq<string>): (r: Option<string>)
    ensures r.Some? ==> r.value in keys && r.value !in d
    ensures r.None? <==> forall k :: k in keys ==> k in d
  {
    if keys == [] then None
    else if keys[0] !in d then Some(keys[0])
    else FirstAbsent(d, keys[1..])
  }

  /**
   * An entry raises exactly as `storage[...]` does: TypeError for a non-dict,
   * KeyError for a missing `type`, and otherwise KeyError for the first
   * constructor argument, in reading order, that the dict lacks.
   */
  lemma EntryErrors(e: Value)
    ensures !e.Dict? ==> EntryStorage(e) == Err(TypeError)
    ensures e.Dict? && "type" !in e.entries ==> EntryStorage(e) == Err(KeyError("type"))
    ensures e.Dict? && "type" in e.entries ==>
      var absent := FirstAbsent(e.entries, ArgumentKeys(e.entries["type"]));
      && (EntryStorage(e).Err? <==> absent.Some?)
      && (absent.Some? ==> EntryStorage(e) == Err(KeyError(absent.value)))
  {
    if e.Dict? && "type" in e.entries && e.entries["type"] == Str("alist") {
      var d := e.entries;
      var k1: seq<string>, k2: seq<string>, k3: seq<string> := ["password", "url", "path"], ["url", "path"], ["path"];
      assert ArgumentKeys(e.entries["type"]) == ["username"] + k1;
      assert k1 == ["password"] + k2 && k2 == ["url"] + k3 && k3[1..] == [];
      assert FirstAbsent(d, ["username"] + k1) == if "username" !in d then Some("username") else FirstAbsent(d, k1);
      assert FirstAbsent(d, k1) == if "password" !in d then Some("password") else FirstAbsent(d, k2);
      assert FirstAbsent(d, k2) == if "url" !in d then Some("url") else FirstAbsent(d, k3);
      assert FirstAbsent(d, k3) == if "path" !in d then Some("path") else None;
    }
  }

  /** The default `storages` value builds one local storage at `./cache`. */
  lemma DefaultStorages()
    ensures Configured(List([Dict(map["type" := Str("local"), "path" := Str("./cache")])])) == Ok([LocalConfig(Str("./cache"))])
  {
    var d := map["type" := Str("local"), "path" := Str("./cache")];
    assert "type" in d && d["type"] == Str("local") && "path" in d && d["path"] == Str("./cache");
    assert EntryStorage(Dict(d)) == Ok(Some(LocalConfig(Str("./cache"))));
    assert [Dict(d)][1..] == [];
    assert Built([Dict(d)]) == Ok([LocalConfig(Str("./cache"))] + []);
    assert [LocalConfig(Str("./cache"))] + [] == [LocalConfig(Str("./cache"))];
  }

  /** `getStorages()` as the loop it is, on the value `Config.get("storages")` answered. */
  method GetStorages(config: Value) returns (r: Result<seq<StorageConfig>>)
    ensures r == Configured(config)
  {
    if !config.List? {
      return Configured(config);
    }
    var items := config.items;
    var storages: seq<StorageConfig> := [];
    var i := 0;
    assert Prefixed([], Built(items[0..])) == Built(items) by {
      assert items[0..] == items;
      if Built(items).Ok? {
        assert [] + Built(items).value == Built(items).value;
      }
    }
    while i < |items|
      invariant i <= |items|
      invariant Built(items) == Prefixed(storages, Built(items[i..]))
    {
      assert items[i..][0] == items[i] && items[i..][1..] == items[i + 1..];
      var entry := EntryStorage(items[i]);
      if entry.Err? {
        return Err(entry.error);
      }
      ghost var rest := Built(items[i + 1..]);
      ghost var added := Added(entry.value);
      BuiltStep(items[i..]);
      if entry.value.Some? {
        if rest.Ok? {
          AssocAdded(storages, added, rest.value);
        }
        storages := storages + [entry.value.value];
      } else if rest.Ok? {
        assert added + rest.value == rest.value;
      }
      i := i + 1;
    }
    assert items[i..] == [];
    assert storages + [] == storages;
    return Ok(storages);
  }
}
