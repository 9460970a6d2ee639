/**
 * The configuration store (core/config.py): a YAML document held as a tree of
 * values, read and written with dotted keys (`advanced.retry`), with the
 * environment taking precedence and a table of defaults seeded on demand.
 * Reading and writing the YAML file is left to the caller: the document read
 * is a parameter of the constructor, and every `save` is omitted.
 */
module Config {
  import opened Classes

  /** A YAML value. */
  datatype Value =
    | Null
    | Bool(b: bool)
    | Int(i: int)
    | Str(s: string)
    | List(items: seq<Value>)
    | Dict(entries: map<string, Value>)

  /** Python truthiness: `None`, `False`, `0` and empty strings, lists and dicts are false. */
  predicate Truthy(v: Value)
  {
    match v
    case Null => false
    case Bool(b) => b
    case Int(i) => i != 0
    case Str(s) => s != ""
    case List(items) => items != []
    case Dict(entries) => entries != map[]
  }

  /** `key.split(".")`: the pieces between dots, empty ones included. */
  function Split(s: string): (r: seq<string>)
    ensures |r| >= 1
    ensures forall j, k :: 0 <= j < |r| && 0 <= k < |r[j]| ==> r[j][k] != '.'
  {
    if s == "" then [""]
    else
      var rest := Split(s[1..]);
      if s[0] == '.' then [""] + rest else [[s[0]] + rest[0]] + rest[1..]
  }

  /** `".".join(pieces)`. */
  function JoinDots(pieces: seq<string>): string
    requires |pieces| >= 1
  {
    if |pieces| == 1 then pieces[0] else pieces[0] + "." + JoinDots(pieces[1..])
  }

  /** Whether no piece contains a dot. */
  predicate DotFree(pieces: seq<string>)
  {
    forall j, k :: 0 <= j < |pieces| && 0 <= k < |pieces[j]| ==> pieces[j][k] != '.'
  }

  /** Splitting a string and joining the pieces gives the string back. */
  lemma {:induction false} JoinSplit(s: string)
    ensures JoinDots(Split(s)) == s
    decreases |s|
  {
    if s != "" {
      JoinSplit(s[1..]);
      var rest := Split(s[1..]);
      if s[0] != '.' {
        if |rest| > 1 {
          assert ([[s[0]] + rest[0]] + rest[1..])[1..] == rest[1..];
          assert JoinDots(rest) == rest[0] + "." + JoinDots(rest[1..]);
        }
      } else {
        assert ([""] + rest)[1..] == rest;
      }
    }
  }

  /** Splitting a single piece without a dot ahead of the rest. */
  lemma {:induction false} SplitPrefix(w: string, t: string)
    requires forall k :: 0 <= k < |w| ==> w[k] != '.'
    ensures Split(w + t) == [w + Split(t)[0]] + Split(t)[1..]
    decreases |w|
  {
    var st := Split(t);
    if w == "" {
      assert w + t == t;
      assert w + st[0] == st[0];
      assert st == [st[0]] + st[1..];
    } else {
      var u := w + t;
      assert u[0] == w[0] && u[1..] == w[1..] + t;
      SplitPrefix(w[1..], t);
      var rest := Split(u[1..]);
      assert rest == [w[1..] + st[0]] + st[1..];
      assert rest[0] == w[1..] + st[0] && rest[1..] == st[1..];
      assert Split(u) == [[w[0]] + rest[0]] + rest[1..];
      assert [w[0]] + (w[1..] + st[0]) == w + st[0];
    }
  }

  /** Joining dot-free pieces and splitting the result gives the pieces back. */
  lemma {:induction false} SplitJoin(pieces: seq<string>)
    requires |pieces| >= 1 && DotFree(pieces)
    ensures Split(JoinDots(pieces)) == pieces
    decreases |pieces|
  {
    var w := pieces[0];
    assert forall k :: 0 <= k < |w| ==> w[k] != '.';
    if |pieces| == 1 {
      SplitPrefix(w, "");
      assert w + "" == w;
      assert Split("") == [""];
      assert pieces == [w];
    } else {
      var rest := pieces[1..];
      assert DotFree(rest) by {
        forall j, k | 0 <= j < |rest| && 0 <= k < |rest[j]|
          ensures rest[j][k] != '.'
        {
          assert rest[j] == pieces[j + 1];
        }
      }
      SplitJoin(rest);
      var t := "." + JoinDots(rest);
      assert t[0] == '.' && t[1..] == JoinDots(rest);
      var st := Split(t);
      assert st == [""] + rest;
      assert st[0] == "" && st[1..] == rest;
      SplitPrefix(w, t);
      assert w + t == JoinDots(pieces);
      assert w + "" == w;
      assert pieces == [w] + rest;
    }
  }

  /** `key in s` for strings: `key` occurs in `s` as a substring. */
  predicate Occurs(key: string, s: string)
  {
    exists i :: 0 <= i <= |s| && key <= s[i..]
  }

  /**
   * `_getValue(tree, keys)`: follows the keys from the root and answers None
   * (Null) at the first key that is absent. A present key in a string (as a
   * substring) or in a list (as an element) is then used as an index and
   * raises TypeError, as does a membership test on a number, a boolean or
   * None.
   */
  function Lookup(t: Value, keys: seq<string>): Result<Value>
    decreases |keys|
  {
    if keys == [] then Ok(t)
    else match t
      case Dict(m) => if keys[0] in m then Lookup(m[keys[0]], keys[1..]) else Ok(Null)
      case Str(s) => if Occurs(keys[0], s) then Err(TypeError) else Ok(Null)
      case List(items) => if Str(keys[0]) in items then Err(TypeError) else Ok(Null)
      case _ => Err(TypeError)
  }

  /**
   * `_setValue(tree, keys, value)`: creates an empty dict for every absent
   * key but the last on the way down and stores the value under the last.
   * A value on the way that is not a dict raises TypeError; no keys at all
   * raise IndexError. A raise happens before anything was created, so the
   * tree is then unchanged.
   */
  function SetIn(t: Value, keys: seq<string>, v: Value): Result<Value>
    decreases |keys|
  {
    if keys == [] then Err(IndexError)
    else if !t.Dict? then Err(TypeError)
    else if |keys| == 1 then Ok(Dict(t.entries[keys[0] := v]))
    else
      var child := if keys[0] in t.entries then t.entries[keys[0]] else Dict(map[]);
      match SetIn(child, keys[1..], v)
      case Err(e) => Err(e)
      case Ok(c) => Ok(Dict(t.entries[keys[0] := c]))
  }

  /** Whether every value already on the way down `keys` is a dict. */
  predicate Settable(t: Value, keys: seq<string>)
    decreases |keys|
  {
    && |keys| >= 1
    && t.Dict?
    && (|keys| == 1 || keys[0] !in t.entries || Settable(t.entries[keys[0]], keys[1..]))
  }

  /** Whether two key paths part somewhere, neither being a prefix of the other. */
  predicate Diverge(p: seq<string>, q: seq<string>)
    decreases |p|
  {
    |p| > 0 && |q| > 0 && (p[0] != q[0] || Diverge(p[1..], q[1..]))
  }

  /** A fresh empty dict takes any non-empty key path. */
  lemma {:induction false} EmptySettable(keys: seq<string>)
    requires |keys| >= 1
    ensures Settable(Dict(map[]), keys)
  {
  }

  /** `_setValue` raises exactly when some value on the way is no dict, and then only TypeError. */
  lemma {:induction false} SettableIff(t: Value, keys: seq<string>, v: Value)
    requires |keys| >= 1
    ensures SetIn(t, keys, v).Ok? <==> Settable(t, keys)
    ensures SetIn(t, keys, v).Err? ==> SetIn(t, keys, v).error == TypeError
    decreases |keys|
  {
    if t.Dict? && |keys| > 1 {
      var child := if keys[0] in t.entries then t.entries[keys[0]] else Dict(map[]);
      SettableIff(child, keys[1..], v);
      if keys[0] !in t.entries {
        EmptySettable(keys[1..]);
      }
    }
  }

  /** After a set that succeeded, reading the same key gives the value set. */
  lemma {:induction false} GetAfterSet(t: Value, keys: seq<string>, v: Value)
    requires SetIn(t, keys, v).Ok?
    ensures Lookup(SetIn(t, keys, v).value, keys) == Ok(v)
    decreases |keys|
  {
    if |keys| > 1 {
      var child := if keys[0] in t.entries then t.entries[keys[0]] else Dict(map[]);
      GetAfterSet(child, keys[1..], v);
    }
  }

  /** Reading below the key just set reads inside the value set. */
  lemma {:induction false} GetBelowSet(t: Value, keys: seq<string>, v: Value, more: seq<string>)
    requires SetIn(t, keys, v).Ok?
    ensures Lookup(SetIn(t, keys, v).value, keys + more) == Lookup(v, more)
    decreases |keys|
  {
    assert (keys + more)[1..] == keys[1..] + more;
    if |keys| > 1 {
      var child := if keys[0] in t.entries then t.entries[keys[0]] else Dict(map[]);
      GetBelowSet(child, keys[1..], v, more);
    } else {
      assert (keys + more)[1..] == more;
    }
  }

  /** A set leaves every key path that parts from its own reading as before. */
  lemma {:induction false} SetKeepsOthers(t: Value, keys: seq<string>, v: Value, other: seq<string>)
    requires SetIn(t, keys, v).Ok? && Diverge(keys, other)
    ensures Lookup(SetIn(t, keys, v).value, other) == Lookup(t, other)
    decreases |keys|
  {
    if keys[0] == other[0] {
      var child := if keys[0] in t.entries then t.entries[keys[0]] else Dict(map[]);
      SetKeepsOthers(child, keys[1..], v, other[1..]);
    }
  }

  /** A set leaves every key path that parts from its own as settable as before. */
  lemma {:induction false} SetKeepsSettable(t: Value, keys: seq<string>, v: Value, other: seq<string>)
    requires SetIn(t, keys, v).Ok? && Diverge(keys, other) && Settable(t, other)
    ensures Settable(SetIn(t, keys, v).value, other)
    decreases |keys|
  {
    if keys[0] == other[0] {
      var child := if keys[0] in t.entries then t.entries[keys[0]] else Dict(map[]);
      if keys[0] !in t.entries {
        EmptySettable(other[1..]);
      }
      SetKeepsSettable(child, keys[1..], v, other[1..]);
    }
  }

  /** `_getValue` as the loop it is: one step down per key. */
  method GetValue(tree: Value, keys: seq<string>) returns (r: Result<Value>)
    ensures r == Lookup(tree, keys)
  {
    var node := tree;
    var i := 0;
    while i < |keys|
      invariant i <= |keys|
      invariant Lookup(tree, keys) == Lookup(node, keys[i..])
    {
      var key := keys[i];
      assert keys[i..][1..] == keys[i + 1..];
      match node {
        case Dict(m) =>
          if key !in m {
            return Ok(Null);
          }
          node := m[key];
        case Str(s) =>
          return if Occurs(key, s) then Err(TypeError) else Ok(Null);
        case List(items) =>
          return if Str(key) in items then Err(TypeError) else Ok(Null);
        case _ =>
          return Err(TypeError);
      }
      i := i + 1;
    }
    return Ok(node);
  }

  /**
   * The tree rebuilt around a result from the innermost dict of `stack` out:
   * the dict at depth `j` gets the result below it under `keys[j]`.
   */
  function Rebuild(stack: seq<map<string, Value>>, keys: seq<string>, r: Result<Value>): Result<Value>
    requires |stack| <= |keys|
    decreases |stack|
  {
    if |stack| == 0 then r
    else
      var j := |stack| - 1;
      Rebuild(stack[..j], keys, match r case Err(e) => Err(e) case Ok(c) => Ok(Dict(stack[j][keys[j] := c])))
  }

  /** An error below goes out unchanged. */
  lemma {:induction false} RebuildErr(stack: seq<map<string, Value>>, keys: seq<string>, e: Error)
    requires |stack| <= |keys|
    ensures Rebuild(stack, keys, Err(e)) == Err(e)
    decreases |stack|
  {
    if |stack| > 0 {
      RebuildErr(stack[..|stack| - 1], keys, e);
    }
  }

  /**
   * `_setValue` as a loop: walks down the dicts on the way, then stores the
   * value and puts the updated dicts back on the way up (the source updates
   * the nested dicts in place instead).
   */
  method SetValue(tree: Value, keys: seq<string>, v: Value) returns (r: Result<Value>)
    ensures r == SetIn(tree, keys, v)
  {
    if |keys| == 0 {
      return Err(IndexError);
    }
    var node := tree;
    var stack: seq<map<string, Value>> := [];
    var i := 0;
    while i < |keys| - 1
      invariant i == |stack| && i <= |keys| - 1
      invariant SetIn(tree, keys, v) == Rebuild(stack, keys, SetIn(node, keys[i..], v))
    {
      if !node.Dict? {
        RebuildErr(stack, keys, TypeError);
        return Err(TypeError);
      }
      var m := node.entries;
      var key := keys[i];
      assert keys[i..][1..] == keys[i + 1..];
      var child := if key in m then m[key] else Dict(map[]);
      assert (stack + [m])[..i] == stack;
      stack := stack + [m];
      node := child;
      i := i + 1;
    }
    if !node.Dict? {
      RebuildErr(stack, keys, TypeError);
      return Err(TypeError);
    }
    var result := Dict(node.entries[keys[i] := v]);
    assert keys[i..] == [keys[i]];
    assert stack[..|stack|] == stack;
    var j := |stack|;
    while j > 0
      invariant 0 <= j <= |stack|
      invariant SetIn(tree, keys, v) == Rebuild(stack[..j], keys, Ok(result))
    {
      assert stack[..j][..j - 1] == stack[..j - 1];
      result := Dict(stack[j - 1][keys[j - 1] := result]);
      j := j - 1;
    }
    return Ok(result);
  }

  /** The `defaults` table, in its order; each key is given by its dot-separated pieces. */
  const Defaults: seq<(seq<string>, Value)> := [
    (["advanced", "api_version"], Str("1.13.1")),
    (["advanced", "lang"], Str("zh_cn")),
    (["advanced", "debug"], Bool(false)),
    (["advanced", "retry"], Int(5)),
    (["advanced", "delay"], Int(15)),
    (["advanced", "keep_alive"], Int(60)),
    (["advanced", "sync_interval"], Int(120)),
    (["cluster", "base_url"], Str("https://openbmclapi.bangbang93.com")),
    (["cluster", "id"], Str("")),
    (["cluster", "secret"], Str("")),
    (["cluster", "host"], Str("")),
    (["cluster", "byoc"], Bool(false)),
    (["cluster", "public_port"], Int(-1)),
    (["cluster", "port"], Int(8800)),
    (["storages"], List([Dict(map["type" := Str("local"), "path" := Str("./cache")])])),
    (["advanced", "paths", "cert"], Str("./cert/cert.pem")),
    (["advanced", "paths", "key"], Str("./cert/key.pem"))
  ]

  /** Every default key is a non-empty list of dot-free pieces. */
  lemma DefaultsWellFormed()
    ensures forall j :: 0 <= j < |Defaults| ==> |Defaults[j].0| >= 1 && DotFree(Defaults[j].0)
  {
  }

  /** Any two keys of the table part somewhere: no key is another's prefix. */
  lemma DefaultsApart()
    ensures forall i, j :: 0 <= i < |Defaults| && 0 <= j < |Defaults| && i != j ==> Diverge(Defaults[i].0, Defaults[j].0)
  {
    forall i, j | 0 <= i < |Defaults| && 0 <= j < |Defaults| && i != j
      ensures Diverge(Defaults[i].0, Defaults[j].0)
    {
      var p, q := Defaults[i].0, Defaults[j].0;
      // keys under the same section part at the second piece, or under `paths` at the third
      if p[0] == q[0] && |p| > 1 && |q| > 1 {
        assert p[1..][0] != q[1..][0] || (p[2..][0] != q[2..][0]);
      }
    }
  }

  /** `defaults.get(key)`: the default for a dotted key, if the table has one. */
  function DefaultFor(key: string): (r: Option<Value>)
    ensures r.Some? <==> exists j :: 0 <= j < |Defaults| && JoinDots(Defaults[j].0) == key
  {
    DefaultFrom(key, 0)
  }

  /** The first default from position `j` on whose key is `key`. */
  function DefaultFrom(key: string, j: nat): (r: Option<Value>)
    requires j <= |Defaults|
    ensures r.Some? <==> exists i :: j <= i < |Defaults| && JoinDots(Defaults[i].0) == key
    decreases |Defaults| - j
  {
    if j == |Defaults| then None
    else if JoinDots(Defaults[j].0) == key then Some(Defaults[j].1)
    else DefaultFrom(key, j + 1)
  }

  /** What a dotted key reads: a non-empty environment variable of that name, else the tree. */
  function Fetched(cfg: Value, key: string, env: map<string, string>): Result<Value>
  {
    if key in env && env[key] != "" then Ok(Str(env[key])) else Lookup(cfg, Split(key))
  }

  /**
   * `get(key, def_)`: the answer and the tree afterwards. When nothing was
   * read and no `def_` was given, the default is stored and answered; a
   * `def_` that was given is never answered.
   */
  function Resolve(cfg: Value, key: string, def: Value, env: map<string, string>): (Result<Value>, Value)
  {
    match Fetched(cfg, key, env)
    case Err(e) => (Err(e), cfg)
    case Ok(x) =>
      if x != Null || def != Null then (Ok(x), cfg)
      else match DefaultFor(key)
        case None => (Ok(Null), cfg)
        case Some(d) =>
          if d == Null then (Ok(d), cfg)
          else match SetIn(cfg, Split(key), d)
            case Err(e) => (Err(e), cfg)
            case Ok(t) => (Ok(d), t)
  }

  /** A non-empty environment variable wins and nothing is stored. */
  lemma EnvironmentWins(cfg: Value, key: string, def: Value, env: map<string, string>)
    requires key in env && env[key] != ""
    ensures Resolve(cfg, key, def, env) == (Ok(Str(env[key])), cfg)
  {
  }

  /** As written, a `def_` that was given is never what `get` answers for an unset key. */
  lemma DefaultArgumentIgnored(cfg: Value, key: string, def: Value, env: map<string, string>)
    requires def != Null && Fetched(cfg, key, env) == Ok(Null)
    ensures Resolve(cfg, key, def, env) == (Ok(Null), cfg)
  {
  }

  /**
   * An unset key with a default gets it stored, so that the next `get`
   * reads it from the tree without storing anything again.
   */
  lemma DefaultSeededOnce(cfg: Value, key: string, env: map<string, string>)
    requires !(key in env && env[key] != "")
    requires Lookup(cfg, Split(key)) == Ok(Null) && DefaultFor(key).Some?
    requires Settable(cfg, Split(key))
    ensures DefaultFor(key).value != Null ==>
      var (answer, after) := Resolve(cfg, key, Null, env);
      && answer == Ok(DefaultFor(key).value)
      && Lookup(after, Split(key)) == Ok(DefaultFor(key).value)
      && Resolve(after, key, Null, env) == (answer, after)
  {
    var d := DefaultFor(key).value;
    SettableIff(cfg, Split(key), d);
    if d != Null {
      GetAfterSet(cfg, Split(key), d);
    }
  }

  /** The configuration, `cfg` being the YAML document as a tree. */
  class Cfg {
    var cfg: Value

    /**
     * `CFG(path)`: `loaded` is the document read from an existing file
     * (None when there is none). A document that is not truthy becomes an
     * empty dict; without a file every default is set in table order.
     */
    constructor (loaded: Option<Value>)
      ensures loaded.Some? ==> cfg == if Truthy(loaded.value) then loaded.value else Dict(map[])
      ensures loaded.None? ==> forall j :: 0 <= j < |Defaults| ==> Lookup(cfg, Defaults[j].0) == Ok(Defaults[j].1)
    {
      cfg := Dict(map[]);
      new;
      if loaded.Some? {
        cfg := if Truthy(loaded.value) then loaded.value else Dict(map[]);
        return;
      }
      DefaultsWellFormed();
      DefaultsApart();
      var i := 0;
      while i < |Defaults|
        invariant i <= |Defaults|
        invariant forall j :: 0 <= j < i ==> Lookup(cfg, Defaults[j].0) == Ok(Defaults[j].1)
        invariant forall j :: i <= j < |Defaults| ==> Settable(cfg, Defaults[j].0)
      {
        var (keys, value) := Defaults[i];
        SplitJoin(keys);
        SettableIff(cfg, keys, value);
        ghost var before := cfg;
        var _ := Set(JoinDots(keys), value);
        GetAfterSet(before, keys, value);
        forall j | 0 <= j < |Defaults| && j != i
          ensures Lookup(cfg, Defaults[j].0) == Lookup(before, Defaults[j].0)
          ensures Settable(before, Defaults[j].0) ==> Settable(cfg, Defaults[j].0)
        {
          SetKeepsOthers(before, keys, value, Defaults[j].0);
          if Settable(before, Defaults[j].0) {
            SetKeepsSettable(before, keys, value, Defaults[j].0);
          }
        }
        i := i + 1;
      }
    }

    /** `set(key, value)`: the tree with the value stored, or unchanged and the error when `_setValue` raises. */
    method Set(key: string, value: Value) returns (r: Result<()>)
      modifies this
      ensures SetIn(old(cfg), Split(key), value).Ok? ==> r == Ok(()) && cfg == SetIn(old(cfg), Split(key), value).value
      ensures SetIn(old(cfg), Split(key), value).Err? ==> r == Err(SetIn(old(cfg), Split(key), value).error) && cfg == old(cfg)
    {
      var res := SetValue(cfg, Split(key), value);
      match res {
        case Err(e) => return Err(e);
        case Ok(t) =>
          cfg := t;
          return Ok(());
      }
    }

    /** `get(key, def_)`, `def_` being Null when not given and `env` the process environment. */
    method Get(key: string, def: Value, env: map<string, string>) returns (r: Result<Value>)
      modifies this
      ensures (r, cfg) == Resolve(old(cfg), key, def, env)
    {
      var value: Value;
      if key in env && env[key] != "" {
        value := Str(env[key]);
      } else {
        var got := GetValue(cfg, Split(key));
        if got.Err? {
          return got;
        }
        value := got.value;
      }
      if value == Null && def == Null {
        var d := DefaultFor(key);
        if d.Some? {
          value := d.value;
          if value != Null {
            var stored := Set(key, value);
            if stored.Err? {
              return Err(stored.error);
            }
          }
        }
      }
      return Ok(value);
    }
  }
}
