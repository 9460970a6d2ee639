/**
 * The local-disk backend (core/storages/local.py). The directory tree under
 * the storage root is a map from the path of each regular file to its size;
 * a file's content is stored under `root/h[:2]/h`, where `h` is its hash.
 */
module Local {
  import opened Classes
  import opened Retry

  /** Whether `s` ends in a slash. */
  predicate EndsInSlash(s: string)
  {
    |s| > 0 && s[|s| - 1] == '/'
  }

  /**
   * `os.path.join(a, b)` on POSIX: an absolute `b` replaces `a`; otherwise
   * `b` is appended, with a separating slash unless `a` is empty or already
   * ends in one.
   */
  function Join(a: string, b: string): string
  {
    if |b| > 0 && b[0] == '/' then b
    else if a == [] || EndsInSlash(a) then a + b
    else a + "/" + b
  }

  /** A joined path ends with its second part, which replaces the first when absolute. */
  lemma JoinEndsWith(a: string, b: string)
    ensures |b| > 0 && b[0] == '/' ==> Join(a, b) == b
    ensures !(|b| > 0 && b[0] == '/') ==> |Join(a, b)| >= |b| && Join(a, b)[|Join(a, b)| - |b|..] == b
  {
  }

  /** The directory part a relative name is appended to: `root` with a trailing slash, or nothing. */
  function Dir(root: string): string
  {
    if root == [] || EndsInSlash(root) then root else root + "/"
  }

  /** The path of the file holding the content with hash `h`. */
  function KeyPath(root: string, h: string): string
  {
    Join(Join(root, Shard(h)), h)
  }

  /** A hash that names one file below its shard directory: not empty, no slash. */
  predicate PlainName(h: string)
  {
    |h| > 0 && forall i :: 0 <= i < |h| ==> h[i] != '/'
  }

  /** For a plain hash the key path is the root directory, the shard, a slash and the hash. */
  lemma KeyPathLayout(root: string, h: string)
    requires PlainName(h)
    ensures KeyPath(root, h) == Dir(root) + Shard(h) + "/" + h
  {
    assert Shard(h)[0] == h[0];
    assert !EndsInSlash(Dir(root) + Shard(h)) by {
      var s := Dir(root) + Shard(h);
      assert s[|s| - 1] == h[|Shard(h)| - 1];
    }
  }

  /** Distinct plain hashes are stored at distinct paths, so no two entries share a file. */
  lemma KeyPathInjective(root: string, h1: string, h2: string)
    requires PlainName(h1) && PlainName(h2)
    requires KeyPath(root, h1) == KeyPath(root, h2)
    ensures h1 == h2
  {
    KeyPathLayout(root, h1);
    KeyPathLayout(root, h2);
    assert (Dir(root) + Shard(h1)) + "/" + h1 == (Dir(root) + Shard(h2)) + "/" + h2;
    AfterLastSlashOf(Dir(root) + Shard(h1), h1);
    AfterLastSlashOf(Dir(root) + Shard(h2), h2);
  }

  /** `stat(key).st_size`, or None where `stat` raises FileNotFoundError. */
  function Stat(disk: map<string, nat>, key: string): (r: Option<nat>)
    ensures r.Some? <==> key in disk
    ensures r.Some? ==> r.value == disk[key]
  {
    if key in disk then Some(disk[key]) else None
  }

  /**
   * The outcome of `writeFile` given what `stat` finds at the key path. The
   * pre-check calls `stat` unguarded (the `exists` attribute is never called),
   * so an absent file raises; a stored file as long as the content (not as
   * long as the manifest size) is kept; otherwise the retry loop runs and
   * catches every exception.
   */
  function LocalWrite(stored: Option<nat>, size: int, contentLen: nat, retry: int, oracle: seq<Attempt>): WriteRun
  {
    match stored
    case None => WriteRun(Err(FileNotFound), 0, false)
    case Some(n) =>
      if n == contentLen then WriteRun(Ok(true), 0, false)
      else FromLoop(Loop(oracle, 0, retry, contentLen == size, true))
  }

  /**
   * `writeFile` raises only where the file is absent; it reports True only
   * when the pre-check kept a file of the content's length or when it stored
   * content of the manifest size; it sleeps at most once per attempt, and
   * with `retry <= 0` it never writes.
   */
  lemma LocalWriteOutcome(stored: Option<nat>, size: int, contentLen: nat, retry: int, oracle: seq<Attempt>)
    ensures var w := LocalWrite(stored, size, contentLen, retry, oracle);
      && (w.outcome.Err? <==> stored == None)
      && (w.outcome.Err? ==> w.outcome.error == FileNotFound)
      && (w.outcome == Ok(true) ==> stored == Some(contentLen) || (contentLen == size && w.stores))
      && w.sleeps <= Budget(retry, 0)
      && (retry <= 0 ==> !w.stores)
  {
    CatchAllNeverEscapes(oracle, 0, retry, contentLen == size);
    LoopVerdict(oracle, 0, retry, contentLen == size, true);
    LoopBounds(oracle, 0, retry, contentLen == size, true);
  }

  /** Whether `getMissingFiles` reports `f`: no file at its path, or one of another size. */
  predicate Missing(disk: map<string, nat>, root: string, f: FileInfo)
  {
    var k := KeyPath(root, f.hash);
    k !in disk || disk[k] != f.size
  }

  /** A write that reports True after storing leaves its entry no longer missing. */
  lemma WriteClearsMissing(disk: map<string, nat>, root: string, f: FileInfo, contentLen: nat, retry: int, oracle: seq<Attempt>)
    requires var w := LocalWrite(Stat(disk, KeyPath(root, f.hash)), f.size, contentLen, retry, oracle);
      w.outcome == Ok(true) && w.stores
    ensures var w := LocalWrite(Stat(disk, KeyPath(root, f.hash)), f.size, contentLen, retry, oracle);
      !Missing(StoreIf(disk, KeyPath(root, f.hash), contentLen, w.stores), root, f)
  {
    LocalWriteOutcome(Stat(disk, KeyPath(root, f.hash)), f.size, contentLen, retry, oracle);
  }

  /**
   * As written, the pre-check compares the stored size with the content's
   * length rather than with the manifest size: when those differ, a file of
   * the content's length is kept, True is reported, and the entry stays missing.
   */
  lemma SkipKeepsMissing(disk: map<string, nat>, root: string, f: FileInfo, contentLen: nat, retry: int, oracle: seq<Attempt>)
    requires Stat(disk, KeyPath(root, f.hash)) == Some(contentLen) && contentLen != f.size
    ensures var w := LocalWrite(Stat(disk, KeyPath(root, f.hash)), f.size, contentLen, retry, oracle);
      && w.outcome == Ok(true)
      && Missing(StoreIf(disk, KeyPath(root, f.hash), contentLen, w.stores), root, f)
  {
  }

  /** The set of key paths of a manifest (`valid_paths`). */
  function ValidPaths(root: string, manifest: FileList): set<string>
  {
    set f | f in manifest.files :: KeyPath(root, f.hash)
  }

  /** The valid paths are exactly the key paths of the manifest's entries. */
  lemma ValidPathsExactly(root: string, manifest: FileList)
    ensures forall f :: f in manifest.files ==> KeyPath(root, f.hash) in ValidPaths(root, manifest)
    ensures forall k :: k in ValidPaths(root, manifest) ==> exists f :: f in manifest.files && k == KeyPath(root, f.hash)
  {
  }

  /** The tree after recycling: the manifest's files and those whose unlink failed stay. */
  function Recycled(disk: map<string, nat>, valid: set<string>, unlinkFails: set<string>): (r: map<string, nat>)
    ensures forall k :: k in r <==> k in disk && (k in valid || k in unlinkFails)
    ensures forall k :: k in r ==> r[k] == disk[k]
  {
    map k | k in disk && (k in valid || k in unlinkFails) :: disk[k]
  }

  /** Recycling makes no manifest entry missing and repairs none: the missing list is unchanged. */
  lemma RecycleKeepsMissing(disk: map<string, nat>, root: string, manifest: FileList, unlinkFails: set<string>, f: FileInfo)
    requires f in manifest.files
    ensures Missing(Recycled(disk, ValidPaths(root, manifest), unlinkFails), root, f) == Missing(disk, root, f)
  {
  }

  /** With no failed unlink, only the manifest's files remain, and a second pass removes nothing. */
  lemma RecycleLeavesOnlyManifest(disk: map<string, nat>, valid: set<string>)
    ensures Recycled(disk, valid, {}).Keys == disk.Keys * valid
    ensures Recycled(Recycled(disk, valid, {}), valid, {}) == Recycled(disk, valid, {})
  {
  }

  /** The sizes of the files at `paths` as they stand in `disk`, added in order. */
  function SumSizes(disk: map<string, nat>, paths: seq<string>): nat
  {
    if paths == [] then 0
    else SumSizes(disk, paths[..|paths| - 1]) + Size(disk, paths[|paths| - 1])
  }

  function Size(disk: map<string, nat>, k: string): nat
  {
    if k in disk then disk[k] else 0
  }

  /** Adding one path at the end adds its size. */
  lemma SumSizesPush(disk: map<string, nat>, s: seq<string>, k: string)
    ensures SumSizes(disk, s + [k]) == SumSizes(disk, s) + Size(disk, k)
  {
    assert (s + [k])[..|s|] == s;
  }

  /** Taking one path out of the middle takes its size out of the total. */
  lemma {:induction false} SumSizesRemove(disk: map<string, nat>, a: seq<string>, x: string, b: seq<string>)
    ensures SumSizes(disk, a + [x] + b) == SumSizes(disk, a + b) + Size(disk, x)
    decreases |b|
  {
    if b == [] {
      assert a + [x] + b == a + [x];
      assert a + b == a;
      SumSizesPush(disk, a, x);
    } else {
      var b', y := b[..|b| - 1], b[|b| - 1];
      assert a + [x] + b == (a + [x] + b') + [y] by {
        assert b == b' + [y];
      }
      assert a + b == (a + b') + [y] by {
        assert b == b' + [y];
      }
      SumSizesPush(disk, a + [x] + b', y);
      SumSizesPush(disk, a + b', y);
      SumSizesRemove(disk, a, x, b');
    }
  }

  /** Taking `x` out of both sides of a multiset equality. */
  lemma MultisetCancel(s: seq<string>, x: string, a: seq<string>, b: seq<string>)
    requires multiset(s + [x]) == multiset(a + [x] + b)
    ensures multiset(s) == multiset(a + b)
  {
    assert multiset(s + [x]) == multiset(s) + multiset{x};
    assert multiset(a + [x] + b) == multiset(a + b) + multiset{x};
    forall e
      ensures multiset(s)[e] == multiset(a + b)[e]
    {
      assert (multiset(s) + multiset{x})[e] == (multiset(a + b) + multiset{x})[e];
    }
  }

  /** The reclaimed total does not depend on the order the tree is walked in. */
  lemma {:induction false} SumSizesPermutation(disk: map<string, nat>, s: seq<string>, t: seq<string>)
    requires multiset(s) == multiset(t)
    ensures SumSizes(disk, s) == SumSizes(disk, t)
    decreases |s|
  {
    if s != [] {
      var s', x := s[..|s| - 1], s[|s| - 1];
      assert s == s' + [x];
      assert x in t by {
        assert x in multiset(s);
      }
      var j :| 0 <= j < |t| && t[j] == x;
      var a, b := t[..j], t[j + 1..];
      assert t == a + [x] + b;
      MultisetCancel(s', x, a, b);
      SumSizesPermutation(disk, s', a + b);
      SumSizesRemove(disk, a, x, b);
      SumSizesPush(disk, s', x);
    } else {
      assert |t| == |multiset(t)|;
    }
  }

  /** The tree once the files of `sel` were unlinked, except those whose unlink failed. */
  function Unlinked(disk: map<string, nat>, sel: seq<string>, unlinkFails: set<string>): map<string, nat>
  {
    map k | k in disk && !(k in sel && k !in unlinkFails) :: disk[k]
  }

  /** Unlinking one more file removes it, unless its unlink fails. */
  lemma UnlinkedStep(disk: map<string, nat>, sel: seq<string>, i: nat, unlinkFails: set<string>)
    requires i < |sel|
    ensures Unlinked(disk, sel[..i + 1], unlinkFails)
         == if sel[i] in unlinkFails then Unlinked(disk, sel[..i], unlinkFails) else Unlinked(disk, sel[..i], unlinkFails) - {sel[i]}
  {
    assert sel[..i + 1] == sel[..i] + [sel[i]];
    assert forall x :: x in sel[..i + 1] <==> x in sel[..i] || x == sel[i];
  }

  /** A file not yet reached by the unlinking is still there, at its size. */
  lemma UnlinkedKeeps(disk: map<string, nat>, sel: seq<string>, k: string, unlinkFails: set<string>)
    requires k in disk && k !in sel
    ensures k in Unlinked(disk, sel, unlinkFails) && Unlinked(disk, sel, unlinkFails)[k] == disk[k]
  {
  }

  /** Adding one more path adds its size. */
  lemma SumSizesSnoc(disk: map<string, nat>, s: seq<string>, i: nat)
    requires i < |s|
    ensures SumSizes(disk, s[..i + 1]) == SumSizes(disk, s[..i]) + Size(disk, s[i])
  {
    assert s[..i + 1][..i] == s[..i];
  }

  /** In a sequence without repeats, an element does not occur before its own position. */
  lemma DistinctPrefix(s: seq<string>, i: nat)
    requires Distinct(s) && i < |s|
    ensures s[i] !in s[..i]
  {
  }

  /** One pass of the unlink loop: the next file is still there, is added to the total, and goes unless its unlink fails. */
  lemma UnlinkNext(disk: map<string, nat>, sel: seq<string>, i: nat, unlinkFails: set<string>)
    requires Distinct(sel) && i < |sel| && sel[i] in disk
    ensures sel[i] in Unlinked(disk, sel[..i], unlinkFails)
    ensures Unlinked(disk, sel[..i], unlinkFails)[sel[i]] == disk[sel[i]]
    ensures SumSizes(disk, sel[..i + 1]) == SumSizes(disk, sel[..i]) + disk[sel[i]]
    ensures Unlinked(disk, sel[..i + 1], unlinkFails)
         == if sel[i] in unlinkFails then Unlinked(disk, sel[..i], unlinkFails) else Unlinked(disk, sel[..i], unlinkFails) - {sel[i]}
  {
    DistinctPrefix(sel, i);
    UnlinkedKeeps(disk, sel[..i], sel[i], unlinkFails);
    UnlinkedStep(disk, sel, i, unlinkFails);
    SumSizesSnoc(disk, sel, i);
  }

  /** Unlinking exactly the files outside `valid` leaves what `Recycled` describes. */
  lemma UnlinkedSelection(disk: map<string, nat>, valid: set<string>, sel: seq<string>, unlinkFails: set<string>)
    requires forall k :: k in sel <==> k in disk && k !in valid
    ensures Unlinked(disk, sel, unlinkFails) == Recycled(disk, valid, unlinkFails)
  {
  }

  /** Whether no path occurs twice in `s`. */
  predicate Distinct(s: seq<string>)
  {
    forall i, j :: 0 <= i < j < |s| ==> s[i] != s[j]
  }

  /**
   * The walk of `recycleFiles` over the tree: each regular file outside
   * `valid`, once, in the order the walk meets them.
   */
  method WalkOutside(tree: set<string>, valid: set<string>) returns (selected: seq<string>)
    ensures forall k :: k in selected <==> k in tree && k !in valid
    ensures Distinct(selected)
  {
    var walk := tree;
    selected := [];
    while walk != {}
      invariant walk <= tree
      invariant forall k :: k in selected <==> k in tree && k !in walk && k !in valid
      invariant Distinct(selected)
      decreases |walk|
    {
      var k :| k in walk;
      if k !in valid {
        selected := selected + [k];
      }
      walk := walk - {k};
    }
  }

  /**
   * The outcome of `express` for `hash` on the tree `disk` under `root`: not
   * found when nothing is at the key path, else the file with its hash in the
   * header. When `getsize` raises after the existence test (`statFails`), the
   * handler builds `HTTPError(text=e)` with an exception where a string is
   * required, and that construction raises TypeError out of `express`.
   */
  function ExpressReply(disk: map<string, nat>, root: string, hash: string, statFails: bool): (r: Result<Reply>)
    ensures r.Err? <==> KeyPath(root, hash) in disk && statFails
    ensures r.Err? ==> r.error == TypeError
    ensures r.Ok? ==> r.value.status in {200, 404}
    ensures r.Ok? ==> (r.value.status == 404 <==> KeyPath(root, hash) !in disk)
    ensures r.Ok? ==> r.value.hashHeader == if r.value.status == 200 then Some(hash) else None
  {
    if KeyPath(root, hash) !in disk then Ok(Reply(404, None))
    else if statFails then Err(TypeError)
    else Ok(Reply(200, Some(hash)))
  }

  /** The storage rooted at `path`; `files` maps each regular file below it to its size. */
  class LocalStorage {
    const path: string
    var files: map<string, nat>

    constructor (path: string, files: map<string, nat>)
      ensures this.path == path && this.files == files
    {
      this.path := path;
      this.files := files;
    }

    /**
     * `writeFile(file, content, delay, retry)`: the unguarded `stat`
     * pre-check, then the attempt loop. `oracle` decides each attempt; a
     * failure after the write completed leaves the content stored. The result
     * is True or False, or the error raised; `sleeps` counts the delays.
     */
    method WriteFile(file: FileInfo, content: seq<byte>, retry: int, oracle: seq<Attempt>) returns (r: Result<bool>, sleeps: nat)
      modifies this
      ensures var w := LocalWrite(Stat(old(files), KeyPath(path, file.hash)), file.size, |content|, retry, oracle);
        && r == w.outcome && sleeps == w.sleeps
        && files == StoreIf(old(files), KeyPath(path, file.hash), |content|, w.stores)
    {
      var key := KeyPath(path, file.hash);
      if key !in files {
        return Err(FileNotFound), 0;
      }
      if files[key] == |content| {
        return Ok(true), 0;
      }
      var w := Attempts(oracle, retry, |content|, file.size, true);
      if w.stores {
        files := files[key := |content|];
      }
      return w.outcome, w.sleeps;
    }

    /** `getMissingFiles`: the manifest entries that are missing on disk, in manifest order. */
    function GetMissingFiles(manifest: FileList): (r: FileList)
      reads this
      ensures forall f :: f in r.files <==> f in manifest.files && Missing(files, path, f)
      ensures forall f :: multiset(r.files)[f] == if Missing(files, path, f) then multiset(manifest.files)[f] else 0
      ensures var disk, root := files, path; r.files == Select(manifest.files, (g: FileInfo) => Missing(disk, root, g))
    {
      var disk, root := files, path;
      var isMissing := (g: FileInfo) => Missing(disk, root, g);
      SelectExact(manifest.files, isMissing);
      assert forall f :: multiset(Select(manifest.files, isMissing))[f] == if isMissing(f) then multiset(manifest.files)[f] else 0 by {
        forall f
          ensures multiset(Select(manifest.files, isMissing))[f] == if isMissing(f) then multiset(manifest.files)[f] else 0
        {
          SelectCount(manifest.files, isMissing, f);
        }
      }
      FileList(Select(manifest.files, isMissing))
    }

    /**
     * `express(hash, counter)`: 404 when no file is at the key path; otherwise
     * the file with its hash header, counting one hit and its size in bytes.
     * `statFails` stands for `getsize` raising after the existence test; the
     * error then escapes and the counters are left alone.
     */
    method Express(hash: string, counter: Counters, statFails: bool) returns (r: Result<Reply>)
      modifies counter
      ensures r == ExpressReply(files, path, hash, statFails)
      ensures r.Ok? && r.value.status == 200 ==>
        counter.hits == old(counter.hits) + 1 && counter.bytes == old(counter.bytes) + files[KeyPath(path, hash)]
      ensures !(r.Ok? && r.value.status == 200) ==> counter.hits == old(counter.hits) && counter.bytes == old(counter.bytes)
    {
      var k := KeyPath(path, hash);
      if !(k in files) {
        return Ok(Reply(404, None));
      }
      if statFails {
        return Err(TypeError);
      }
      var fileSize := files[k];
      r := Ok(Reply(200, Some(hash)));
      counter.bytes := counter.bytes + fileSize;
      counter.hits := counter.hits + 1;
    }

    /**
     * `recycleFiles(files)`: selects every file outside the manifest's key
     * paths (`selected`, in the order the walk meets them), then, unless none
     * was selected, unlinks them. `reclaimed` is the size the pass logs,
     * failed unlinks included.
     */
    method RecycleFiles(manifest: FileList, unlinkFails: set<string>) returns (selected: seq<string>, reclaimed: nat)
      modifies this
      ensures forall k :: k in selected <==> k in old(files) && k !in ValidPaths(path, manifest)
      ensures Distinct(selected)
      ensures reclaimed == SumSizes(old(files), selected)
      ensures files == Recycled(old(files), ValidPaths(path, manifest), unlinkFails)
    {
      var valid := ValidPaths(path, manifest);
      selected := WalkOutside(files.Keys, valid);
      UnlinkedSelection(files, valid, selected, unlinkFails);
      if |selected| == 0 {
        assert files == Unlinked(files, selected, unlinkFails);
        return selected, 0;
      }
      reclaimed := UnlinkAll(selected, unlinkFails);
    }

    /**
     * The second loop of `recycleFiles`: adds up the size of each selected
     * file and unlinks it; an unlink in `unlinkFails` is logged and its file
     * stays.
     */
    method UnlinkAll(selected: seq<string>, unlinkFails: set<string>) returns (reclaimed: nat)
      requires Distinct(selected)
      requires forall k :: k in selected ==> k in files
      modifies this
      ensures reclaimed == SumSizes(old(files), selected)
      ensures files == Unlinked(old(files), selected, unlinkFails)
    {
      var disk := files;
      reclaimed := 0;
      var i := 0;
      while i < |selected|
        invariant i <= |selected|
        invariant reclaimed == SumSizes(disk, selected[..i])
        invariant files == Unlinked(disk, selected[..i], unlinkFails)
      {
        var k := selected[i];
        UnlinkNext(disk, selected, i, unlinkFails);
        reclaimed := reclaimed + files[k];
        if k !in unlinkFails {
          files := files - {k};
        }
        i := i + 1;
      }
      assert selected[..i] == selected;
    }
  }
}
