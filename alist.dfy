/**
 * The AList backend (core/storages/alist.py). The remote file system is a map
 * from path to size; the content with hash `h` lives at `path/h[:2]/h`. Every
 * call to the AList web API is answered by the environment: a listing, an
 * `fs/get` reply, a login reply, or a raise.
 */
module AList {
  import opened Classes
  import opened Retry
  import opened Numerals

  /** The lowercase hexadecimal digit for `d`. */
  function HexDigit(d: nat): char
    requires d < 16
  {
    if d < 10 then ('0' as int + d) as char else ('a' as int + d - 10) as char
  }

  /** The value of a lowercase hexadecimal digit. */
  function HexValue(c: char): (r: Option<nat>)
    ensures r.Some? ==> r.value < 16
  {
    if '0' <= c <= '9' then Some(c as int - '0' as int)
    else if 'a' <= c <= 'f' then Some(c as int - 'a' as int + 10)
    else None
  }

  /** `f"{i:02x}"` for a directory number below 256. */
  function Hex2(i: nat): (r: string)
    requires i < 256
    ensures |r| == 2
  {
    [HexDigit(i / 16), HexDigit(i % 16)]
  }

  lemma HexValueOfDigit(d: nat)
    requires d < 16
    ensures HexValue(HexDigit(d)) == Some(d)
  {
  }

  /** The 256 directory names are distinct. */
  lemma Hex2Injective(i: nat, j: nat)
    requires i < 256 && j < 256 && Hex2(i) == Hex2(j)
    ensures i == j
  {
    HexValueOfDigit(i / 16);
    HexValueOfDigit(i % 16);
    HexValueOfDigit(j / 16);
    HexValueOfDigit(j % 16);
    assert Hex2(i)[0] == Hex2(j)[0] && Hex2(i)[1] == Hex2(j)[1];
  }

  /** Every two-digit lowercase hexadecimal name is one of the 256 directories. */
  lemma Hex2Covers(s: string)
    requires |s| == 2 && HexValue(s[0]).Some? && HexValue(s[1]).Some?
    ensures Hex2(HexValue(s[0]).value * 16 + HexValue(s[1]).value) == s
  {
    var hi, lo := HexValue(s[0]).value, HexValue(s[1]).value;
    var i := hi * 16 + lo;
    assert i / 16 == hi && i % 16 == lo;
    assert HexDigit(hi) == s[0] && HexDigit(lo) == s[1];
  }

  /** The `i`-th directory `getMissingFiles` lists: `path + "/" + f"{i:02x}"`. */
  function DirPath(path: string, i: nat): string
    requires i < 256
  {
    path + "/" + Hex2(i)
  }

  /** The remote path of the content with hash `h`, used by `writeFile` and `express`. */
  function AListKey(path: string, h: string): string
  {
    path + "/" + Shard(h) + "/" + h
  }

  /** A hash whose first two characters are lowercase hexadecimal digits. */
  predicate HexShard(h: string)
  {
    |h| >= 2 && HexValue(h[0]).Some? && HexValue(h[1]).Some?
  }

  /** The content with a hexadecimal hash lives, under its own name, in one of the listed directories. */
  lemma KeyInListedDir(path: string, h: string)
    requires HexShard(h)
    ensures var i := HexValue(h[0]).value * 16 + HexValue(h[1]).value;
      i < 256 && AListKey(path, h) == DirPath(path, i) + "/" + h
  {
    Hex2Covers(Shard(h));
  }

  /** The probe path of `measure(size)`: `{path}/measure/.{size}`. */
  function MeasurePath(path: string, size: int): string
  {
    path + "/measure/." + Show(size)
  }

  /** No measure probe is stored where content is. */
  lemma MeasureSparesContent(path: string, size: int, h: string)
    ensures MeasurePath(path, size) != AListKey(path, h)
  {
    var m, k := MeasurePath(path, size), AListKey(path, h);
    if |h| >= 2 {
      assert m[|path| + 3] == 'a';
      assert k[|path| + 3] == '/';
    } else {
      assert |k| < |path| + 10 < |m|;
    }
  }

  /** One entry of an `fs/list` reply's `content`. */
  datatype Entry = Entry(name: string, size: int, isDir: bool)

  /**
   * The answer to `fs/list` for one directory: a raise (transport,
   * `raise_for_status`, JSON decoding) or a reply with its `code` and its
   * `content`, which is None where the JSON holds null.
   */
  datatype Listing = ListRaised(error: Error) | Listed(code: int, content: Option<seq<Entry>>)

  /** The `(name, size)` pairs of the file entries of a listing, directories skipped. */
  function FilePairs(content: seq<Entry>): (r: seq<(string, int)>)
    ensures forall p :: p in r <==> exists e :: e in content && !e.isDir && p == (e.name, e.size)
  {
    if content == [] then []
    else
      var e := content[|content| - 1];
      FilePairs(content[..|content| - 1]) + (if e.isDir then [] else [(e.name, e.size)])
  }

  /**
   * The pairs collected from the first `n` directories, in listing order: a
   * non-200 reply contributes nothing, a raise ends the whole call, and so
   * does iterating a null `content`.
   */
  function ListedPairs(path: string, listing: string -> Listing, n: nat): Result<seq<(string, int)>>
    requires n <= 256
  {
    if n == 0 then Ok([])
    else match ListedPairs(path, listing, n - 1)
      case Err(e) => Err(e)
      case Ok(acc) =>
        match listing(DirPath(path, n - 1))
        case ListRaised(e) => Err(e)
        case Listed(code, content) =>
          if code != 200 then Ok(acc)
          else if content.None? then Err(TypeError)
          else Ok(acc + FilePairs(content.value))
  }

  /** Whether directory `d`'s successful listing has a file entry `(name, size)`. */
  predicate ListedIn(listing: string -> Listing, d: string, name: string, size: int)
  {
    var l := listing(d);
    l.Listed? && l.code == 200 && l.content.Some?
    && exists e :: e in l.content.value && !e.isDir && e.name == name && e.size == size
  }

  /**
   * The collected pairs are exactly the file entries of the successful
   * listings: each such entry is collected, and each collected pair is one.
   */
  lemma {:induction false} ListedPairsExact(path: string, listing: string -> Listing, n: nat, name: string, size: int)
    requires n <= 256 && ListedPairs(path, listing, n).Ok?
    ensures (name, size) in ListedPairs(path, listing, n).value
        <==> exists i :: 0 <= i < n && ListedIn(listing, DirPath(path, i), name, size)
  {
    if n > 0 {
      ListedPairsExact(path, listing, n - 1, name, size);
      var l := listing(DirPath(path, n - 1));
      if ListedIn(listing, DirPath(path, n - 1), name, size) {
        var e :| e in l.content.value && !e.isDir && e.name == name && e.size == size;
        assert (name, size) in FilePairs(l.content.value);
      }
      if (exists i :: 0 <= i < n && ListedIn(listing, DirPath(path, i), name, size)) {
        var i :| 0 <= i < n && ListedIn(listing, DirPath(path, i), name, size);
        if i < n - 1 {
          assert exists j :: 0 <= j < n - 1 && ListedIn(listing, DirPath(path, j), name, size);
        }
      }
    }
  }

  /** Whether the diff reports `f`: its `(hash, size)` pair was not collected. */
  predicate NotListed(pairs: set<(string, int)>, f: FileInfo)
  {
    (f.hash, f.size) !in pairs
  }

  /** The diff loop of `getMissingFiles`: the manifest entries whose pair is not in `pairs`, one tick each. */
  method Diff(manifest: FileList, pairs: set<(string, int)>) returns (missing: seq<FileInfo>, ticks: nat)
    ensures missing == Select(manifest.files, f => NotListed(pairs, f))
    ensures ticks == |manifest.files|
  {
    missing := [];
    ticks := 0;
    var k := 0;
    while k < |manifest.files|
      invariant k <= |manifest.files| && ticks == k
      invariant missing == Select(manifest.files[..k], f => NotListed(pairs, f))
    {
      var file := manifest.files[k];
      ticks := ticks + 1;
      assert manifest.files[..k + 1] == manifest.files[..k] + [file];
      SelectAppend(manifest.files[..k], [file], f => NotListed(pairs, f));
      if (file.hash, file.size) !in pairs {
        missing := missing + [file];
      }
      k := k + 1;
    }
    assert manifest.files[..k] == manifest.files;
  }

  /** The answer to `fs/get`: a raise, or the reply's `code` and its top-level `raw_url` and `size`. */
  datatype FsGet = FsGetRaised | FsGetReply(code: int, rawUrl: Option<string>, size: Option<int>)

  /** What `express` prepares and the dict it returns: the bytes and hits the caller should count. */
  datatype Served = Served(reply: Reply, bytes: int, hits: int)

  /**
   * `express(hash, request, response)`: 404 and zeros on a non-200 code; a
   * redirect with the hash header, the size and one hit when the reply has
   * `raw_url` and `size` at its top level; 500 and zeros otherwise. Nothing is
   * added to any counter here.
   */
  function Express(hash: string, answer: FsGet): (r: Result<Served>)
    ensures r.Err? <==> answer.FsGetRaised?
    ensures r.Ok? ==> 0 <= r.value.hits <= 1
    ensures r.Ok? ==> (r.value.hits == 1 <==> r.value.reply.status == 302)
    ensures r.Ok? && r.value.hits == 0 ==> r.value.bytes == 0
    ensures r.Ok? && r.value.reply.status == 302 ==> r.value.reply.hashHeader == Some(hash) && answer.code == 200
    ensures r.Ok? && answer.code != 200 ==> r.value.reply == Reply(404, None)
    ensures r.Ok? && r.value.reply.status == 302 ==> answer.size.Some? && r.value.bytes == answer.size.value
    ensures answer.FsGetReply? && answer.code == 200 ==>
      && r.Ok?
      && (r.value.reply.status == 302 <==> answer.rawUrl.Some? && answer.size.Some?)
      && (r.value.reply.status != 302 ==> r.value == Served(Reply(500, None), 0, 0))
  {
    match answer
    case FsGetRaised => Err(HttpError)
    case FsGetReply(code, rawUrl, size) =>
      if code != 200 then Ok(Served(Reply(404, None), 0, 0))
      else if rawUrl.Some? && size.Some? then Ok(Served(Reply(302, Some(hash)), size.value, 1))
      else Ok(Served(Reply(500, None), 0, 0))
  }

  /** AList nests `raw_url` under `data`, so a reply shaped like its `fs/get` answers serves a 500. */
  lemma ExpressNestedReply(hash: string)
    ensures Express(hash, FsGetReply(200, None, None)) == Ok(Served(Reply(500, None), 0, 0))
  {
  }

  /** The outcome of `writeFile`: no pre-check, and the retry loop catches every exception. */
  function AListWrite(size: int, contentLen: nat, retry: int, oracle: seq<Attempt>): WriteRun
  {
    FromLoop(Loop(oracle, 0, retry, contentLen == size, true))
  }

  /** `writeFile` never raises, and reports True only after uploading content of the manifest size. */
  lemma AListWriteOutcome(size: int, contentLen: nat, retry: int, oracle: seq<Attempt>)
    ensures var w := AListWrite(size, contentLen, retry, oracle);
      && w.outcome.Ok?
      && (w.outcome == Ok(true) ==> contentLen == size && w.stores)
      && w.sleeps <= Budget(retry, 0)
      && (retry <= 0 ==> !w.stores)
  {
    CatchAllNeverEscapes(oracle, 0, retry, contentLen == size);
    LoopVerdict(oracle, 0, retry, contentLen == size, true);
    LoopBounds(oracle, 0, retry, contentLen == size, true);
  }

  /** The answer to the login post: a raise, or the reply's `code` and `data.token`. */
  datatype Login = LoginRaised | LoginReply(code: int, token: Option<string>)

  /** Whether a login yields a token: code 200 with a token (anything else raises and is logged). */
  predicate LoginOk(login: Login)
  {
    login.LoginReply? && login.code == 200 && login.token.Some?
  }

  /** The AList server at `url`, storing under `path`; `remote` maps each remote path to its size. */
  class AListStorage {
    const username: string
    const password: string
    const url: string
    const path: string
    var token: string
    var headers: map<string, string>
    var refreshJob: bool
    var remote: map<string, nat>

    /** No token, no headers and no refresh job yet. */
    constructor (username: string, password: string, url: string, path: string, remote: map<string, nat>)
      ensures this.username == username && this.password == password && this.url == url && this.path == path
      ensures token == "" && headers == map[] && !refreshJob && this.remote == remote
    {
      this.username := username;
      this.password := password;
      this.url := url;
      this.path := path;
      token := "";
      headers := map[];
      refreshJob := false;
      this.remote := remote;
    }

    /**
     * `fetchToken()`: a successful login replaces the token and sets the
     * `Authorization` header; a failed one is logged and changes neither.
     * The refresh job is registered on the first call only.
     */
    method FetchToken(login: Login) returns (ok: bool)
      modifies this
      ensures ok <==> LoginOk(login)
      ensures ok ==> token == login.token.value && headers == map["Authorization" := login.token.value]
      ensures !ok ==> token == old(token) && headers == old(headers)
      ensures refreshJob && remote == old(remote)
    {
      ok := false;
      match login {
        case LoginRaised =>
        case LoginReply(code, t) =>
          if code == 200 && t.Some? {
            token := t.value;
            headers := map["Authorization" := token];
            ok := true;
          }
      }
      if !refreshJob {
        refreshJob := true;
      }
    }

    /** `init()`: one token fetch, which registers the refresh job. */
    method Init(login: Login) returns (ok: bool)
      modifies this
      ensures ok <==> LoginOk(login)
      ensures ok ==> token == login.token.value && headers == map["Authorization" := login.token.value]
      ensures !ok ==> token == old(token) && headers == old(headers)
      ensures refreshJob && remote == old(remote)
    {
      ok := FetchToken(login);
    }

    /**
     * `writeFile(file, content, delay, retry)`: `oracle` decides each attempt
     * (the put raising, a non-200 code, the size query failing); a failure
     * after the put leaves the content stored.
     */
    method WriteFile(file: FileInfo, content: seq<byte>, retry: int, oracle: seq<Attempt>) returns (r: Result<bool>, sleeps: nat)
      modifies this`remote
      ensures var w := AListWrite(file.size, |content|, retry, oracle);
        && r == w.outcome && sleeps == w.sleeps
        && remote == StoreIf(old(remote), AListKey(path, file.hash), |content|, w.stores)
      ensures token == old(token) && headers == old(headers) && refreshJob == old(refreshJob)
    {
      var key := AListKey(path, file.hash);
      var w := Attempts(oracle, retry, |content|, file.size, true);
      if w.stores {
        remote := remote[key := |content|];
      }
      return w.outcome, w.sleeps;
    }

    /**
     * The listing loop of `getMissingFiles`: posts `fs/list` for the 256
     * shard directories in order (`listed`), one progress tick per answered
     * post, and collects the `(name, size)` pairs of their file entries.
     */
    method ListDirectories(listing: string -> Listing) returns (r: Result<seq<(string, int)>>, listed: seq<string>, ticks: nat)
      ensures r == ListedPairs(path, listing, 256)
      ensures |listed| <= 256 && forall i :: 0 <= i < |listed| ==> listed[i] == DirPath(path, i)
      ensures r.Ok? ==> |listed| == 256 && ticks == 256
    {
      var existing: seq<(string, int)> := [];
      listed := [];
      ticks := 0;
      var i := 0;
      while i < 256
        invariant i <= 256 && |listed| == i && ticks == i
        invariant forall j :: 0 <= j < i ==> listed[j] == DirPath(path, j)
        invariant ListedPairs(path, listing, i) == Ok(existing)
      {
        var dir := "/" + Hex2(i);
        var filePath := path + dir;
        assert filePath == DirPath(path, i);
        listed := listed + [filePath];
        match listing(filePath) {
          case ListRaised(e) =>
            assert ListedPairs(path, listing, i + 1) == Err(e);
            ListedPairsErrStays(path, listing, i + 1, 256);
            return Err(e), listed, ticks;
          case Listed(code, content) =>
            ticks := ticks + 1;
            if code == 200 {
              if content.None? {
                assert ListedPairs(path, listing, i + 1) == Err(TypeError);
                ListedPairsErrStays(path, listing, i + 1, 256);
                return Err(TypeError), listed, ticks;
              }
              existing := existing + FilePairs(content.value);
            }
        }
        i := i + 1;
      }
      return Ok(existing), listed, ticks;
    }

    /**
     * `getMissingFiles`: lists the shard directories, then reports the
     * manifest entries whose `(hash, size)` pair was not collected, in
     * manifest order, one progress tick per manifest entry.
     */
    method GetMissingFiles(manifest: FileList, listing: string -> Listing)
      returns (r: Result<FileList>, listed: seq<string>, dirTicks: nat, entryTicks: nat)
      ensures |listed| <= 256 && forall i :: 0 <= i < |listed| ==> listed[i] == DirPath(path, i)
      ensures r.Err? <==> ListedPairs(path, listing, 256).Err?
      ensures r.Err? ==> r.error == ListedPairs(path, listing, 256).error
      ensures r.Ok? ==> |listed| == 256 && dirTicks == 256 && entryTicks == |manifest.files|
      ensures r.Ok? ==>
        var pairs := set p | p in ListedPairs(path, listing, 256).value;
        r.value.files == Select(manifest.files, f => NotListed(pairs, f))
    {
      var found;
      found, listed, dirTicks := ListDirectories(listing);
      entryTicks := 0;
      if found.Err? {
        return Err(found.error), listed, dirTicks, entryTicks;
      }
      var existingInfo := set p | p in found.value;
      var missing;
      missing, entryTicks := Diff(manifest, existingInfo);
      return Ok(FileList(missing)), listed, dirTicks, entryTicks;
    }

    /** `recycleFiles(files)` is declared without `self`, so calling it on a storage raises TypeError. */
    method RecycleFiles(manifest: FileList) returns (r: Result<()>)
      ensures r == Err(TypeError)
    {
      return Err(TypeError);
    }
  }

  /** A listing that failed stays failed however many further directories are listed. */
  lemma {:induction false} ListedPairsErrStays(path: string, listing: string -> Listing, n: nat, m: nat)
    requires n <= m <= 256
    requires ListedPairs(path, listing, n).Err?
    ensures ListedPairs(path, listing, m) == ListedPairs(path, listing, n)
    decreases m - n
  {
    if n < m {
      ListedPairsErrStays(path, listing, n, m - 1);
    }
  }
}
