/**
 * The records and the storage contract every backend of the cache node shares
 * (core/classes.py): manifest entries, manifests, the shared hit/byte counters,
 * the reply an `express` call gives, and the shape of a `getMissingFiles`
 * result, which is always the manifest filtered by a per-entry test.
 */
module Classes {

  /** A byte of file content or of a digest. */
  type byte = x: int | 0 <= x < 256

  datatype Option<+T> = None | Some(value: T)

  /** The Python exceptions the core raises or lets through. */
  datatype Error =
    | FileNotFound
    | KeyError(key: string)
    | TypeError
    | ValueError
    | IndexError
    | ClientError   // botocore's ClientError, the only error the S3 write loop retries
    | HttpError     // a failed HTTP exchange (raise_for_status, transport, JSON decoding)

  datatype Result<+T> = Ok(value: T) | Err(error: Error)

  /** One manifest entry; `hash` is the storage key, `path` and `mtime` are advisory. */
  datatype FileInfo = FileInfo(path: string, hash: string, size: int, mtime: int)

  /** An ordered manifest; nothing makes its entries unique. */
  datatype FileList = FileList(files: seq<FileInfo>)

  /** The response an `express` call prepares: its status and its `x-bmclapi-hash` header. */
  datatype Reply = Reply(status: int, hashHeader: Option<string>)

  /** The router's `counters` dict, shared by reference with every `express` call. */
  class Counters {
    var hits: int
    var bytes: int

    constructor ()
      ensures hits == 0 && bytes == 0
    {
      hits := 0;
      bytes := 0;
    }
  }

  /** `h[:2]` with Python's slicing: the whole of `h` when it is shorter than two characters. */
  function Shard(h: string): (r: string)
    ensures r <= h && |r| == if |h| < 2 then |h| else 2
  {
    if |h| < 2 then h else h[..2]
  }

  /** The part of `s` after its last slash (all of `s` when it has none). */
  function AfterLastSlash(s: string): string
  {
    if s == [] || s[|s| - 1] == '/' then []
    else AfterLastSlash(s[..|s| - 1]) + [s[|s| - 1]]
  }

  /** A slash-free name after a slash is what follows the last slash. */
  lemma {:induction false} AfterLastSlashOf(a: string, x: string)
    requires forall i :: 0 <= i < |x| ==> x[i] != '/'
    ensures AfterLastSlash(a + "/" + x) == x
    decreases |x|
  {
    var s := a + "/" + x;
    if x == [] {
      assert s[|s| - 1] == '/';
    } else {
      var x' := x[..|x| - 1];
      assert s[..|s| - 1] == a + "/" + x';
      assert s[|s| - 1] == x[|x| - 1];
      AfterLastSlashOf(a, x');
      assert x == x' + [x[|x| - 1]];
    }
  }

  /** The manifest entries for which `isMissing` holds, in manifest order, duplicates kept. */
  function Select(files: seq<FileInfo>, isMissing: FileInfo -> bool): (r: seq<FileInfo>)
    ensures |r| <= |files|
  {
    if files == [] then []
    else (if isMissing(files[0]) then [files[0]] else []) + Select(files[1..], isMissing)
  }

  /** An entry is selected exactly when it is in the manifest and the test holds of it. */
  lemma {:induction false} SelectMembership(files: seq<FileInfo>, isMissing: FileInfo -> bool, f: FileInfo)
    ensures f in Select(files, isMissing) <==> f in files && isMissing(f)
  {
    if files != [] {
      SelectMembership(files[1..], isMissing, f);
      assert files == [files[0]] + files[1..];
    }
  }

  /** `SelectMembership` for every entry at once. */
  lemma SelectExact(files: seq<FileInfo>, isMissing: FileInfo -> bool)
    ensures forall f :: f in Select(files, isMissing) <==> f in files && isMissing(f)
  {
    forall f
      ensures f in Select(files, isMissing) <==> f in files && isMissing(f)
    {
      SelectMembership(files, isMissing, f);
    }
  }

  /** Two tests that agree on every manifest entry select the same entries. */
  lemma {:induction false} SelectCongruent(files: seq<FileInfo>, p: FileInfo -> bool, q: FileInfo -> bool)
    requires forall f :: f in files ==> p(f) == q(f)
    ensures Select(files, p) == Select(files, q)
  {
    if files != [] {
      assert files[0] in files;
      forall f | f in files[1..]
        ensures p(f) == q(f)
      {
        assert f in files;
      }
      SelectCongruent(files[1..], p, q);
    }
  }

  /** Selection keeps manifest order: selecting from a concatenation concatenates the selections. */
  lemma {:induction false} SelectAppend(a: seq<FileInfo>, b: seq<FileInfo>, isMissing: FileInfo -> bool)
    ensures Select(a + b, isMissing) == Select(a, isMissing) + Select(b, isMissing)
  {
    if a == [] {
      assert a + b == b;
    } else {
      var ab := a + b;
      assert ab[0] == a[0];
      assert ab[1..] == a[1..] + b;
      assert Select(ab, isMissing) == (if isMissing(a[0]) then [a[0]] else []) + Select(a[1..] + b, isMissing);
      SelectAppend(a[1..], b, isMissing);
    }
  }

  /** Entries are kept with their multiplicity: a duplicated missing entry is reported twice. */
  lemma {:induction false} SelectCount(files: seq<FileInfo>, isMissing: FileInfo -> bool, f: FileInfo)
    ensures multiset(Select(files, isMissing))[f] == if isMissing(f) then multiset(files)[f] else 0
  {
    if files != [] {
      SelectCount(files[1..], isMissing, f);
      assert files == [files[0]] + files[1..];
    }
  }
}
