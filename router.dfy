/**
 * The HTTP routes of the node that serve content (core/router.py): the signed
 * `/download/{hash}` route, which hands the request to one of the storages,
 * and the signed `/measure/{size}` speed-test route, which streams `size`
 * mebibytes of a fixed pattern. The clock, SHA-1, the random choice of a
 * storage and the User-Agent header are parameters.
 */
module Router {
  import opened Classes
  import opened Numerals
  import opened Base64Url
  import Local
  import AList

  /** A SHA-1 digest: twenty bytes. */
  type Digest = d: seq<byte> | |d| == 20 witness seq(20, _ => 0)

  /** `c.lower()` on one character: ASCII capitals become small letters. */
  function LowerChar(c: char): char
  {
    if 'A' <= c <= 'Z' then (c as int - 'A' as int + 'a' as int) as char else c
  }

  /** `s.lower()`, character by character. */
  function Lower(s: string): (r: string)
    ensures |r| == |s|
    ensures forall i :: 0 <= i < |s| ==> r[i] == LowerChar(s[i])
  {
    if s == [] then [] else [LowerChar(s[0])] + Lower(s[1..])
  }

  /** Lowering twice is lowering once. */
  lemma LowerIdempotent(s: string)
    ensures Lower(Lower(s)) == Lower(s)
  {
  }

  /** A hash written in lowercase hexadecimal, as the manifest writes them, is left as it is. */
  lemma LowerKeepsHexHash(h: string)
    requires forall i :: 0 <= i < |h| ==> '0' <= h[i] <= '9' || 'a' <= h[i] <= 'f'
    ensures Lower(h) == h
  {
  }

  /** The signature the central server issues for `resource` expiring at `e`: SHA-1 of `secret + resource + e`, base64url without padding. */
  function Sign(secret: string, resource: string, e: string, sha1: string -> Digest): string
  {
    StripPadding(Encode(sha1(secret + resource + e)))
  }

  /**
   * `checkSign(resource, secret, query)`: False without a non-empty `s` and
   * `e`, False when `s` is not the signature, otherwise whether the clock
   * `now` is before the expiry `e` read in base 36. The expiry is only read
   * once the signature matched; when it is no base-36 numeral, `int`
   * raises ValueError.
   */
  function CheckSign(resource: string, secret: string, query: map<string, string>, now: real, sha1: string -> Digest): Result<bool>
  {
    if "s" !in query || query["s"] == "" || "e" !in query || query["e"] == "" then Ok(false)
    else if Sign(secret, resource, query["e"], sha1) != query["s"] then Ok(false)
    else match ParseInt(query["e"], 36)
      case None => Err(ValueError)
      case Some(expiry) => Ok(now < expiry as real)
  }

  /** A query carrying the issued signature and a base-36 expiry is accepted exactly until that expiry. */
  lemma IssuedSignatureAccepted(resource: string, secret: string, query: map<string, string>, now: real, sha1: string -> Digest, expiry: int)
    requires "s" in query && "e" in query
    requires query["s"] == Sign(secret, resource, query["e"], sha1)
    requires ParseInt(query["e"], 36) == Some(expiry)
    ensures CheckSign(resource, secret, query, now, sha1) == Ok(now < expiry as real)
  {
    DigestLength(sha1(secret + resource + query["e"]));
  }

  /** A query whose `s` is not the issued signature is refused, and nothing is raised. */
  lemma ForgeryRefused(resource: string, secret: string, query: map<string, string>, now: real, sha1: string -> Digest)
    requires "e" in query ==> "s" !in query || query["s"] != Sign(secret, resource, query["e"], sha1)
    ensures CheckSign(resource, secret, query, now, sha1) == Ok(false)
  {
  }

  /** Only ValueError can escape `checkSign`, and only behind a matching signature. */
  lemma CheckSignRaises(resource: string, secret: string, query: map<string, string>, now: real, sha1: string -> Digest)
    requires CheckSign(resource, secret, query, now, sha1).Err?
    ensures CheckSign(resource, secret, query, now, sha1).error == ValueError
    ensures "s" in query && "e" in query && query["s"] == Sign(secret, resource, query["e"], sha1)
    ensures ParseInt(query["e"], 36).None?
  {
  }

  /** An accepted signature is the 27-character one and its expiry is still ahead. */
  lemma AcceptedSignature(resource: string, secret: string, query: map<string, string>, now: real, sha1: string -> Digest)
    requires CheckSign(resource, secret, query, now, sha1) == Ok(true)
    ensures |query["s"]| == 27
    ensures exists expiry :: ParseInt(query["e"], 36) == Some(expiry) && now < expiry as real
  {
    DigestLength(sha1(secret + resource + query["e"]));
    var expiry := ParseInt(query["e"], 36).value;
    assert ParseInt(query["e"], 36) == Some(expiry) && now < expiry as real;
  }

  /**
   * Unless SHA-1 collides on the two signed messages, one signed query is
   * accepted for one resource only.
   */
  lemma SignatureBindsResource(r1: string, r2: string, secret: string, query: map<string, string>, now: real, sha1: string -> Digest)
    requires "e" in query ==>
      (sha1(secret + r1 + query["e"]) == sha1(secret + r2 + query["e"]) ==> secret + r1 + query["e"] == secret + r2 + query["e"])
    requires CheckSign(r1, secret, query, now, sha1) == Ok(true)
    requires CheckSign(r2, secret, query, now, sha1) == Ok(true)
    ensures r1 == r2
  {
    var e := query["e"];
    UnpaddedInjective(sha1(secret + r1 + e), sha1(secret + r2 + e));
    var m1, m2 := secret + r1 + e, secret + r2 + e;
    assert m1 == m2;
    assert |r1| == |r2|;
    assert r1 == m1[|secret|..|secret| + |r1|];
    assert r2 == m2[|secret|..|secret| + |r2|];
  }

  /** A storage the router can hand a download to: the two kinds `getStorages` builds. */
  datatype Backend = LocalBackend(local: Local.LocalStorage) | AListBackend(alist: AList.AListStorage)

  /** The bytes the measure route repeats: `00 66 cc ff`. */
  const Pattern: seq<byte> := [0x00, 0x66, 0xcc, 0xff]

  /** One mebibyte. */
  const MiB: nat := 1024 * 1024

  /** The one-mebibyte buffer: the pattern repeated 256 * 1024 times. */
  const Buffer: seq<byte> := seq(256 * 1024 * 4, k => Pattern[k % 4])

  /** The answer of the measure route: a bare status, or a stream with its Content-Length header and body. */
  datatype MeasureReply = Status(code: int) | Streamed(contentLength: string, body: seq<byte>)

  /** Whether some storage is an AList storage. */
  predicate HasAList(storages: seq<Backend>)
  {
    exists i :: 0 <= i < |storages| && storages[i].AListBackend?
  }

  /** The bytes `for _ in range(size): write(buffer)` sends: `size` buffers, none for a size below one. */
  method StreamBody(size: int) returns (body: seq<byte>)
    ensures |body| == (if size > 0 then size else 0) * MiB
    ensures forall k :: 0 <= k < |body| ==> body[k] == Pattern[k % 4]
  {
    body := [];
    var i := 0;
    while i < size
      invariant 0 <= i && (i <= size || i == 0)
      invariant |body| == i * MiB
      invariant forall k :: 0 <= k < |body| ==> body[k] == Pattern[k % 4]
    {
      ghost var n := |body|;
      body := body + Buffer;
      forall k | n <= k < |body|
        ensures body[k] == Pattern[k % 4]
      {
        assert body[k] == Buffer[k - n];
        ModShift(k, i);
      }
      i := i + 1;
    }
  }

  /** Whole mebibytes shift no position within the pattern. */
  lemma ModShift(k: int, i: int)
    ensures (k - i * MiB) % 4 == k % 4
  {
    assert i * MiB == 4 * (i * 262144);
  }

  /**
   * The router of the node: the cluster secret, the storages, the hit and
   * byte counters the storages update, and the `connection` gauge of
   * downloads in progress.
   */
  class Router {
    const secret: string
    const storages: seq<Backend>
    const counters: Counters
    var connection: int

    /** Fresh counters at zero and no download in progress. */
    constructor (secret: string, storages: seq<Backend>)
      ensures this.secret == secret && this.storages == storages
      ensures fresh(counters) && counters.hits == 0 && counters.bytes == 0
      ensures connection == 0
    {
      this.secret := secret;
      this.storages := storages;
      this.counters := new Counters();
      this.connection := 0;
    }

    /**
     * `GET /download/{hash}`. The gauge goes up first. A missing User-Agent
     * header raises KeyError; the hash is lowered and its signature checked
     * (403 when refused); the storage at `pick` (`random.choice`, IndexError
     * on no storage) serves it. An AList storage is called without the
     * request and response it expects and raises TypeError; a local storage
     * answers, and only when it returns does the gauge go down again.
     * `statFails` stands for `getsize` raising in the local storage, whose
     * error then escapes `express` with the gauge still up.
     */
    method Download(hash: string, query: map<string, string>, userAgent: Option<string>, now: real, sha1: string -> Digest, pick: nat, statFails: bool)
      returns (r: Result<Reply>)
      modifies this, counters
      ensures var h := Lower(hash); var v := CheckSign(h, secret, query, now, sha1);
        && (userAgent.None? ==> r == Err(KeyError("User-Agent")))
        && (userAgent.Some? && v.Err? ==> r == Err(ValueError))
        && (userAgent.Some? && v == Ok(false) ==> r == Ok(Reply(403, None)))
        && (userAgent.Some? && v == Ok(true) && |storages| == 0 ==> r == Err(IndexError))
        && (userAgent.Some? && v == Ok(true) && |storages| > 0 ==>
              match storages[pick % |storages|]
              case AListBackend(_) => r == Err(TypeError)
              case LocalBackend(s) =>
                && r == Local.ExpressReply(s.files, s.path, h, statFails)
                && (r.Ok? && r.value.status == 200 ==> counters.bytes == old(counters.bytes) + s.files[Local.KeyPath(s.path, h)]))
      ensures connection == old(connection) + if r.Ok? && r.value.status != 403 then 0 else 1
      ensures r.Ok? && r.value.status == 200 ==> counters.hits == old(counters.hits) + 1
      ensures !(r.Ok? && r.value.status == 200) ==> counters.hits == old(counters.hits) && counters.bytes == old(counters.bytes)
    {
      connection := connection + 1;
      if userAgent.None? {
        return Err(KeyError("User-Agent"));
      }
      var h := Lower(hash);
      var v := CheckSign(h, secret, query, now, sha1);
      if v.Err? {
        CheckSignRaises(h, secret, query, now, sha1);
        return Err(v.error);
      }
      if !v.value {
        return Ok(Reply(403, None));
      }
      if |storages| == 0 {
        return Err(IndexError);
      }
      match storages[pick % |storages|] {
        case AListBackend(_) =>
          return Err(TypeError);
        case LocalBackend(s) =>
          r := s.Express(h, counters, statFails);
          if r.Ok? {
            connection := connection - 1;
          }
      }
    }

    /** The index of the first AList storage, or `|storages|` when there is none. */
    method FirstAList() returns (i: nat)
      ensures i <= |storages|
      ensures i < |storages| ==> storages[i].AListBackend?
      ensures forall j :: 0 <= j < i ==> storages[j].LocalBackend?
    {
      i := 0;
      while i < |storages| && storages[i].LocalBackend?
        invariant i <= |storages|
        invariant forall j :: 0 <= j < i ==> storages[j].LocalBackend?
      {
        i := i + 1;
      }
    }

    /**
     * `GET /measure/{size}`. A size that is no decimal numeral gives 400; so
     * does a `checkSign` of `/measure/{size}` that raises. A refused
     * signature or a size over 200 gives 403 when the size is over 200 and
     * 400 otherwise. An AList storage is called without the request and
     * response it expects and raises TypeError. Otherwise the reply streams
     * `size` buffers, under a Content-Length of `size` mebibytes.
     */
    method Measure(sizeText: string, query: map<string, string>, now: real, sha1: string -> Digest)
      returns (r: Result<MeasureReply>)
      ensures ParseInt(sizeText, 10).None? ==> r == Ok(Status(400))
      ensures ParseInt(sizeText, 10).Some? ==>
        var size := ParseInt(sizeText, 10).value;
        var v := CheckSign("/measure/" + Show(size), secret, query, now, sha1);
        && (v.Err? ==> r == Ok(Status(400)))
        && (v.Ok? && (!v.value || size > 200) ==> r == Ok(Status(if size > 200 then 403 else 400)))
        && (v == Ok(true) && size <= 200 && HasAList(storages) ==> r == Err(TypeError))
        && (v == Ok(true) && size <= 200 && !HasAList(storages) ==>
              && r.Ok? && r.value.Streamed?
              && r.value.contentLength == Show(size * MiB)
              && |r.value.body| == (if size > 0 then size else 0) * MiB
              && forall k :: 0 <= k < |r.value.body| ==> r.value.body[k] == Pattern[k % 4])
    {
      var parsed := ParseInt(sizeText, 10);
      if parsed.None? {
        return Ok(Status(400));
      }
      var size := parsed.value;
      var v := CheckSign("/measure/" + Show(size), secret, query, now, sha1);
      if v.Err? {
        return Ok(Status(400));
      }
      if !v.value || size > 200 {
        return Ok(Status(if size > 200 then 403 else 400));
      }
      var first := FirstAList();
      if first < |storages| {
        return Err(TypeError);
      }
      var body := StreamBody(size);
      return Ok(Streamed(Show(size * MiB), body));
    }
  }
}
