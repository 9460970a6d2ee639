/**
 * The S3 backend (core/storages/s3.py). The bucket is a map from object key to
 * content length; the content with hash `h` is the object `h[:2]/h`, with no
 * prefix. Whether a `head_object` call raises is the environment's choice.
 */
module S3 {
  import opened Classes
  import opened Retry

  /** The object key of the content with hash `h`. */
  function ObjectKey(h: string): string
  {
    Shard(h) + "/" + h
  }

  /** Distinct hashes name distinct objects. */
  lemma ObjectKeyInjective(h1: string, h2: string)
    requires (forall i :: 0 <= i < |h1| ==> h1[i] != '/') && (forall i :: 0 <= i < |h2| ==> h2[i] != '/')
    requires ObjectKey(h1) == ObjectKey(h2)
    ensures h1 == h2
  {
    AfterLastSlashOf(Shard(h1), h1);
    AfterLastSlashOf(Shard(h2), h2);
  }

  /**
   * The outcome of `writeFile` given what the pre-check `head_object` answered
   * (None when it raised, the object being absent among the reasons). A stored
   * length equal to the content's skips the upload; the retry loop catches
   * only ClientError.
   */
  function S3Write(head: Option<nat>, size: int, contentLen: nat, retry: int, oracle: seq<Attempt>): WriteRun
  {
    if head == Some(contentLen) then WriteRun(Ok(true), 0, false)
    else FromLoop(Loop(oracle, 0, retry, contentLen == size, false))
  }

  /**
   * `writeFile` never raises ClientError and raises nothing the oracle did not;
   * True comes from the skip or from an upload of the manifest size; it sleeps
   * at most once per attempt, and with `retry <= 0` it uploads nothing.
   */
  lemma S3WriteOutcome(head: Option<nat>, size: int, contentLen: nat, retry: int, oracle: seq<Attempt>)
    ensures var w := S3Write(head, size, contentLen, retry, oracle);
      && (w.outcome.Err? ==> w.outcome.error != ClientError && head != Some(contentLen))
      && (w.outcome == Ok(true) ==> head == Some(contentLen) || (contentLen == size && w.stores))
      && w.sleeps <= Budget(retry, 0)
      && (retry <= 0 ==> !w.stores)
  {
    OnlyClientErrorRetried(oracle, 0, retry, contentLen == size);
    LoopVerdict(oracle, 0, retry, contentLen == size, false);
    LoopBounds(oracle, 0, retry, contentLen == size, false);
  }

  /** An error other than ClientError at the first attempt propagates out of `writeFile` at once. */
  lemma S3WriteEscapes(head: Option<nat>, size: int, contentLen: nat, retry: int, oracle: seq<Attempt>)
    requires head != Some(contentLen) && 0 < retry && 0 < |oracle|
    requires oracle[0].Fails? && oracle[0].error != ClientError
    ensures S3Write(head, size, contentLen, retry, oracle) == WriteRun(Err(oracle[0].error), 0, oracle[0].afterWrite)
  {
  }

  /**
   * Whether `getMissingFiles` reports `f`: the object answered `head_object`
   * with another length. A `head_object` that raises, as it does for an absent
   * object, yields None, which the filter treats as not missing.
   */
  predicate Missing(objects: map<string, nat>, headFails: set<string>, f: FileInfo)
  {
    var k := ObjectKey(f.hash);
    k in objects && k !in headFails && objects[k] != f.size
  }

  /** As written, an entry whose object is absent is never reported missing. */
  lemma AbsentNeverMissing(objects: map<string, nat>, headFails: set<string>, f: FileInfo)
    requires ObjectKey(f.hash) !in objects
    ensures !Missing(objects, headFails, f)
  {
  }

  /** An upload that reports True leaves its entry not missing. */
  lemma WriteClearsMissing(objects: map<string, nat>, headFails: set<string>, head: Option<nat>, f: FileInfo, contentLen: nat, retry: int, oracle: seq<Attempt>)
    requires var w := S3Write(head, f.size, contentLen, retry, oracle); w.outcome == Ok(true) && w.stores
    ensures var w := S3Write(head, f.size, contentLen, retry, oracle);
      !Missing(StoreIf(objects, ObjectKey(f.hash), contentLen, w.stores), headFails, f)
  {
    S3WriteOutcome(head, f.size, contentLen, retry, oracle);
  }

  /** Which call of the `check` probe raises, if any. */
  datatype CheckFault = NoFault | PutFails | HeadFails | DeleteFails

  /** `secrets.token_hex(8)`: sixteen lowercase hexadecimal digits. */
  predicate IsToken(s: string)
  {
    |s| == 16 && forall i :: 0 <= i < |s| ==> s[i] in "0123456789abcdef"
  }

  /** The bucket after the probe: put an empty object, head it, delete it, stopping at the first raise. */
  function Probed(objects: map<string, nat>, probe: string, fault: CheckFault): map<string, nat>
  {
    match fault
    case PutFails => objects
    case HeadFails => objects[probe := 0]
    case DeleteFails => objects[probe := 0]
    case NoFault => objects - {probe}
  }

  /** The probe never touches a content object: every `h[:2]/h` keeps its length, or its absence. */
  lemma ProbeSparesContent(objects: map<string, nat>, probe: string, fault: CheckFault, h: string)
    requires IsToken(probe)
    ensures var k := ObjectKey(h); var p := Probed(objects, probe, fault);
      (k in p <==> k in objects) && (k in p ==> p[k] == objects[k])
  {
    var k := ObjectKey(h);
    assert k != probe by {
      assert k[|Shard(h)|] == '/';
      if |k| == |probe| {
        assert probe[|Shard(h)|] in "0123456789abcdef";
      }
    }
  }

  /** What the pre-check `head_object` answers: the stored length, or None when it raises. */
  function HeadOf(objects: map<string, nat>, key: string, fails: bool): Option<nat>
  {
    if key in objects && !fails then Some(objects[key]) else None
  }

  /** The bucket `bucket`; `objects` maps each object key to its content length. */
  class S3Storage {
    const bucket: string
    var objects: map<string, nat>

    constructor (bucket: string, objects: map<string, nat>)
      ensures this.bucket == bucket && this.objects == objects
    {
      this.bucket := bucket;
      this.objects := objects;
    }

    /**
     * `writeFile(file, content, delay, retry)`. `precheckFails` stands for the
     * pre-check `head_object` raising on an existing object; `oracle` decides
     * each attempt, a failure after the `put_object` leaving the object stored.
     */
    method WriteFile(file: FileInfo, content: seq<byte>, retry: int, oracle: seq<Attempt>, precheckFails: bool)
      returns (r: Result<bool>, sleeps: nat)
      modifies this
      ensures var w := S3Write(HeadOf(old(objects), ObjectKey(file.hash), precheckFails), file.size, |content|, retry, oracle);
        && r == w.outcome && sleeps == w.sleeps
        && objects == StoreIf(old(objects), ObjectKey(file.hash), |content|, w.stores)
    {
      var key := ObjectKey(file.hash);
      if key in objects && !precheckFails && objects[key] == |content| {
        return Ok(true), 0;
      }
      var w := Attempts(oracle, retry, |content|, file.size, false);
      if w.stores {
        objects := objects[key := |content|];
      }
      return w.outcome, w.sleeps;
    }

    /**
     * `check()`: puts an empty object at the random key `probe`, heads it and
     * deletes it; a raise is logged, never propagated. `ok` is whether the
     * success message is logged.
     */
    method Check(probe: string, fault: CheckFault) returns (ok: bool)
      requires IsToken(probe)
      modifies this
      ensures ok <==> fault == NoFault
      ensures objects == Probed(old(objects), probe, fault)
    {
      if fault == PutFails {
        return false;
      }
      objects := objects[probe := 0];
      if fault == HeadFails || fault == DeleteFails {
        return false;
      }
      objects := objects - {probe};
      return true;
    }

    /**
     * `getMissingFiles`: the manifest entries whose object answered with
     * another length, in manifest order; `headFails` are the keys whose
     * existing object's `head_object` raised.
     */
    function GetMissingFiles(manifest: FileList, headFails: set<string>): (r: FileList)
      reads this
      ensures forall f :: f in r.files <==> f in manifest.files && Missing(objects, headFails, f)
      ensures forall f :: multiset(r.files)[f] == if Missing(objects, headFails, f) then multiset(manifest.files)[f] else 0
      ensures var bucketNow := objects; r.files == Select(manifest.files, (g: FileInfo) => Missing(bucketNow, headFails, g))
    {
      var bucketNow := objects;
      var isMissing := (g: FileInfo) => Missing(bucketNow, headFails, g);
      SelectExact(manifest.files, isMissing);
      assert forall f :: multiset(Select(manifest.files, isMissing))[f] == if isMissing(f) then multiset(manifest.files)[f] else 0 by {
        forall f
          ensures multiset(Select(manifest.files, isMissing))[f] == if isMissing(f) then multiset(manifest.files)[f] else 0
        {
          SelectCount(manifest.files, isMissing, f);
        }
      }
      FileList(Select(manifest.files, isMissing))
    }
  }
}
