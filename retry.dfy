/**
 * The bounded retry loop that every backend's `writeFile` runs
 * (core/storages/local.py, s3.py and alist.py): up to `retry` attempts, each
 * of which writes the content and then asks the backend for the stored size.
 * A size equal to the manifest size ends the loop with success, any other size
 * ends it with failure at once, and an exception the loop catches is logged
 * and followed by a sleep of `delay` before the next attempt. The environment
 * decides what each attempt does; this module states the run that results.
 */
module Retry {
  import opened Classes

  /** What one attempt does, as the backend and the network decide it. */
  datatype Attempt =
    | Completes                             // stored the content, the size query answered
    | Fails(error: Error, afterWrite: bool) // raised; `afterWrite` when the content was already stored

  /** The oracle's choice for attempt `i`; attempts beyond the oracle complete. */
  function AttemptAt(oracle: seq<Attempt>, i: nat): Attempt
  {
    if i < |oracle| then oracle[i] else Completes
  }

  /** Whether the loop's `except` clause catches `e`: every error, or only ClientError. */
  predicate Caught(catchesAll: bool, e: Error)
  {
    catchesAll || e == ClientError
  }

  /** A caught failure: the attempt is logged, the loop sleeps and goes on. */
  predicate Retried(oracle: seq<Attempt>, i: nat, catchesAll: bool)
  {
    AttemptAt(oracle, i).Fails? && Caught(catchesAll, AttemptAt(oracle, i).error)
  }

  datatype Ending =
    | Verified          // stored size equals the manifest size: True
    | Mismatch          // stored size differs: False, no further attempt
    | Exhausted         // every attempt failed: False
    | Escaped(e: Error) // an error the loop does not catch propagates

  /**
   * A run of the loop: how it ended, how many attempts it started, how many
   * delays it slept, and whether some attempt stored the content.
   */
  datatype Run = Run(ending: Ending, attempts: nat, sleeps: nat, wrote: bool)

  /**
   * The loop from attempt `i` on; `matches` is whether the stored length
   * (the content's length) equals the manifest size.
   */
  function Loop(oracle: seq<Attempt>, i: nat, retry: int, matches: bool, catchesAll: bool): Run
    decreases retry - i
  {
    if retry <= i then Run(Exhausted, 0, 0, false)
    else match AttemptAt(oracle, i)
      case Completes => Run(if matches then Verified else Mismatch, 1, 0, true)
      case Fails(e, afterWrite) =>
        if Caught(catchesAll, e) then
          var rest := Loop(oracle, i + 1, retry, matches, catchesAll);
          Run(rest.ending, rest.attempts + 1, rest.sleeps + 1, rest.wrote || afterWrite)
        else Run(Escaped(e), 1, 0, afterWrite)
  }

  /** The run that `i` caught failures (with `wrote` telling whether one stored) followed by `r` makes. */
  function After(r: Run, i: nat, wrote: bool): Run
  {
    Run(r.ending, r.attempts + i, r.sleeps + i, r.wrote || wrote)
  }

  /** A caught failure at attempt `i` adds one attempt and one sleep to the rest of the loop. */
  lemma LoopStep(oracle: seq<Attempt>, i: nat, retry: int, matches: bool, catchesAll: bool)
    requires i < retry && Retried(oracle, i, catchesAll)
    ensures Loop(oracle, i, retry, matches, catchesAll)
         == After(Loop(oracle, i + 1, retry, matches, catchesAll), 1, AttemptAt(oracle, i).afterWrite)
  {
  }

  /** An attempt that completes is the last: it stored the content, and the sizes decide the verdict. */
  lemma LoopCompletes(oracle: seq<Attempt>, i: nat, retry: int, matches: bool, catchesAll: bool)
    requires i < retry && AttemptAt(oracle, i).Completes?
    ensures Loop(oracle, i, retry, matches, catchesAll) == Run(if matches then Verified else Mismatch, 1, 0, true)
  {
  }

  /** An attempt whose error the loop does not catch is the last: the error propagates. */
  lemma LoopEscapes(oracle: seq<Attempt>, i: nat, retry: int, matches: bool, catchesAll: bool)
    requires i < retry && AttemptAt(oracle, i).Fails? && !Caught(catchesAll, AttemptAt(oracle, i).error)
    ensures Loop(oracle, i, retry, matches, catchesAll)
         == Run(Escaped(AttemptAt(oracle, i).error), 1, 0, AttemptAt(oracle, i).afterWrite)
  {
  }

  /** Once the budget is spent the loop is exhausted. */
  lemma LoopSpent(oracle: seq<Attempt>, i: nat, retry: int, matches: bool, catchesAll: bool)
    requires retry <= i
    ensures Loop(oracle, i, retry, matches, catchesAll) == Run(Exhausted, 0, 0, false)
  {
  }

  /** Caught failures compose: `i` of them after one more are `i + 1` of them. */
  lemma AfterAfter(r: Run, i: nat, wrote: bool, w: bool)
    ensures After(After(r, 1, w), i, wrote) == After(r, i + 1, wrote || w)
  {
  }

  /** What `writeFile` returns or raises, how often it slept, and whether it stored the content. */
  datatype WriteRun = WriteRun(outcome: Result<bool>, sleeps: nat, stores: bool)

  function FromLoop(r: Run): WriteRun
  {
    WriteRun(match r.ending
               case Verified => Ok(true)
               case Mismatch => Ok(false)
               case Exhausted => Ok(false)
               case Escaped(e) => Err(e),
             r.sleeps, r.wrote)
  }

  /**
   * The attempt loop of `writeFile`, on values. `storedLen` is the size the
   * backend reports after a write (the content's length) and `size` the
   * manifest size. It returns what `writeFile` returns or raises, the delays
   * it slept (one after each attempt that raised a caught error), and whether
   * some attempt stored the content; the caller records that write in its store.
   */
  method Attempts(oracle: seq<Attempt>, retry: int, storedLen: nat, size: int, catchesAll: bool) returns (w: WriteRun)
    ensures w == FromLoop(Loop(oracle, 0, retry, storedLen == size, catchesAll))
  {
    var matches := storedLen == size;
    var i: nat := 0;
    var wrote := false;
    while i < retry
      invariant Loop(oracle, 0, retry, matches, catchesAll) == After(Loop(oracle, i, retry, matches, catchesAll), i, wrote)
      decreases retry - i
    {
      var attempt := AttemptAt(oracle, i);
      if attempt.Completes? {
        LoopCompletes(oracle, i, retry, matches, catchesAll);
        if storedLen == size {
          return WriteRun(Ok(true), i, true);
        }
        return WriteRun(Ok(false), i, true);
      }
      if !Caught(catchesAll, attempt.error) {
        LoopEscapes(oracle, i, retry, matches, catchesAll);
        w := WriteRun(Err(attempt.error), i, wrote || attempt.afterWrite);
        return;
      }
      LoopStep(oracle, i, retry, matches, catchesAll);
      AfterAfter(Loop(oracle, i + 1, retry, matches, catchesAll), i, wrote, attempt.afterWrite);
      wrote := wrote || attempt.afterWrite;
      i := i + 1;
    }
    LoopSpent(oracle, i, retry, matches, catchesAll);
    w := WriteRun(Ok(false), i, wrote);
  }

  /** The key-to-size map after a write that may or may not have stored `len` bytes at `key`. */
  function StoreIf(m: map<string, nat>, key: string, len: nat, stores: bool): map<string, nat>
  {
    if stores then m[key := len] else m
  }

  /** The number of attempts left once `i` have been made: `len(range(i, retry))`. */
  function Budget(retry: int, i: nat): nat
  {
    if retry <= i then 0 else retry - i
  }

  /**
   * At most `retry` attempts are made; a run that ends early slept once per
   * attempt but the last, an exhausted run once per attempt.
   */
  lemma {:induction false} LoopBounds(oracle: seq<Attempt>, i: nat, retry: int, matches: bool, catchesAll: bool)
    ensures var r := Loop(oracle, i, retry, matches, catchesAll);
      && r.attempts <= Budget(retry, i)
      && (r.ending == Exhausted ==> r.sleeps == r.attempts == Budget(retry, i))
      && (r.ending != Exhausted ==> r.sleeps + 1 == r.attempts)
    decreases retry - i
  {
    if i < retry && Retried(oracle, i, catchesAll) {
      LoopBounds(oracle, i + 1, retry, matches, catchesAll);
    }
  }

  /** A loop that is never entered (`retry <= 0`) neither writes nor sleeps. */
  lemma NoRetriesNoWrite(oracle: seq<Attempt>, retry: int, matches: bool, catchesAll: bool)
    requires retry <= 0
    ensures Loop(oracle, 0, retry, matches, catchesAll) == Run(Exhausted, 0, 0, false)
  {
  }

  /**
   * True only when the stored size matches, False on a mismatch only when it
   * does not; both are reached only after an attempt stored the content.
   */
  lemma {:induction false} LoopVerdict(oracle: seq<Attempt>, i: nat, retry: int, matches: bool, catchesAll: bool)
    ensures var r := Loop(oracle, i, retry, matches, catchesAll);
      && (r.ending == Verified ==> matches && r.wrote)
      && (r.ending == Mismatch ==> !matches && r.wrote)
    decreases retry - i
  {
    if i < retry && Retried(oracle, i, catchesAll) {
      LoopVerdict(oracle, i + 1, retry, matches, catchesAll);
    }
  }

  /** The loop is exhausted exactly when every one of its attempts is a caught failure. */
  lemma {:induction false} LoopExhaustedIff(oracle: seq<Attempt>, i: nat, retry: int, matches: bool, catchesAll: bool)
    ensures Loop(oracle, i, retry, matches, catchesAll).ending == Exhausted
        <==> forall j :: i <= j < retry ==> Retried(oracle, j, catchesAll)
    decreases retry - i
  {
    if i < retry {
      LoopExhaustedIff(oracle, i + 1, retry, matches, catchesAll);
      if !Retried(oracle, i, catchesAll) {
        assert !(forall j :: i <= j < retry ==> Retried(oracle, j, catchesAll)) by {
          assert !Retried(oracle, i, catchesAll);
        }
      }
    }
  }

  /**
   * The first attempt that is not a caught failure ends the loop: no attempt
   * follows it, and it decides the ending (a mismatch, in particular, is final).
   */
  lemma {:induction false} LoopStopsAtFirst(oracle: seq<Attempt>, i: nat, k: nat, retry: int, matches: bool, catchesAll: bool)
    requires i <= k < retry
    requires forall j :: i <= j < k ==> Retried(oracle, j, catchesAll)
    requires !Retried(oracle, k, catchesAll)
    ensures var r := Loop(oracle, i, retry, matches, catchesAll);
      && r.attempts == k - i + 1
      && r.ending == match AttemptAt(oracle, k)
                     case Completes => if matches then Verified else Mismatch
                     case Fails(e, _) => Escaped(e)
    decreases k - i
  {
    if i < k {
      assert Retried(oracle, i, catchesAll);
      LoopStopsAtFirst(oracle, i + 1, k, retry, matches, catchesAll);
    }
  }

  /** A loop whose `except` catches everything never lets an error through. */
  lemma {:induction false} CatchAllNeverEscapes(oracle: seq<Attempt>, i: nat, retry: int, matches: bool)
    ensures !Loop(oracle, i, retry, matches, true).ending.Escaped?
    decreases retry - i
  {
    if i < retry && Retried(oracle, i, true) {
      CatchAllNeverEscapes(oracle, i + 1, retry, matches);
    }
  }

  /** A loop that catches only ClientError lets through only other errors. */
  lemma {:induction false} OnlyClientErrorRetried(oracle: seq<Attempt>, i: nat, retry: int, matches: bool)
    ensures var r := Loop(oracle, i, retry, matches, false);
      r.ending.Escaped? ==> r.ending.e != ClientError
    decreases retry - i
  {
    if i < retry && Retried(oracle, i, false) {
      OnlyClientErrorRetried(oracle, i + 1, retry, matches);
    }
  }
}
