# Storage and serving core of an OpenBMCLAPI edge-cache node

This project models, in Dafny, the storage and serving core of a Python node
of the OpenBMCLAPI content-delivery cluster. The node mirrors files that are
addressed by their hash. It stores them in one or more backends, works out
which manifest entries a backend is missing, serves signed download requests
while counting hits and bytes, and removes files the manifest no longer lists.

Modules follow the source files:

- `Classes` (core/classes.py): `FileInfo` and `FileList` datatypes, the
  shared `Counters`, the `Reply` of an `express` call, Python's exceptions as
  an `Error` datatype, and `Select`. `Select` is the "manifest filtered by a
  per-entry test" shape that every `getMissingFiles` shares.
- `Retry`: the bounded retry loop that all three `writeFile` implementations
  run, as one function of an oracle of per-attempt outcomes. It is
  parameterised by whether the `except` clause catches every error (local,
  AList) or only `ClientError` (S3).
- `Local` (core/storages/local.py): the disk is a map from file path to size.
  It has the `root/h[:2]/h` layout, `writeFile`, `getMissingFiles`, `express`
  and `recycleFiles`.
- `S3` (core/storages/s3.py): the bucket is a map from object key to length.
  It has the `h[:2]/h` layout, `writeFile` with its pre-check, per-object
  `getMissingFiles` and the `check` probe.
- `AList` (core/storages/alist.py): the remote file system is a map. It has
  the token `init`, the 256-directory listing and pair-set diff of
  `getMissingFiles`, `writeFile`, the `express` result dict and the
  `recycleFiles` stub.
- `Base64Url` and `Numerals`: the URL-safe base64 of section 5 of RFC 4648
  with `=` stripped, and Python's `int(text, base)` and `str(n)`. The router
  uses both.
- `Router` (core/router.py): `checkSign`, the `/download/{hash}` handler with
  its connection gauge, and the `/measure/{size}` decision table and stream.
- `Storages` (core/storages/__init__.py): `getStorages`.
- `Config` (core/config.py): the YAML tree with dotted-key `_getValue` and
  `_setValue`, the `get` precedence, and default seeding in the constructor.

Failures that come from outside are parameters:
- an `Attempt` oracle for each `writeFile` attempt;
- sets of keys whose `head_object` raises;
- a `listing` function answering each `fs/list` call;
- an `FsGet` answer and a `Login` answer;
- a `statFails` flag;
- the clock `now`, the SHA-1 function, and the index `pick` of the
  `random.choice`.

### Behaviour as written

The model follows the code where the code and the design intent differ:

- Local `writeFile` tests `Path(p).exists` without calling it. So `stat`
  runs unguarded, and an absent file raises `FileNotFoundError` before any
  attempt (`Local.LocalWriteOutcome`).
- The same-length pre-check of local and S3 `writeFile` compares the stored
  size with the content's length, not with `file.size`
  (`Local.SkipKeepsMissing`).
- S3 `writeFile` retries only `ClientError`. Any other error propagates
  (`S3.S3WriteEscapes`).
- S3 `getMissingFiles` treats a raising `head_object` as "not missing". An
  absent object is therefore never reported (`S3.AbsentNeverMissing`). The
  code looks up each object; there is no listing-based diff.
- In local `express`, when `getsize` fails, the error branch builds
  `HTTPError(text=e)` with an exception where a string is required. That
  raises out of `express`, and the download gauge stays up.
- AList `express` takes `(hash, request, response)` and returns a dict. The
  router calls it as `express(hash, counters)`, which raises `TypeError`, so
  an AList download never reaches the dict. The same holds for
  `storage.measure(size)`. AList `express` reads `raw_url` and `size` at the
  top level of the reply (`AList.ExpressNestedReply`).
- AList `recycleFiles` is declared without `self`, so calling it raises
  `TypeError`.
- `/measure` answers 400, not 403, for a bad signature with `size <= 200`.
  `checkSign` runs before the size test, so a matching signature whose expiry
  is no base-36 numeral raises `ValueError`, which is caught as 400 even
  when `size > 200`.
- `getStorages` builds only `local` and `alist` entries. `S3Storage` lacks
  `express` and `recycleFiles`, so it is abstract and never constructed.
- `CFG.get(key, def_)` never answers a `def_` that was given
  (`Config.DefaultArgumentIgnored`).

## Model

| member | source | states |
|---|---|---|
| `Classes.Counters.constructor` | core/router.py:20 | the shared counters start with `hits` and `bytes` at zero |
| `Classes.Shard` | core/storages/local.py:35 | `h[:2]` is a prefix of `h`, two characters long, or all of a shorter `h` |
| `Classes.SelectMembership` | core/storages/local.py:80-84 | an entry is in the filtered manifest exactly when it is in the manifest and the missing test holds of it |
| `Classes.SelectCongruent` | core/storages/local.py:80-84 | two per-entry tests that agree on the manifest select the same list |
| `Classes.SelectAppend` | core/storages/local.py:81-83 | filtering keeps manifest order: the selection of a concatenation is the concatenation of the selections |
| `Classes.SelectCount` | core/classes.py:18-20 | entries are not deduplicated: a missing entry occurs in the result as often as in the manifest |
| `Retry.LoopBounds` | core/storages/local.py:41-68 | at most `retry` attempts; a loop that ends early slept once per attempt but the last; an exhausted loop slept once per attempt |
| `Retry.NoRetriesNoWrite` | core/storages/local.py:41 | with `retry <= 0` the loop neither writes nor sleeps and reports failure |
| `Retry.LoopVerdict` | core/storages/local.py:43-56 | True only when the stored size equals `file.size`, a mismatch only when it differs, both only after a write |
| `Retry.LoopExhaustedIff` | core/storages/local.py:57-68 | the loop ends in "retries exhausted" exactly when every attempt raised a caught error |
| `Retry.LoopStopsAtFirst` | core/storages/local.py:43-56 | the first attempt that completes (or raises an uncaught error) is the last one; a size mismatch is final |
| `Retry.Attempts` | core/storages/local.py:41-68 | the attempt loop returns exactly the outcome, the number of sleeps and whether the content ended up stored that the loop's definition gives |
| `Retry.CatchAllNeverEscapes` | core/storages/alist.py:176-179 | a loop whose `except` catches everything never lets an error out |
| `Retry.OnlyClientErrorRetried` | core/storages/s3.py:65-76 | a loop that catches only `ClientError` lets out only other errors |
| `Local.JoinEndsWith` | core/storages/local.py:35 | `os.path.join`: an absolute second part replaces the first; otherwise the result ends with the second part |
| `Local.KeyPathLayout` | core/storages/local.py:35 | the key path of a plain hash is the root directory, the two-character shard, a slash and the hash |
| `Local.KeyPathInjective` | core/storages/local.py:73 | distinct plain hashes are stored at distinct paths |
| `Local.Stat` | core/storages/local.py:74-78 | `stat` answers a size exactly when a file is at the path, and the size answered is the stored one |
| `Local.LocalWriteOutcome` | core/storages/local.py:32-68 | `writeFile` raises exactly when the file is absent; True only from the same-length skip or after storing content of the manifest size; at most one sleep per attempt; `retry <= 0` never writes |
| `Local.WriteClearsMissing` | core/storages/local.py:43-48 | after a write that stored the content and reported True, the entry is no longer missing |
| `Local.SkipKeepsMissing` | core/storages/local.py:37-40 | a stored file of the content's length that differs from `file.size` is kept, True is reported, and the entry stays missing |
| `Local.ValidPathsExactly` | core/storages/local.py:106-109 | the valid-path set holds exactly the key paths of the manifest's entries |
| `Local.Recycled` | core/storages/local.py:133-138 | after the deletion pass exactly the manifest's files and those whose unlink failed remain, sizes unchanged |
| `Local.RecycleKeepsMissing` | core/storages/local.py:106-120 | recycling never deletes a manifest file: each entry's missing status is unchanged |
| `Local.RecycleLeavesOnlyManifest` | core/storages/local.py:117-138 | with no failed unlink only the manifest's files remain, and a second pass removes nothing |
| `Local.SumSizesPermutation` | core/storages/local.py:132-134 | the reclaimed total does not depend on the order the tree is walked in |
| `Local.WalkOutside` | core/storages/local.py:110-120 | the walk selects each file outside the valid paths exactly once, and no other |
| `Local.ExpressReply` | core/storages/local.py:86-101 | 404 exactly when no file is at the key path; a raise exactly when `getsize` fails on a present file; otherwise 200 with the hash header |
| `Local.LocalStorage.constructor` | core/storages/local.py:17-18 | a storage rooted at `path` over the given tree |
| `Local.LocalStorage.WriteFile` | core/storages/local.py:32-68 | the result, the sleeps and the new tree are those of the pre-check and retry loop; only the key path can change |
| `Local.LocalStorage.GetMissingFiles` | core/storages/local.py:70-84 | exactly the entries whose file is absent or of another size, with their multiplicity, in manifest order |
| `Local.LocalStorage.Express` | core/storages/local.py:86-101 | on a 200, hits go up by one and bytes by the file's size; otherwise both counters are unchanged |
| `Local.LocalStorage.RecycleFiles` | core/storages/local.py:103-144 | selects every file outside the manifest's key paths once; the reclaimed total sums all selected sizes, failed unlinks included; the tree keeps the manifest's files and the failed unlinks |
| `Local.LocalStorage.UnlinkAll` | core/storages/local.py:126-144 | the deletion loop's total is the sum of the selected files' sizes, and every selected file whose unlink does not fail is gone while the rest of the tree is untouched |
| `S3.ObjectKeyInjective` | core/storages/s3.py:41 | distinct slash-free hashes name distinct objects `h[:2]/h` |
| `S3.S3WriteOutcome` | core/storages/s3.py:38-76 | never raises `ClientError` and never raises after a matching pre-check; True only from the skip or an upload of the manifest size; at most one sleep per attempt |
| `S3.S3WriteEscapes` | core/storages/s3.py:65-76 | an error other than `ClientError` in the first attempt propagates at once |
| `S3.AbsentNeverMissing` | core/storages/s3.py:92-97 | an entry whose object is absent is never reported missing |
| `S3.WriteClearsMissing` | core/storages/s3.py:49-55 | after an upload that reported True, the entry is not missing |
| `S3.ProbeSparesContent` | core/storages/s3.py:78-86 | the random 16-hex-digit probe key never touches a content object |
| `S3.S3Storage.constructor` | core/storages/s3.py:15-33 | a storage over the given bucket and objects |
| `S3.S3Storage.WriteFile` | core/storages/s3.py:38-76 | the result, the sleeps and the new bucket are those of the pre-check and the `ClientError`-only retry loop |
| `S3.S3Storage.Check` | core/storages/s3.py:78-86 | put, head and delete of an empty probe object; success is logged only when none raises; a raise leaves the probe as far as it got |
| `S3.S3Storage.GetMissingFiles` | core/storages/s3.py:88-103 | exactly the entries whose object exists, answered `head_object`, and has another length, in manifest order |
| `AList.Hex2Injective` | core/storages/alist.py:79-81 | the 256 directory names `00` to `ff` are distinct |
| `AList.Hex2Covers` | core/storages/alist.py:80 | every two-digit lowercase hex name is one of the 256 listed directories |
| `AList.KeyInListedDir` | core/storages/alist.py:152 | content with a hex hash is stored, under its hash, in one of the listed directories |
| `AList.MeasureSparesContent` | core/storages/alist.py:93 | the measure probe path `{path}/measure/.{size}` is never a content path |
| `AList.FilePairs` | core/storages/alist.py:76 | a listing contributes the `(name, size)` pairs of its file entries; directories are skipped |
| `AList.ListedPairsExact` | core/storages/alist.py:66-83 | a pair is collected exactly when some listed directory answered 200 with a file entry of that name and size |
| `AList.ListedPairsErrStays` | core/storages/alist.py:70-72 | a listing call that raises ends the whole listing with that error |
| `AList.Diff` | core/storages/alist.py:83-90 | the manifest entries whose `(hash, size)` pair was not listed, in manifest order, one tick per entry |
| `AList.Express` | core/storages/alist.py:131-149 | only a raising `fs/get` raises; a non-200 code gives 404 with zero bytes and hits; a code-200 reply is redirected (302, hash header, one hit, `bytes` equal to the reply's `size`) exactly when it has top-level `raw_url` and `size`, and otherwise gets 500 with zero bytes and hits |
| `AList.ExpressNestedReply` | core/storages/alist.py:141-144 | a 200 reply without top-level `raw_url` and `size` gives 500 and zeros |
| `AList.AListWriteOutcome` | core/storages/alist.py:151-179 | no pre-check; never raises; True only after uploading content of the manifest size; at most one sleep per attempt |
| `AList.AListStorage.constructor` | core/storages/alist.py:16-23 | no token, no headers, no refresh job |
| `AList.AListStorage.FetchToken` | core/storages/alist.py:26-41 | a login with code 200 sets the token and `{"Authorization": token}`; any other leaves both unchanged; the refresh job is registered |
| `AList.AListStorage.Init` | core/storages/alist.py:25-43 | one token fetch, which registers the refresh job |
| `AList.AListStorage.WriteFile` | core/storages/alist.py:151-179 | the result, the sleeps and the new remote tree are those of the catch-all retry loop; the token is untouched |
| `AList.AListStorage.ListDirectories` | core/storages/alist.py:66-81 | lists `path/00` to `path/ff` in order and collects what `ListedPairs` defines; all 256 when none raises |
| `AList.AListStorage.GetMissingFiles` | core/storages/alist.py:65-90 | a raising listing propagates; otherwise exactly the entries whose `(hash, size)` pair was not listed, in manifest order |
| `AList.AListStorage.RecycleFiles` | core/storages/alist.py:181-182 | the stub, declared without `self`, raises `TypeError` and deletes nothing |
| `Base64Url.StripPadding` | core/router.py:35 | `rstrip("=")` keeps a prefix with no trailing `=` and removes only `=` |
| `Base64Url.UnpaddedIsNoPad` | core/router.py:29-35 | stripping the padding of the URL-safe encoding leaves exactly the unpadded encoding |
| `Base64Url.NoPadLength` | core/router.py:30 | the unpadded encoding of `n` bytes has `ceil(4n/3)` characters |
| `Base64Url.DecodeEncode` | core/router.py:30 | decoding inverts the unpadded encoding |
| `Base64Url.UnpaddedInjective` | core/router.py:29-35 | distinct digests give distinct signatures |
| `Base64Url.DigestLength` | core/router.py:29-35 | a 20-byte SHA-1 digest encodes to 28 characters, 27 once stripped |
| `Numerals.ParseShow` | core/router.py:60-63 | `int(str(i)) == i` |
| `Numerals.ShowInjective` | core/router.py:63 | distinct sizes give distinct signed resources `/measure/{size}` |
| `Numerals.ParseIsNotCanonical` | core/router.py:60-63 | `int` accepts `+007`, which signs as `/measure/7` |
| `Router.Lower` | core/router.py:45 | `lower()` keeps the length and lowers each ASCII capital |
| `Router.LowerIdempotent` | core/router.py:45 | lowering a lowered hash changes nothing |
| `Router.LowerKeepsHexHash` | core/router.py:45 | a lowercase hex hash is left unchanged |
| `Router.IssuedSignatureAccepted` | core/router.py:26-36 | a query with the issued signature and a base-36 expiry is accepted exactly while `now < expiry` |
| `Router.ForgeryRefused` | core/router.py:27-36 | a missing or empty `s` or `e`, or an `s` that is not the signature, is refused without raising |
| `Router.CheckSignRaises` | core/router.py:36 | only `ValueError` escapes `checkSign`, and only behind a matching signature with a non-numeral expiry |
| `Router.AcceptedSignature` | core/router.py:29-36 | an accepted signature has 27 characters and its expiry is strictly ahead of `now` |
| `Router.SignatureBindsResource` | core/router.py:31 | unless SHA-1 collides on the two signed messages, one signed query is accepted for one resource only |
| `Router.StreamBody` | core/router.py:75-88 | `size` buffers of 1 MiB, each byte following the pattern `00 66 cc ff`; no bytes for a size below one |
| `Router.Router.constructor` | core/router.py:16-24 | counters at zero and the gauge at zero |
| `Router.Router.Download` | core/router.py:39-55 | the gauge goes up; the lowered hash is checked; 403 on refusal; otherwise the picked storage's `express` result, with the gauge back down only when it returns; counters change only on a 200 |
| `Router.Router.FirstAList` | core/router.py:69-73 | the first AList storage, every storage before it being local |
| `Router.Router.Measure` | core/router.py:57-92 | 400 for a non-integer size or a raising `checkSign`; 403 for `size > 200`; 400 for a refused signature; `TypeError` with an AList storage; else a stream whose Content-Length is `size` MiB and whose body has that length |
| `Storages.Field` | core/storages/__init__.py:13 | `d[key]` answers the entry or raises `KeyError(key)` |
| `Storages.BuiltLength` | core/storages/__init__.py:11-23 | at most one storage per configuration entry |
| `Storages.BuiltOkIff` | core/storages/__init__.py:11-22 | the loop succeeds exactly when every entry does |
| `Storages.BuiltRaisesFirst` | core/storages/__init__.py:11-22 | a failure is the error of the first entry that raises |
| `Storages.BuiltAppend` | core/storages/__init__.py:10-23 | storages come out in configuration order |
| `Storages.EntryPassesThrough` | core/storages/__init__.py:12-22 | a storage comes from a `local` or `alist` dict, its arguments being that dict's entries unchanged |
| `Storages.OtherTypesSkipped` | core/storages/__init__.py:12-22 | an entry of any other type, S3 among them, contributes nothing |
| `Storages.DefaultStorages` | core/config.py:21 | the default `storages` value builds one local storage at `./cache` |
| `Storages.EntryErrors` | core/storages/__init__.py:12-22 | a non-dict entry raises TypeError, a missing `type` KeyError("type"), and otherwise the entry fails exactly when a constructor argument is missing, with KeyError for the first missing one in reading order (`path`; or `username`, `password`, `url`, `path`) |
| `Storages.GetStorages` | core/storages/__init__.py:8-23 | the loop builds exactly the storages `Configured` defines |
| `Config.JoinSplit` | core/config.py:42 | joining the pieces of `key.split(".")` with dots gives the key back |
| `Config.SplitJoin` | core/config.py:34-35 | splitting a dot-joined key of dot-free pieces gives the pieces back |
| `Config.SettableIff` | core/config.py:68-73 | `_setValue` raises exactly when a value on the way is not a dict, and then raises `TypeError` |
| `Config.GetAfterSet` | core/config.py:60-73 | after `_setValue`, `_getValue` at the same path answers the value set |
| `Config.GetBelowSet` | core/config.py:60-73 | reading below the path just set reads inside the value set |
| `Config.SetKeepsOthers` | core/config.py:68-73 | every path that is neither a prefix nor an extension of the set path reads as before |
| `Config.SetKeepsSettable` | core/config.py:68-73 | such paths stay settable |
| `Config.GetValue` | core/config.py:60-66 | the loop answers the value at the path, or None at the first absent key |
| `Config.SetValue` | core/config.py:68-73 | the loop creates missing intermediate dicts and stores the leaf, as `SetIn` defines |
| `Config.DefaultsApart` | core/config.py:6-24 | no default key is a prefix of another |
| `Config.DefaultFor` | core/config.py:45-46 | a default is found exactly when the table has the key |
| `Config.EnvironmentWins` | core/config.py:42 | a non-empty environment value is answered and nothing is stored |
| `Config.DefaultArgumentIgnored` | core/config.py:41-49 | a `def_` that was given is never answered: the result stays None |
| `Config.DefaultSeededOnce` | core/config.py:43-48 | an unset key with a non-None default answers it and stores it, so the next `get` reads it unchanged |
| `Config.Cfg.constructor` | core/config.py:28-39 | without a file every default key reads its default; a loaded falsy document becomes `{}` |
| `Config.Cfg.Set` | core/config.py:51-53 | the tree becomes `SetIn` of the old tree, or stays as it was when that raises |
| `Config.Cfg.Get` | core/config.py:41-49 | the answer and the new tree are those `Resolve` defines |

## Left out

- Transport and wire formats are not modelled: aiohttp client and server,
  boto3, and the AList REST calls. They are replaced by store maps and by
  oracles of per-call outcomes.
- Byte content is not modelled as stored bytes. A backend stores a size, and
  a successful write stores `len(content)`. So a stored length differs from
  `file.size` only when the content's length does.
- The real filesystem is not modelled: directory creation, `tempfile`,
  symlinks and `Path.resolve()` in recycling. The tree is a map of
  regular-file paths, compared as written.
- YAML `load` and `save` are not modelled. The loaded document is a
  constructor parameter, and the `save` after each `set` is omitted.
- Concurrency is not modelled: `asyncio.gather`, `asyncio.to_thread` and the
  scheduler run sequentially. `asyncio.sleep(delay)` is a counted sleep.
- SHA-1 is a function parameter, `time.time()` the parameter `now`, and
  `random.choice` the index `pick`.
- The `writeAgent` user-agent statistics are not modelled. Only the
  `KeyError` raised for a missing `User-Agent` header is kept.
- Local `init` and `check` (directory creation and a temporary file), S3
  `init` (a no-op), and AList `check` and `measure` (network sequences) are
  not modelled.
- The router's counters are a plain dict in the source. The model makes them
  a class with two fields, which storages update in place.
- The abstract `Storage` class is not a Dafny type, since traits are not
  available. Each backend class carries the same operations, and the router
  dispatches over the closed `Backend` datatype of the kinds `getStorages`
  builds. The `AgentConfiguration` record is used outside the core and is
  left out.
- `Local.LocalStorage.GetMissingFiles`: the progress bar ticks once per
  manifest entry, and this count is not modelled. The same holds for
  `S3.S3Storage.GetMissingFiles`. The AList diff and listing do count their
  ticks.
- `Local.LocalStorage.GetMissingFiles`: a `stat` error other than
  `FileNotFoundError` would propagate; it is not modelled.
- `Local.LocalStorage.RecycleFiles`: `stat` failing in the deletion loop is
  not modelled, and neither are the tqdm bars and the `humanize` log text.
- Python's `int` also accepts surrounding whitespace,
  underscores between digits and non-ASCII digits. The model's `ParseInt`
  rejects them.
- `Numerals.ParseInt`: the limit on the length of a numeral that `int()` converts
  (4300 digits by default in CPython 3.11 and in 3.10.7 on) is not modelled.
  On such interpreters a `/measure/` size or a signature's `e` longer than the
  limit raises ValueError (a 400 from `measure`, a raise from `checkSign`),
  while `Router.Router.Measure` answers 403 and `Router.CheckSign` parses it.
- `Router.Lower`: only ASCII capitals are lowered. Python's `str.lower()`
  folds every Unicode capital (the Kelvin sign becomes `k`) and can lengthen
  a string (`'İ'.lower()` has two code points), so the model's "keeps the
  length" holds only for ASCII input. No non-ASCII character lowers to a
  hexadecimal digit, so a hash compared after lowering is affected only
  through its length.
- `Router.CheckSign`: the request query is a map with one value per key.
  aiohttp's `MultiDict` may hold a key several times and `.get` answers the
  first value; repeated `s` or `e` parameters are not modelled. The same holds
  for `Router.Router.Download`.
- `Local.LocalStorage.WriteFile`: `aiofiles.open(..., "wb")` truncates the
  file before writing. An attempt that fails inside `write` leaves an empty or
  partly written file, and if every retry fails the tree keeps it. An attempt
  outcome either keeps the old file or stores the full content, so this path
  is not captured.
- Aliasing in the configuration tree is not modelled. `set` stores the very
  default value object (the `storages` list) that the `defaults` table
  holds.
- `/api/status`, `/api/rank`, the dashboard and static routes, metrics,
  logging and the process bootstrap are not modelled.
