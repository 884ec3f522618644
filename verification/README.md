# System-keychain unlock key store

A Dafny model of `SystemKeychainKey` from securityd's `src/database.cpp`: the
cache that holds the system keychain's unlock record (a `DbBlob` with a
signature and a raw master key), re-reads its backing file at most once per
`checkDelay`, and answers `matches(signature)`.

The store's state is the tuple (`mValid`, `mUpdateThreshold`, `mCachedDate`,
`mBlob`), modelled as the immutable `SystemKeychain.State`. One call of
`update()` is the pure step `SystemKeychain.Update(state, now, stat, read, cfg)`,
which returns the answer and the next state; `matches()` is
`SystemKeychain.Matches` on top of it. Everything the source gets from outside
is an explicit input:

- the clock (`Time::now()`) is `now`, an integer tick count;
- the outcome of `::stat` is a `StatResult`: failure, or the file's modification time;
- the outcome of opening and reading the file is a `ReadResult`: a full read of
  a record, a short read, or an exception. After a short read or an exception
  the blob holds whatever the failed transfer left there (`after`), which the
  environment chooses, since `fd.read(mBlob)` may have overwritten part of it;
- `DbBlob::isValid` and `checkDelay` are fields of `Config`. The integrity check
  is an arbitrary predicate on blobs. The delay is any strictly positive interval.

The branches follow the code in order: the throttle window (line 115), stat failure
(line 120), the unchanged-date short-circuit (line 125), re-arming the throttle
(line 127), then the full read checked by `isValid` (lines 131-138) and the catch
(lines 139-141). `CallSequence.Run` threads the state through a sequence of
`matches()` calls, so that properties spanning several calls can be stated.

A short read (lines 132-133) or a caught exception (lines 139-141) returns
`false` without resetting `mValid`. So a cache that was valid stays marked valid
after such a failure, while `mBlob` may already have been partly overwritten by
`fd.read(mBlob)`. The threshold was advanced at line 127, so every call in the
following window answers `true` from the cache
(`SystemKeychainLemmas.StaleTrueAfterShortRead`). The stale `true` can also
outlive the window. Suppose stat later reports the date cached before the
failure again. Then the line-125 short-circuit answers `true` at any time,
without reading the file again (`SystemKeychainLemmas.StaleTrueOutlivesWindow`).
The throttle is armed only by a stat failure (line 122) or a read attempt
(line 127), never by the line-125 short-circuit, which returns first. So once a
window has expired, a valid cache with an unchanged file date runs `::stat` on
every call (`SystemKeychainLemmas.ShortCircuitLeavesThrottleOpen`).
The model therefore has no invariant "valid implies the blob passes `isValid`",
because the code does not keep it.

## Model

| member | source | states |
|---|---|---|
| SystemKeychain.Update | src/database.cpp:112-143 | a true answer leaves the cache valid and either changes nothing or comes from a fresh valid read whose file date is cached; a false answer is throttled with nothing changed or re-arms the throttle; the threshold never decreases and only moves to now + checkDelay; the cached date changes only with a valid full read at that date; the blob changes only when the file is read |
| SystemKeychain.Matches | src/database.cpp:107-110 | a match implies the cache is marked valid and holds exactly that signature; matching has no effect on the state beyond the update |
| SystemKeychainLemmas.Throttled | src/database.cpp:115-116 | before the threshold the answer is the current valid flag, the state is unchanged, and the stat and read outcomes have no influence |
| SystemKeychainLemmas.StatFailure | src/database.cpp:119-124 | a failing stat answers false, clears the valid flag, sets the threshold to now + checkDelay, and keeps blob and cached date |
| SystemKeychainLemmas.UnchangedDate | src/database.cpp:125-126 | a valid cache whose file date equals the cached date answers true with every field unchanged, the threshold included, whatever the file now holds |
| SystemKeychainLemmas.ReadArmsThrottle | src/database.cpp:115-127 | a call that reaches the read sets the threshold to now + checkDelay, so any later call before that time is throttled |
| SystemKeychainLemmas.FullReadValid | src/database.cpp:131-136 | a full read of a record passing the integrity check installs it, caches its file date, marks the cache valid and answers true |
| SystemKeychainLemmas.FullReadInvalid | src/database.cpp:132-138 | a full read of a record failing the integrity check answers false and clears the valid flag; the cached date is kept |
| SystemKeychainLemmas.ReadFailureKeepsFlag | src/database.cpp:129-142 | a short read or an exception answers false, keeps the valid flag and the cached date, and leaves the blob as the transfer left it |
| SystemKeychainLemmas.StaleTrueAfterShortRead | src/database.cpp:115-133 | after a short read on a previously valid cache, calls inside the new window answer true and match the partly overwritten blob's signature |
| SystemKeychainLemmas.StaleTrueOutlivesWindow | src/database.cpp:125-133 | after a short read on a previously valid cache, any later call whose stat reports the previously cached date answers true at any time, changes nothing, and matches the partly overwritten blob's signature |
| SystemKeychainLemmas.ShortCircuitLeavesThrottleOpen | src/database.cpp:120-127 | the unchanged-date short-circuit leaves the threshold where it was, so a stat failure at the same instant is seen at once: it answers false, clears the flag and arms the throttle |
| SystemKeychainLemmas.OneByteDifferenceFails | src/database.cpp:109 | a signature differing from the held one in a single byte never matches |
| SystemKeychainLemmas.FailClosed | src/database.cpp:119-141 | when the file is consulted and stat fails, the read fails, or the record is invalid, no signature matches |
| SystemKeychainLemmas.Recovery | src/database.cpp:125-136 | once the throttle expires, an invalid cache or one whose file date changed picks up a valid record, and that record's signature matches |
| SystemKeychainLemmas.RepeatAtSameInstant | src/database.cpp:112-143 | when stat and the read report the same outcome to both calls, a second call at the same instant is answered from the cache with nothing changed, and disagrees with the first only after a short read or exception on a valid cache |
| SystemKeychainLemmas.FirstCall | src/database.cpp:112-143 | the first call on a fresh store at a non-negative time answers true exactly when stat succeeds and the read yields a full record passing the integrity check |
| CallSequence.Run | src/database.cpp:107-143 | over any run of calls the threshold never decreases, and a changed cached date is the file date of some call that fully read a valid record |
| CallSequence.ThrottleWindow | src/database.cpp:109-116 | calls made before the threshold never change the state and each answers the held flag and signature comparison, whatever the file does |
| CallSequence.ProbeThenWindow | src/database.cpp:115-127 | after a call that reaches the read (line 127), every following call before its time plus checkDelay is answered from the state that call left |
| CallSequence.ThresholdOrigin | src/database.cpp:115-127 | the threshold after a run is the initial one or some call's time plus checkDelay |
| CallSequence.ThrottledCallIsRecent | src/database.cpp:115-127 | after a run from a fresh store, a throttled call comes before some call's time plus checkDelay |
| CallSequence.StalenessBounded | src/database.cpp:115-127 | when the clock never goes backwards, a call throttled after a run from a fresh store comes at or after some call of the run and less than checkDelay after it |
| CallSequence.Scenario | src/database.cpp:107-143 | a valid record with signature A is read; A matches and B does not; with the file gone A still matches at checkDelay - 1 and no longer matches at checkDelay |

## Left out

- `DbCommon::session()`, `Database::process()` and their constructors (src/database.cpp:44-68): thin wrappers over the referent facility, which is declared in headers that are not part of this model.
- `DbCommon::sleepProcessing` and `Database::releaseKey` (src/database.cpp:74-83): an empty body and a one-line forward to `removeReference`.
- The CSSM key-header setup in the `SystemKeychainKey` constructor (src/database.cpp:92-100): foreign library calls with no checkable behaviour. Only the blob's fields (signature and master key) are modelled.
- The initial field values: the constructor does not set `mValid`, `mUpdateThreshold` or `mCachedDate`, and `database.h` is not part of this model. `SystemKeychain.Initial` assumes the key starts unknown (`valid` false), with threshold and cached date at time 0.
- Real file-system I/O (`::stat`, `AutoFileDesc`, `fd.read`) and `secdebug` logging are replaced by the `StatResult` and `ReadResult` inputs. The file path is not modelled, because it only selects which file those outcomes come from.
- `Time::now()` is read at most twice in one call: at line 115, then at line 122 or line 127. The model uses a single reading `now` per call. Time is an integer tick count rather than the library's floating-point `Time::Absolute`.
- The conversion of `st_mtimespec` to `Time::Absolute` is not modelled. File dates are compared as integers.
- `DbBlob::isValid` and the value of `checkDelay` are defined outside this file. They are parameters of every property.
- Locking and concurrent access: the code has none, and each call is modelled as one atomic step.
