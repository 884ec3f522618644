/**
 The system-keychain unlock key store (`SystemKeychainKey` in src/database.cpp).

 The store caches the unlock record of the system keychain, read verbatim
 from a file, and re-reads that file at most once per `checkDelay`. Its
 mutable state is the four-field tuple (valid flag, update threshold, cached
 file date, blob). Everything the source obtains from the outside world --
 the clock, the outcome of `stat`, the outcome of opening and reading the
 file, and the blob's own integrity check -- is an explicit input here, so
 one call of `update()` becomes the pure step function `Update`.
 */
module SystemKeychain {

  type Byte = bv8

  /** Time as an integer tick count (the source's clock and file dates). */
  type Time = int

  /** The re-check delay: a strictly positive interval. */
  type Delay = d: int | 0 < d witness 1

  /** `DbBlob::Signature`: a byte string used only for equality comparison. */
  datatype Signature = Signature(bytes: seq<Byte>)

  /** The unlock record as read from the file: its signature and the raw master key. */
  datatype DbBlob = DbBlob(signature: Signature, masterKey: seq<Byte>)

  /**
   Fixed configuration of one store: the re-check delay, and the blob's
   structural integrity check (`DbBlob::isValid`), which this model leaves
   uninterpreted.
   */
  datatype Config = Config(checkDelay: Delay, isValid: DbBlob -> bool)

  /** The outcome of `stat` on the backing file: failure, or the file's modification time. */
  datatype StatResult = StatFailed | StatOk(mtime: Time)

  /**
   The outcome of opening the file and reading one record into the blob.
   A full read fills the blob with the file's record. A short read or an
   exception leaves the blob holding whatever the partial transfer put
   there; `after` is that value, chosen by the environment (it may equal
   the previous blob).
   */
  datatype ReadResult =
    | FullRead(contents: DbBlob)
    | ShortRead(after: DbBlob)
    | Threw(after: DbBlob)

  /**
   The cache state: `valid` is `mValid`, `threshold` is `mUpdateThreshold`
   (no re-check happens before it), `cachedDate` is `mCachedDate` (the file
   date seen at the last good read), `blob` is `mBlob`.
   */
  datatype State = State(valid: bool, threshold: Time, cachedDate: Time, blob: DbBlob)

  /** The answer of one call together with the state it leaves behind. */
  datatype Step = Step(result: bool, state: State)

  /** A freshly constructed store: key unknown, first call re-checks at any time from 0 on. */
  function Initial(blob: DbBlob): State
  {
    State(false, 0, 0, blob)
  }

  /** True when a call at `now` gets past the throttle and the unchanged-date short-circuit. */
  predicate ReachesRead(s: State, now: Time, stat: StatResult)
  {
    s.threshold <= now && stat.StatOk? && !(s.valid && stat.mtime == s.cachedDate)
  }

  /**
   One call of `update()`: the throttle window, then stat failure, then the
   unchanged-date short-circuit, then a full read checked by `isValid`.
   */
  function Update(s: State, now: Time, stat: StatResult, read: ReadResult, cfg: Config): (r: Step)
    // a positive answer always leaves the cache marked valid
    ensures r.result ==> r.state.valid
    // a positive answer either changes nothing or comes from a fresh read of a
    // valid record whose file date is remembered
    ensures r.result ==> r.state == s
                         || (stat.StatOk? && cfg.isValid(r.state.blob)
                             && r.state.cachedDate == stat.mtime
                             && r.state.threshold == now + cfg.checkDelay)
    // a negative answer either changes nothing (throttled) or re-arms the throttle
    ensures !r.result ==> (r.state == s && now < s.threshold)
                          || r.state.threshold == now + cfg.checkDelay
    // the threshold never moves backwards, and it only ever moves to now + checkDelay
    ensures r.state.threshold >= s.threshold
    ensures r.state.threshold != s.threshold ==> r.state.threshold == now + cfg.checkDelay
    // the cached date changes only on a successful read of a record with that date
    ensures r.state.cachedDate != s.cachedDate ==>
              r.result && stat == StatOk(r.state.cachedDate) && cfg.isValid(r.state.blob)
    // the blob changes only when the file is actually read
    ensures r.state.blob != s.blob ==> ReachesRead(s, now, stat)
    // a cache that was not valid becomes valid only with a positive answer
    ensures !s.valid && r.state.valid ==> r.result
  {
    if s.threshold > now then
      Step(s.valid, s)
    else
      match stat
      case StatFailed =>
        Step(false, s.(valid := false, threshold := now + cfg.checkDelay))
      case StatOk(mtime) =>
        if s.valid && mtime == s.cachedDate then
          Step(true, s)
        else
          var armed := s.(threshold := now + cfg.checkDelay);
          match read
          case FullRead(contents) =>
            if cfg.isValid(contents) then
              Step(true, armed.(blob := contents, cachedDate := mtime, valid := true))
            else
              Step(false, armed.(blob := contents, valid := false))
          case ShortRead(after) =>
            Step(false, armed.(blob := after))
          case Threw(after) =>
            Step(false, armed.(blob := after))
  }

  /** `matches(signature)`: re-check the cache, then compare signatures. */
  function Matches(s: State, sig: Signature, now: Time, stat: StatResult, read: ReadResult, cfg: Config): (r: Step)
    // a match is only ever reported by a cache marked valid holding that signature
    ensures r.result ==> r.state.valid && r.state.blob.signature == sig
    // the comparison itself has no effect on the state
    ensures r.state == Update(s, now, stat, read, cfg).state
  {
    var u := Update(s, now, stat, read, cfg);
    Step(u.result && sig == u.state.blob.signature, u.state)
  }
}
