/**
 Properties of one call of the system-keychain unlock key store, one lemma
 per branch of `update()` plus the properties of `matches()` built on it.
 */
module SystemKeychainLemmas {
  import opened SystemKeychain

  /**
   Inside the throttle window the cached answer is returned and nothing
   changes; neither the stat outcome nor the read outcome has any influence.
   */
  lemma Throttled(s: State, now: Time, stat: StatResult, read: ReadResult,
                  stat': StatResult, read': ReadResult, cfg: Config)
    requires now < s.threshold
    ensures Update(s, now, stat, read, cfg) == Step(s.valid, s)
    ensures Update(s, now, stat, read, cfg) == Update(s, now, stat', read', cfg)
  {
  }

  /**
   A failing stat answers false, marks the cache invalid and re-arms the
   throttle; blob and cached date stay as they were, and the read outcome
   has no influence.
   */
  lemma StatFailure(s: State, now: Time, read: ReadResult, read': ReadResult, cfg: Config)
    requires s.threshold <= now
    ensures var r := Update(s, now, StatFailed, read, cfg);
            && !r.result
            && !r.state.valid
            && r.state.threshold == now + cfg.checkDelay
            && r.state.blob == s.blob
            && r.state.cachedDate == s.cachedDate
    ensures Update(s, now, StatFailed, read, cfg) == Update(s, now, StatFailed, read', cfg)
  {
  }

  /**
   A valid cache whose file date is unchanged answers true without reading:
   every field, the threshold included, is left alone, and the read outcome
   has no influence -- even a file whose record has meanwhile become invalid.
   */
  lemma UnchangedDate(s: State, now: Time, read: ReadResult, read': ReadResult, cfg: Config)
    requires s.threshold <= now
    requires s.valid
    ensures Update(s, now, StatOk(s.cachedDate), read, cfg) == Step(true, s)
    ensures Update(s, now, StatOk(s.cachedDate), read, cfg) == Update(s, now, StatOk(s.cachedDate), read', cfg)
  {
  }

  /**
   A call that reaches the read sets the threshold to now + checkDelay,
   whatever the read yields, so every later call at a time before that
   threshold -- in particular at any time not after `now` -- is throttled
   and returns the flag this call left.
   */
  lemma ReadArmsThrottle(s: State, now: Time, stat: StatResult, read: ReadResult, cfg: Config,
                         later: Time, stat': StatResult, read': ReadResult)
    requires ReachesRead(s, now, stat)
    requires later < now + cfg.checkDelay
    ensures Update(s, now, stat, read, cfg).state.threshold == now + cfg.checkDelay
    ensures var s1 := Update(s, now, stat, read, cfg).state;
            Update(s1, later, stat', read', cfg) == Step(s1.valid, s1)
  {
  }

  /**
   A full read of a record that passes the integrity check installs it:
   the blob becomes the file's record, the cached date becomes the file
   date, the cache is marked valid and the answer is true.
   */
  lemma FullReadValid(s: State, now: Time, mtime: Time, contents: DbBlob, cfg: Config)
    requires ReachesRead(s, now, StatOk(mtime))
    requires cfg.isValid(contents)
    ensures Update(s, now, StatOk(mtime), FullRead(contents), cfg)
            == Step(true, State(true, now + cfg.checkDelay, mtime, contents))
  {
  }

  /**
   A full read of a record that fails the integrity check answers false
   and marks the cache invalid; the cached date is kept, the blob holds the
   rejected record.
   */
  lemma FullReadInvalid(s: State, now: Time, mtime: Time, contents: DbBlob, cfg: Config)
    requires ReachesRead(s, now, StatOk(mtime))
    requires !cfg.isValid(contents)
    ensures Update(s, now, StatOk(mtime), FullRead(contents), cfg)
            == Step(false, State(false, now + cfg.checkDelay, s.cachedDate, contents))
  {
  }

  /**
   A short read or an exception answers false but leaves the valid flag as
   it was (it is not reset); the cached date is kept, and the blob holds
   whatever the failed transfer left in it.
   */
  lemma ReadFailureKeepsFlag(s: State, now: Time, mtime: Time, read: ReadResult, cfg: Config)
    requires ReachesRead(s, now, StatOk(mtime))
    requires read.ShortRead? || read.Threw?
    ensures Update(s, now, StatOk(mtime), read, cfg)
            == Step(false, State(s.valid, now + cfg.checkDelay, s.cachedDate, read.after))
  {
  }

  /**
   As written, a short read does not reset the valid flag. A cache that was
   valid and then meets a changed file that reads short answers false once,
   but every call in the following throttle window answers true again, and
   matches the signature of the partially overwritten blob.
   */
  lemma StaleTrueAfterShortRead(s: State, now: Time, mtime: Time, after: DbBlob, cfg: Config,
                                later: Time, stat': StatResult, read': ReadResult)
    requires s.threshold <= now && s.valid && mtime != s.cachedDate
    requires later < now + cfg.checkDelay
    ensures var first := Update(s, now, StatOk(mtime), ShortRead(after), cfg);
            && !first.result
            && first.state.valid
            && Update(first.state, later, stat', read', cfg).result
            && Matches(first.state, after.signature, later, stat', read', cfg).result
  {
    ReadFailureKeepsFlag(s, now, mtime, ShortRead(after), cfg);
    ReadArmsThrottle(s, now, StatOk(mtime), ShortRead(after), cfg, later, stat', read');
  }

  /**
   The stale flag left by a short read outlives the window: as long as stat
   keeps reporting the date cached before the short read, every later call,
   at any time, takes the unchanged-date short-circuit (or the throttle),
   answers true without reading the file, and matches the signature of the
   partially overwritten blob.
   */
  lemma StaleTrueOutlivesWindow(s: State, now: Time, mtime: Time, after: DbBlob, cfg: Config,
                                later: Time, read': ReadResult)
    requires s.threshold <= now && s.valid && mtime != s.cachedDate
    ensures var s1 := Update(s, now, StatOk(mtime), ShortRead(after), cfg).state;
            && Update(s1, later, StatOk(s.cachedDate), read', cfg) == Step(true, s1)
            && Matches(s1, after.signature, later, StatOk(s.cachedDate), read', cfg).result
  {
    var s1 := Update(s, now, StatOk(mtime), ShortRead(after), cfg).state;
    ReadFailureKeepsFlag(s, now, mtime, ShortRead(after), cfg);
    assert s1 == State(true, now + cfg.checkDelay, s.cachedDate, after);
  }

  /**
   The unchanged-date short-circuit does not re-arm the throttle: once the
   window has expired, a valid cache keeps running stat on every call, so a
   stat failure at the very same instant is seen at once and clears the flag.
   */
  lemma ShortCircuitLeavesThrottleOpen(s: State, now: Time, read: ReadResult, read': ReadResult, cfg: Config)
    requires s.threshold <= now && s.valid
    ensures var s1 := Update(s, now, StatOk(s.cachedDate), read, cfg).state;
            && s1.threshold == s.threshold
            && Update(s1, now, StatFailed, read', cfg)
               == Step(false, s.(valid := false, threshold := now + cfg.checkDelay))
  {
    UnchangedDate(s, now, read, read, cfg);
    StatFailure(s, now, read', read', cfg);
  }

  /**
   `matches(sig)` is true exactly when `update()` answers true and `sig`
   equals the signature of the blob held after the update.
   */
  lemma MatchesExactly(s: State, sig: Signature, now: Time, stat: StatResult, read: ReadResult, cfg: Config)
    ensures var u := Update(s, now, stat, read, cfg);
            Matches(s, sig, now, stat, read, cfg).result <==> u.result && sig == u.state.blob.signature
  {
  }

  /** Signatures of equal length that differ in one byte never match. */
  lemma OneByteDifferenceFails(s: State, sig: Signature, i: nat, now: Time, stat: StatResult, read: ReadResult, cfg: Config)
    requires var held := Update(s, now, stat, read, cfg).state.blob.signature;
             |sig.bytes| == |held.bytes| && i < |sig.bytes| && sig.bytes[i] != held.bytes[i]
    ensures !Matches(s, sig, now, stat, read, cfg).result
  {
  }

  /**
   Fail-closed: a call that reaches the file and finds no usable record --
   stat fails, the read is short or throws, or the record fails the
   integrity check -- matches no signature at all, the right one included.
   */
  lemma FailClosed(s: State, sig: Signature, now: Time, stat: StatResult, read: ReadResult, cfg: Config)
    requires s.threshold <= now
    requires stat.StatFailed?
             || (ReachesRead(s, now, stat) && !(read.FullRead? && cfg.isValid(read.contents)))
    ensures !Update(s, now, stat, read, cfg).result
    ensures !Matches(s, sig, now, stat, read, cfg).result
  {
  }

  /**
   Recovery: once the throttle has expired, a cache that is not valid (or
   whose file date changed) picks up a valid record from the file, and the
   record's own signature then matches.
   */
  lemma Recovery(s: State, now: Time, mtime: Time, contents: DbBlob, cfg: Config)
    requires ReachesRead(s, now, StatOk(mtime))
    requires cfg.isValid(contents)
    ensures var m := Matches(s, contents.signature, now, StatOk(mtime), FullRead(contents), cfg);
            m.result && m.state.valid && m.state.blob == contents && m.state.cachedDate == mtime
  {
  }

  /**
   Two calls at the same instant with the same file: the second one is
   always answered from the cache and changes nothing. Its answer agrees
   with the first one's unless the first read was short or threw while the
   cache was valid.
   */
  lemma RepeatAtSameInstant(s: State, now: Time, stat: StatResult, read: ReadResult, cfg: Config)
    ensures var first := Update(s, now, stat, read, cfg);
            var second := Update(first.state, now, stat, read, cfg);
            && second.state == first.state
            && second.result == first.state.valid
            && (second.result != first.result ==>
                  ReachesRead(s, now, stat) && s.valid && (read.ShortRead? || read.Threw?))
  {
  }

  /**
   The first call on a fresh store at a non-negative time always consults
   the file, and answers true exactly when the file yields a full record that
   passes the integrity check.
   */
  lemma FirstCall(blob: DbBlob, now: Time, stat: StatResult, read: ReadResult, cfg: Config)
    requires 0 <= now
    ensures Update(Initial(blob), now, stat, read, cfg).result
            <==> stat.StatOk? && read.FullRead? && cfg.isValid(read.contents)
  {
  }
}
