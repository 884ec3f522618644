/**
 Sequences of `matches()` calls on one system-keychain unlock key store:
 each call brings its own clock reading, file outcomes and signature, and
 the state threads from one call to the next.
 */
module CallSequence {
  import opened SystemKeychain

  /** One `matches(sig)` call together with what the world looked like at it. */
  datatype Call = Call(now: Time, stat: StatResult, read: ReadResult, sig: Signature)

  /** The answers of a sequence of calls, in order, and the final state. */
  datatype Trace = Trace(answers: seq<bool>, final: State)

  /** True when `c` saw file date `date` and read a full record passing the integrity check. */
  predicate ValidReadAt(c: Call, date: Time, cfg: Config)
  {
    c.stat == StatOk(date) && c.read.FullRead? && cfg.isValid(c.read.contents)
  }

  /** Runs `calls` in order from state `s`. */
  function Run(s: State, calls: seq<Call>, cfg: Config): (t: Trace)
    ensures |t.answers| == |calls|
    // the throttle threshold never moves backwards over any run
    ensures t.final.threshold >= s.threshold
    // a changed cached date is the file date of some call that read a record
    // passing the integrity check
    ensures t.final.cachedDate != s.cachedDate ==>
              exists i :: 0 <= i < |calls| && ValidReadAt(calls[i], t.final.cachedDate, cfg)
    decreases |calls|
  {
    if |calls| == 0 then
      Trace([], s)
    else
      var c := calls[0];
      var m := Matches(s, c.sig, c.now, c.stat, c.read, cfg);
      var rest := Run(m.state, calls[1..], cfg);
      Trace([m.result] + rest.answers, rest.final)
  }

  /** True when every call happens before time `t`. */
  predicate AllBefore(calls: seq<Call>, t: Time)
  {
    forall i :: 0 <= i < |calls| ==> calls[i].now < t
  }

  /**
   Throttle correctness over a window: when every call happens before the
   threshold, the state never changes and each call answers exactly what
   the cache already holds -- its valid flag and its blob's signature --
   whatever the file does meanwhile.
   */
  lemma {:induction false} ThrottleWindow(s: State, calls: seq<Call>, cfg: Config)
    requires AllBefore(calls, s.threshold)
    ensures Run(s, calls, cfg).final == s
    ensures forall i :: 0 <= i < |calls| ==>
              Run(s, calls, cfg).answers[i] == (s.valid && calls[i].sig == s.blob.signature)
    decreases |calls|
  {
    if |calls| > 0 {
      var c := calls[0];
      assert Matches(s, c.sig, c.now, c.stat, c.read, cfg) == Step(s.valid && c.sig == s.blob.signature, s);
      assert AllBefore(calls[1..], s.threshold) by {
        forall i | 0 <= i < |calls[1..]| ensures calls[1..][i].now < s.threshold {
          assert calls[1..][i] == calls[i + 1];
        }
      }
      ThrottleWindow(s, calls[1..], cfg);
      var t := Run(s, calls, cfg);
      forall i | 0 <= i < |calls|
        ensures t.answers[i] == (s.valid && calls[i].sig == s.blob.signature)
      {
        if i > 0 {
          assert t.answers[i] == Run(s, calls[1..], cfg).answers[i - 1];
          assert calls[1..][i - 1] == calls[i];
        }
      }
    }
  }

  /**
   A probe followed by a window: after a call that reaches the read (and so
   re-arms the throttle), every
   following call made before that call's time plus checkDelay is answered
   from the state the probe left, and the state stays put.
   */
  lemma {:induction false} ProbeThenWindow(s: State, probe: Call, rest: seq<Call>, cfg: Config)
    requires ReachesRead(s, probe.now, probe.stat)
    requires AllBefore(rest, probe.now + cfg.checkDelay)
    ensures var s1 := Update(s, probe.now, probe.stat, probe.read, cfg).state;
            var t := Run(s, [probe] + rest, cfg);
            && t.final == s1
            && forall i :: 0 <= i < |rest| ==>
                 t.answers[i + 1] == (s1.valid && rest[i].sig == s1.blob.signature)
  {
    var s1 := Update(s, probe.now, probe.stat, probe.read, cfg).state;
    assert s1.threshold == probe.now + cfg.checkDelay;
    var calls := [probe] + rest;
    assert calls[0] == probe;
    assert calls[1..] == rest;
    ThrottleWindow(s1, rest, cfg);
  }

  /**
   Every threshold a run leaves behind is either the one it started with or
   the time of one of its calls plus checkDelay.
   */
  lemma {:induction false} ThresholdOrigin(s: State, calls: seq<Call>, cfg: Config)
    ensures var t := Run(s, calls, cfg);
            t.final.threshold == s.threshold
            || exists i :: 0 <= i < |calls| && t.final.threshold == calls[i].now + cfg.checkDelay
    decreases |calls|
  {
    if |calls| > 0 {
      var c := calls[0];
      var m := Matches(s, c.sig, c.now, c.stat, c.read, cfg);
      ThresholdOrigin(m.state, calls[1..], cfg);
      var t := Run(s, calls, cfg);
      if t.final.threshold != s.threshold {
        if t.final.threshold == m.state.threshold {
          assert t.final.threshold == calls[0].now + cfg.checkDelay;
        } else {
          var i :| 0 <= i < |calls[1..]| && t.final.threshold == calls[1..][i].now + cfg.checkDelay;
          assert calls[1..][i] == calls[i + 1];
        }
      }
    }
  }

  /**
   After any run from a fresh store, a throttled call (one that answers from
   the cache without looking at the file) comes before the time of some call
   of the run plus checkDelay.
   */
  lemma ThrottledCallIsRecent(blob: DbBlob, calls: seq<Call>, cfg: Config, later: Time)
    requires 0 <= later
    requires later < Run(Initial(blob), calls, cfg).final.threshold
    ensures exists i :: 0 <= i < |calls| && later < calls[i].now + cfg.checkDelay
  {
    ThresholdOrigin(Initial(blob), calls, cfg);
  }

  /** True when the calls' clock readings never go backwards. */
  predicate Monotone(calls: seq<Call>)
  {
    forall i, j :: 0 <= i < j < |calls| ==> calls[i].now <= calls[j].now
  }

  /**
   Staleness is bounded by checkDelay: when the clock never goes backwards,
   a call throttled after a run from a fresh store comes at or after some
   call of the run and less than checkDelay after it.
   */
  lemma StalenessBounded(blob: DbBlob, calls: seq<Call>, cfg: Config, later: Time)
    requires Monotone(calls)
    requires 0 < |calls| && calls[|calls| - 1].now <= later
    requires 0 <= later
    requires later < Run(Initial(blob), calls, cfg).final.threshold
    ensures exists i :: 0 <= i < |calls| && calls[i].now <= later < calls[i].now + cfg.checkDelay
  {
    ThresholdOrigin(Initial(blob), calls, cfg);
    var i :| 0 <= i < |calls| && Run(Initial(blob), calls, cfg).final.threshold == calls[i].now + cfg.checkDelay;
    assert calls[i].now <= calls[|calls| - 1].now;
  }

  /**
   The unlock scenario: a file holding a valid record with signature A is
   read; A matches and B does not; the file is then deleted, but A still
   matches one tick before checkDelay has elapsed and no longer matches at
   checkDelay.
   */
  lemma Scenario(blob0: DbBlob, record: DbBlob, sigB: Signature, mtime: Time, cfg: Config)
    requires cfg.isValid(record)
    requires sigB != record.signature
    ensures var d: int := cfg.checkDelay;
            var sigA := record.signature;
            var calls := [ Call(0, StatOk(mtime), FullRead(record), sigA),
                           Call(0, StatOk(mtime), FullRead(record), sigB),
                           Call(d - 1, StatFailed, FullRead(record), sigA),
                           Call(d, StatFailed, FullRead(record), sigA) ];
            Run(Initial(blob0), calls, cfg).answers == [true, false, true, false]
  {
    var d: int := cfg.checkDelay;
    var sigA := record.signature;
    var c0 := Call(0, StatOk(mtime), FullRead(record), sigA);
    var c1 := Call(0, StatOk(mtime), FullRead(record), sigB);
    var c2 := Call(d - 1, StatFailed, FullRead(record), sigA);
    var c3 := Call(d, StatFailed, FullRead(record), sigA);
    var calls := [c0, c1, c2, c3];
    var s1 := State(true, d, mtime, record);
    assert Matches(Initial(blob0), sigA, 0, StatOk(mtime), FullRead(record), cfg) == Step(true, s1);
    assert Matches(s1, sigB, 0, StatOk(mtime), FullRead(record), cfg) == Step(false, s1);
    assert Matches(s1, sigA, d - 1, StatFailed, FullRead(record), cfg) == Step(true, s1);
    var s4 := State(false, 2 * d, mtime, record);
    assert Matches(s1, sigA, d, StatFailed, FullRead(record), cfg) == Step(false, s4);
    assert calls[1..] == [c1, c2, c3];
    assert [c1, c2, c3][1..] == [c2, c3];
    assert [c2, c3][1..] == [c3];
    assert Run(s4, [], cfg).answers == [];
    assert Run(s1, [c3], cfg).answers == [false];
    assert Run(s1, [c2, c3], cfg).answers == [true, false];
    assert Run(s1, [c1, c2, c3], cfg).answers == [false, true, false];
  }
}
