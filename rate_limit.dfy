/**
 * The fixed-window rate limiter of middleware.ts as a pure state machine:
 * one record per client key, `Admit` for one call of `checkRateLimit` on
 * one key, `Step` for the call on the whole table, and `Replay`/`ReplayAll`
 * for sequences of calls. Timestamps are integer milliseconds.
 */
module RateLimit {
  import opened Wrappers

  /** RATE_LIMIT_WINDOW: one minute, in milliseconds. */
  const Window: int := 60 * 1000
  /** MAX_REQUESTS per window per key. */
  const MaxRequests: int := 60

  /** The `{count, resetTime}` value stored per key. */
  datatype Record = Record(count: int, resetTime: int)

  /** The `{allowed, remaining}` value `checkRateLimit` returns. */
  datatype Verdict = Verdict(allowed: bool, remaining: int)

  /** What one call leaves in the table for its key, and what it returns. */
  datatype Outcome = Outcome(record: Record, verdict: Verdict)

  /** A client request as the limiter sees it: its key and the clock reading. */
  datatype Call = Call(key: string, now: int)

  /** Every stored record satisfies this. */
  predicate WellFormed(r: Record) {
    1 <= r.count <= MaxRequests
  }

  predicate TableInvariant(table: map<string, Record>) {
    forall k :: k in table ==> WellFormed(table[k])
  }

  /** The window of `rec` is still open at `now` (`now == resetTime` is inside). */
  predicate Live(rec: Option<Record>, now: int) {
    rec.Some? && now <= rec.value.resetTime
  }

  function Lookup(table: map<string, Record>, key: string): (r: Option<Record>)
    ensures r.Some? <==> key in table
    ensures r.Some? ==> r.value == table[key]
  {
    if key in table then Some(table[key]) else None
  }

  /**
   * One call of `checkRateLimit` for the key whose current record is `rec`.
   * A call is admitted exactly when no window is open or the open window
   * still has budget; a rejected call leaves the record as it was; an
   * admitted call reports the budget left after it; and afterwards the
   * stored window is open at `now`.
   */
  function Admit(rec: Option<Record>, now: int): (o: Outcome)
    ensures o.verdict.allowed <==> !Live(rec, now) || rec.value.count < MaxRequests
    ensures !o.verdict.allowed ==> o.record == rec.value && o.verdict.remaining == 0
    ensures o.verdict.allowed ==> o.verdict.remaining == MaxRequests - o.record.count
    ensures now <= o.record.resetTime
  {
    if rec.None? || now > rec.value.resetTime then
      Outcome(Record(1, now + Window), Verdict(true, MaxRequests - 1))
    else if rec.value.count >= MaxRequests then
      Outcome(rec.value, Verdict(false, 0))
    else
      var next := rec.value.(count := rec.value.count + 1);
      Outcome(next, Verdict(true, MaxRequests - next.count))
  }

  /** No record, or an expired one: a new window of one request opens, with 59 left. */
  lemma NewWindow(rec: Option<Record>, now: int)
    requires !Live(rec, now)
    ensures Admit(rec, now) == Outcome(Record(1, now + Window), Verdict(true, MaxRequests - 1))
  {
  }

  /** Inside a window with budget left: the count goes up by exactly one, the window end stays. */
  lemma CountsWithinWindow(rec: Option<Record>, now: int)
    requires Live(rec, now) && rec.value.count < MaxRequests
    ensures Admit(rec, now).record == Record(rec.value.count + 1, rec.value.resetTime)
    ensures Admit(rec, now).verdict == Verdict(true, MaxRequests - rec.value.count - 1)
  {
  }

  /** Every admitted or rejected call keeps the record invariant and reports 0..59 remaining. */
  lemma AdmitKeepsInvariant(rec: Option<Record>, now: int)
    requires rec.Some? ==> WellFormed(rec.value)
    ensures WellFormed(Admit(rec, now).record)
    ensures 0 <= Admit(rec, now).verdict.remaining < MaxRequests
  {
  }

  /** `checkRateLimit` on the whole table: only `key`'s entry is created or changed, none is deleted. */
  function Step(table: map<string, Record>, key: string, now: int): (r: (map<string, Record>, Verdict))
    ensures r.0.Keys == table.Keys + {key}
    ensures forall k :: k in table && k != key ==> r.0[k] == table[k]
    ensures Lookup(r.0, key) == Some(Admit(Lookup(table, key), now).record)
    ensures r.1 == Admit(Lookup(table, key), now).verdict
  {
    var o := Admit(Lookup(table, key), now);
    (table[key := o.record], o.verdict)
  }

  lemma StepKeepsInvariant(table: map<string, Record>, key: string, now: int)
    requires TableInvariant(table)
    ensures TableInvariant(Step(table, key, now).0)
    ensures 0 <= Step(table, key, now).1.remaining < MaxRequests
  {
    AdmitKeepsInvariant(Lookup(table, key), now);
  }

  /** Successive calls for one key at the given clock readings: the final record and every verdict. */
  function Replay(rec: Option<Record>, nows: seq<int>): (r: (Option<Record>, seq<Verdict>))
    ensures |r.1| == |nows|
    decreases |nows|
  {
    if nows == [] then (rec, [])
    else
      var o := Admit(rec, nows[0]);
      var rest := Replay(Some(o.record), nows[1..]);
      (rest.0, [o.verdict] + rest.1)
  }

  /** The verdicts for a key whose open window already holds `count` requests. */
  lemma {:induction false} ReplayInsideWindow(count: int, resetTime: int, nows: seq<int>)
    requires 1 <= count <= MaxRequests
    requires forall i :: 0 <= i < |nows| ==> nows[i] <= resetTime
    ensures forall i :: 0 <= i < |nows| ==>
      Replay(Some(Record(count, resetTime)), nows).1[i] ==
        if count + i < MaxRequests then Verdict(true, MaxRequests - count - i - 1)
        else Verdict(false, 0)
    decreases |nows|
  {
    if nows != [] {
      var rec := Record(count, resetTime);
      var o := Admit(Some(rec), nows[0]);
      var next := if count < MaxRequests then count + 1 else count;
      assert o.record == Record(next, resetTime);
      ReplayInsideWindow(next, resetTime, nows[1..]);
      var vs := Replay(Some(rec), nows).1;
      forall i | 0 <= i < |nows|
        ensures vs[i] == if count + i < MaxRequests then Verdict(true, MaxRequests - count - i - 1)
                         else Verdict(false, 0)
      {
        if i > 0 {
          assert vs[i] == Replay(Some(o.record), nows[1..]).1[i - 1];
          assert nows[1..][i - 1] == nows[i];
        }
      }
    }
  }

  /**
   * A key with no open window, called repeatedly within one window from its
   * first call: the first 60 calls are admitted with 59, 58, ..., 0 left, and
   * every later call in that window is rejected.
   */
  lemma {:induction false} BudgetPerWindow(rec: Option<Record>, nows: seq<int>)
    requires nows != [] && !Live(rec, nows[0])
    requires forall i :: 0 < i < |nows| ==> nows[i] <= nows[0] + Window
    ensures forall i :: 0 <= i < |nows| ==>
      Replay(rec, nows).1[i] ==
        if i < MaxRequests then Verdict(true, MaxRequests - 1 - i) else Verdict(false, 0)
  {
    var vs := Replay(rec, nows).1;
    var first := Admit(rec, nows[0]);
    assert first.record == Record(1, nows[0] + Window);
    ReplayInsideWindow(1, nows[0] + Window, nows[1..]);
    forall i | 0 <= i < |nows|
      ensures vs[i] == if i < MaxRequests then Verdict(true, MaxRequests - 1 - i) else Verdict(false, 0)
    {
      if i > 0 {
        assert vs[i] == Replay(Some(first.record), nows[1..]).1[i - 1];
      }
    }
  }

  /** Successive calls for any keys: the final table and every verdict. No entry is ever deleted. */
  function ReplayAll(table: map<string, Record>, calls: seq<Call>): (r: (map<string, Record>, seq<Verdict>))
    ensures |r.1| == |calls|
    ensures r.0.Keys == table.Keys + set i | 0 <= i < |calls| :: calls[i].key
    decreases |calls|
  {
    if calls == [] then (table, [])
    else
      var s := Step(table, calls[0].key, calls[0].now);
      var rest := ReplayAll(s.0, calls[1..]);
      (rest.0, [s.1] + rest.1)
  }

  /** Over any sequence of calls every stored record keeps 1 <= count <= 60, and every verdict reports 0..59 remaining. */
  lemma {:induction false} ReplayAllKeepsInvariant(table: map<string, Record>, calls: seq<Call>)
    requires TableInvariant(table)
    ensures TableInvariant(ReplayAll(table, calls).0)
    ensures forall i :: 0 <= i < |calls| ==> 0 <= ReplayAll(table, calls).1[i].remaining < MaxRequests
    decreases |calls|
  {
    if calls != [] {
      var s := Step(table, calls[0].key, calls[0].now);
      StepKeepsInvariant(table, calls[0].key, calls[0].now);
      ReplayAllKeepsInvariant(s.0, calls[1..]);
      var vs := ReplayAll(table, calls).1;
      forall i | 0 <= i < |calls| ensures 0 <= vs[i].remaining < MaxRequests {
        if i > 0 {
          assert vs[i] == ReplayAll(s.0, calls[1..]).1[i - 1];
        }
      }
    }
  }

  /** The clock readings of the calls made with `key`, in order. */
  function TimesFor(calls: seq<Call>, key: string): seq<int> {
    if calls == [] then []
    else (if calls[0].key == key then [calls[0].now] else []) + TimesFor(calls[1..], key)
  }

  /** The verdicts given to the calls made with `key`, in order. */
  function VerdictsFor(calls: seq<Call>, verdicts: seq<Verdict>, key: string): seq<Verdict>
    requires |verdicts| == |calls|
  {
    if calls == [] then []
    else (if calls[0].key == key then [verdicts[0]] else []) + VerdictsFor(calls[1..], verdicts[1..], key)
  }

  /**
   * Identity isolation: whatever other keys do in between, the verdicts a key
   * receives and the record it ends with are those of its own calls alone.
   */
  lemma {:induction false} KeysAreIsolated(table: map<string, Record>, calls: seq<Call>, key: string)
    ensures var all := ReplayAll(table, calls);
            var own := Replay(Lookup(table, key), TimesFor(calls, key));
            VerdictsFor(calls, all.1, key) == own.1 && Lookup(all.0, key) == own.0
    decreases |calls|
  {
    if calls != [] {
      var c := calls[0];
      var s := Step(table, c.key, c.now);
      var rest := ReplayAll(s.0, calls[1..]);
      var all := ReplayAll(table, calls);
      assert all.1 == [s.1] + rest.1 && all.0 == rest.0;
      assert all.1[1..] == rest.1;
      KeysAreIsolated(s.0, calls[1..], key);
      if c.key != key {
        assert Lookup(s.0, key) == Lookup(table, key);
        assert TimesFor(calls, key) == TimesFor(calls[1..], key);
      } else {
        var o := Admit(Lookup(table, key), c.now);
        assert Lookup(s.0, key) == Some(o.record);
        assert TimesFor(calls, key) == [c.now] + TimesFor(calls[1..], key);
        var nows := TimesFor(calls, key);
        assert nows[0] == c.now && nows[1..] == TimesFor(calls[1..], key);
      }
    }
  }

  /**
   * Each key gets its own budget: a key with no open window that is called
   * within one window, interleaved with any calls for other keys, sees the
   * same 60 admissions and then rejections as if it were alone.
   */
  lemma OwnBudgetPerKey(table: map<string, Record>, calls: seq<Call>, key: string)
    requires var nows := TimesFor(calls, key);
             nows != [] && !Live(Lookup(table, key), nows[0])
             && forall i :: 0 < i < |nows| ==> nows[i] <= nows[0] + Window
    ensures var vs := VerdictsFor(calls, ReplayAll(table, calls).1, key);
            |vs| == |TimesFor(calls, key)|
            && forall i :: 0 <= i < |vs| ==>
                 vs[i] == if i < MaxRequests then Verdict(true, MaxRequests - 1 - i) else Verdict(false, 0)
  {
    KeysAreIsolated(table, calls, key);
    BudgetPerWindow(Lookup(table, key), TimesFor(calls, key));
  }
}
