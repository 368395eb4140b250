/** The in-memory fixed-window rate limiter. Times are nanoseconds of a clock that never runs backwards. */
module RateLimit {
  import opened Options

  const CLEANUP_SIZE: nat := 10_000

  datatype Entry = Entry(count: nat, started: int)

  type Windows = map<string, Entry>

  datatype Call = Call(key: string, max: nat, window: nat, now: int)

  // ----- one key -----

  /** What a call does to the entry of its own key. */
  function KeyStep(entry: Option<Entry>, max: nat, window: nat, now: int): (Entry, bool) {
    var found := entry.GetOr(Entry(0, now));
    var current := if now - found.started > window then Entry(0, now) else found;
    if current.count >= max then (current, false) else (current.(count := current.count + 1), true)
  }

  function Lookup(windows: Windows, key: string): Option<Entry> {
    if key in windows then Some(windows[key]) else None
  }

  /** Once the map is large, entries older than the window of the current call are dropped. */
  function Cleaned(windows: Windows, call: Call): Windows {
    if |windows| > CLEANUP_SIZE then
      map k | k in windows && call.now - windows[k].started <= call.window :: windows[k]
    else windows
  }

  function Step(windows: Windows, call: Call): (Windows, bool) {
    var kept := Cleaned(windows, call);
    var (entry, allowed) := KeyStep(Lookup(kept, call.key), call.max, call.window, call.now);
    (kept[call.key := entry], allowed)
  }

  class RateLimiter {
    var windows: Windows

    constructor ()
      ensures windows == map[]
    {
      windows := map[];
    }

    method Check(key: string, max: nat, window: nat, now: int) returns (allowed: bool)
      modifies this
      ensures windows == Step(old(windows), Call(key, max, window, now)).0
      ensures allowed == Step(old(windows), Call(key, max, window, now)).1
    {
      if |windows| > CLEANUP_SIZE {
        windows := map k | k in windows && now - windows[k].started <= window :: windows[k];
      }
      ghost var kept := windows;
      assert kept == Cleaned(old(windows), Call(key, max, window, now));
      if key !in windows {
        windows := windows[key := Entry(0, now)];
      }
      if now - windows[key].started > window {
        windows := windows[key := Entry(0, now)];
      }
      assert windows == kept[key := windows[key]];
      if windows[key].count >= max {
        return false;
      }
      windows := windows[key := Entry(windows[key].count + 1, windows[key].started)];
      allowed := true;
      assert windows == kept[key := windows[key]];
    }
  }

  // ----- a single key over time -----

  /** The entry after the calls at `times`, and the times at which calls were admitted. */
  function KeyRun(times: seq<int>, max: nat, window: nat): (Option<Entry>, seq<int>) {
    if times == [] then (None, [])
    else
      var now := times[|times| - 1];
      var (entry, admitted) := KeyRun(times[..|times| - 1], max, window);
      var (next, allowed) := KeyStep(entry, max, window, now);
      (Some(next), if allowed then admitted + [now] else admitted)
  }

  ghost predicate NonDecreasing(times: seq<int>) {
    forall i, j :: 0 <= i < j < |times| ==> times[i] <= times[j]
  }

  /** How many of `times` lie in [from, to). */
  function CountIn(times: seq<int>, from: int, to: int): nat {
    if times == [] then 0
    else CountIn(times[..|times| - 1], from, to) + if from <= times[|times| - 1] < to then 1 else 0
  }

  lemma {:induction false} CountSplits(times: seq<int>, from: int, mid: int, to: int)
    requires from <= mid <= to
    ensures CountIn(times, from, to) == CountIn(times, from, mid) + CountIn(times, mid, to)
  {
    if times != [] {
      CountSplits(times[..|times| - 1], from, mid, to);
    }
  }

  lemma {:induction false} CountMonotone(times: seq<int>, from: int, to: int, from': int, to': int)
    requires from' <= from && to <= to'
    ensures CountIn(times, from, to) <= CountIn(times, from', to')
  {
    if times != [] {
      CountMonotone(times[..|times| - 1], from, to, from', to');
    }
  }

  /** Nothing lies in an interval that starts after the last time. */
  lemma {:induction false} NothingLater(times: seq<int>, last: int, from: int, to: int)
    requires forall t :: t in times ==> t <= last
    requires from > last
    ensures CountIn(times, from, to) == 0
  {
    if times != [] {
      assert times[|times| - 1] in times;
      var earlier := times[..|times| - 1];
      forall t | t in earlier ensures t <= last {
        assert t in times;
      }
      NothingLater(earlier, last, from, to);
    }
  }

  lemma CountAppend(times: seq<int>, t: int, from: int, to: int)
    ensures CountIn(times + [t], from, to) == CountIn(times, from, to) + if from <= t < to then 1 else 0
  {
    assert (times + [t])[..|times|] == times;
  }

  function OneLess(max: nat): nat {
    if max == 0 then 0 else max - 1
  }

  /**
   After calls up to `last`: the entry counts what was admitted in its window, the window's first
   call was admitted, and an interval of one window's length that reaches back before the window
   holds fewer than `max` earlier admissions.
   */
  ghost predicate WindowsHold(entry: Entry, admitted: seq<int>, max: nat, window: nat, last: int) {
    && entry.count <= max
    && entry.started <= last <= entry.started + window
    && (forall t :: t in admitted ==> t <= last)
    && CountIn(admitted, entry.started, last + 1) == entry.count
    && (max > 0 ==> CountIn(admitted, entry.started, entry.started + 1) >= 1)
    && (forall a: int :: EarlierBounded(entry, admitted, max, window, a))
    && (forall a: int :: IntervalBounded(admitted, max, window, a))
  }

  ghost predicate EarlierBounded(entry: Entry, admitted: seq<int>, max: nat, window: nat, a: int) {
    a <= entry.started <= a + window ==> CountIn(admitted, a, entry.started) <= OneLess(max)
  }

  ghost predicate IntervalBounded(admitted: seq<int>, max: nat, window: nat, a: int) {
    CountIn(admitted, a, a + window + 1) <= max + OneLess(max)
  }

  /** Any interval is bounded once the windows' own counts are. */
  lemma IntervalFromWindows(entry: Entry, admitted: seq<int>, max: nat, window: nat, last: int, a: int)
    requires entry.count <= max && entry.started <= last
    requires forall t :: t in admitted ==> t <= last
    requires CountIn(admitted, entry.started, last + 1) == entry.count
    requires EarlierBounded(entry, admitted, max, window, a)
    requires a + window >= entry.started
    ensures IntervalBounded(admitted, max, window, a)
  {
    var to := a + window + 1;
    var s := entry.started;
    if a <= s {
      CountSplits(admitted, a, s, to);
    } else {
      CountMonotone(admitted, a, to, s, to);
    }
    if to <= last + 1 {
      CountMonotone(admitted, s, to, s, last + 1);
    } else {
      CountSplits(admitted, s, last + 1, to);
      NothingLater(admitted, last, last + 1, to);
    }
  }

  /** A call in the current window. */
  lemma SameWindowHolds(entry: Entry, admitted: seq<int>, max: nat, window: nat, last: int, now: int)
    requires WindowsHold(entry, admitted, max, window, last) && last <= now
    requires now - entry.started <= window
    ensures
      var (next, allowed) := KeyStep(Some(entry), max, window, now);
      WindowsHold(next, if allowed then admitted + [now] else admitted, max, window, now)
  {
    var (next, allowed) := KeyStep(Some(entry), max, window, now);
    var after := if allowed then admitted + [now] else admitted;
    var s := entry.started;
    CountSplits(admitted, s, last + 1, now + 1);
    NothingLater(admitted, last, last + 1, now + 1);
    CountAppend(admitted, now, s, now + 1);
    CountAppend(admitted, now, s, s + 1);
    forall a: int ensures EarlierBounded(next, after, max, window, a) && IntervalBounded(after, max, window, a) {
      assert EarlierBounded(entry, admitted, max, window, a) && IntervalBounded(admitted, max, window, a);
      CountAppend(admitted, now, a, s);
      CountAppend(admitted, now, a, a + window + 1);
      if a + window >= s {
        IntervalFromWindows(next, after, max, window, now, a);
      }
    }
  }

  /** A call that opens a new window, after the previous one has passed. */
  lemma NewWindowHolds(entry: Entry, admitted: seq<int>, max: nat, window: nat, last: int, now: int)
    requires WindowsHold(entry, admitted, max, window, last) && last <= now
    requires now - entry.started > window
    ensures
      var (next, allowed) := KeyStep(Some(entry), max, window, now);
      WindowsHold(next, if allowed then admitted + [now] else admitted, max, window, now)
  {
    var (next, allowed) := KeyStep(Some(entry), max, window, now);
    var after := if allowed then admitted + [now] else admitted;
    var s := entry.started;
    NothingAtNow(entry, admitted, max, window, last, now);
    CountAppend(admitted, now, now, now + 1);
    forall a: int ensures EarlierBounded(next, after, max, window, a) && IntervalBounded(after, max, window, a) {
      assert IntervalBounded(admitted, max, window, a);
      CountAppend(admitted, now, a, now);
      CountAppend(admitted, now, a, a + window + 1);
      if a <= now <= a + window {
        CountMonotone(admitted, a, now, s + 1, now);
        CountSplits(admitted, s, s + 1, now);
      }
      if a + window >= now {
        IntervalFromWindows(next, after, max, window, now, a);
      }
    }
  }

  /** Before a new window opens, everything admitted since the old start lies strictly before it. */
  lemma NothingAtNow(entry: Entry, admitted: seq<int>, max: nat, window: nat, last: int, now: int)
    requires WindowsHold(entry, admitted, max, window, last) && last <= now
    requires now - entry.started > window
    ensures CountIn(admitted, now, now + 1) == 0
    ensures CountIn(admitted, entry.started, now) == entry.count
  {
    NothingLater(admitted, last, now, now + 1);
    CountSplits(admitted, entry.started, last + 1, now);
    NothingLater(admitted, last, last + 1, now);
  }

  lemma FirstCallHolds(max: nat, window: nat, now: int)
    ensures
      var (next, allowed) := KeyStep(None, max, window, now);
      WindowsHold(next, if allowed then [now] else [], max, window, now)
  {
    var (next, allowed) := KeyStep(None, max, window, now);
    CountAppend([], now, now, now + 1);
    assert [] + [now] == [now];
    var admitted := if allowed then [now] else [];
    forall a: int ensures EarlierBounded(next, admitted, max, window, a) && IntervalBounded(admitted, max, window, a) {
      CountAppend([], now, a, now);
      CountAppend([], now, a, a + window + 1);
    }
  }

  /** After every run of calls on one key all its windows and intervals are bounded. */
  lemma {:induction false} KeyRunHolds(times: seq<int>, max: nat, window: nat)
    requires NonDecreasing(times) && times != []
    ensures
      var (entry, admitted) := KeyRun(times, max, window);
      entry.Some? && WindowsHold(entry.value, admitted, max, window, times[|times| - 1])
  {
    var n := |times| - 1;
    var now := times[n];
    if n == 0 {
      FirstCallHolds(max, window, now);
      assert times[..n] == [];
      assert [] + [now] == [now];
    } else {
      var earlier := times[..n];
      KeyRunHolds(earlier, max, window);
      var (entry, admitted) := KeyRun(earlier, max, window);
      hide WindowsHold;
      if now - entry.value.started <= window {
        SameWindowHolds(entry.value, admitted, max, window, earlier[n - 1], now);
      } else {
        NewWindowHolds(entry.value, admitted, max, window, earlier[n - 1], now);
      }
    }
  }
}

/** The shared map: many keys, many limits, and the cleanup that any call can trigger. */
module RateLimitRuns {
  import opened Options
  import opened RateLimit

  function Run(calls: seq<Call>): Windows {
    if calls == [] then map[] else Step(Run(calls[..|calls| - 1]), calls[|calls| - 1]).0
  }

  /** The times of the calls on `key`. */
  function TimesOf(calls: seq<Call>, key: string): seq<int> {
    if calls == [] then []
    else
      var c := calls[|calls| - 1];
      TimesOf(calls[..|calls| - 1], key) + if c.key == key then [c.now] else []
  }

  /** The times at which the limiter admitted a call on `key`. */
  function AdmittedTimes(calls: seq<Call>, key: string): seq<int> {
    if calls == [] then []
    else
      var n := |calls| - 1;
      var allowed := Step(Run(calls[..n]), calls[n]).1;
      AdmittedTimes(calls[..n], key) + if calls[n].key == key && allowed then [calls[n].now] else []
  }

  ghost predicate ClockAdvances(calls: seq<Call>) {
    forall i, j :: 0 <= i < j < |calls| ==> calls[i].now <= calls[j].now
  }

  /** Calls on `key` always use the same limit. */
  ghost predicate Constant(calls: seq<Call>, key: string, max: nat, window: nat) {
    forall c :: c in calls && c.key == key ==> c.max == max && c.window == window
  }

  /** How one more call extends the run and its projections to a key. */
  lemma CallsUnfold(calls: seq<Call>, c: Call, key: string)
    ensures
      var after := calls + [c];
      && Run(after) == Step(Run(calls), c).0
      && TimesOf(after, key) == (if c.key == key then TimesOf(calls, key) + [c.now] else TimesOf(calls, key))
      && AdmittedTimes(after, key) ==
           if c.key == key && Step(Run(calls), c).1 then AdmittedTimes(calls, key) + [c.now]
           else AdmittedTimes(calls, key)
  {
    hide Step;
    assert (calls + [c])[..|calls|] == calls;
  }

  lemma KeyRunUnfolds(times: seq<int>, now: int, max: nat, window: nat)
    ensures
      var before, after := KeyRun(times, max, window), KeyRun(times + [now], max, window);
      var step := KeyStep(before.0, max, window, now);
      after.0 == Some(step.0) && after.1 == (if step.1 then before.1 + [now] else before.1)
  {
    hide KeyStep;
    assert (times + [now])[..|times|] == times;
  }

  // ----- refusals -----

  /** The entry counts no more calls than were admitted since it started. */
  ghost predicate Earned(e: Option<Entry>, admitted: seq<int>, last: int) {
    && (forall t :: t in admitted ==> t <= last)
    && (e.Some? ==>
          e.value.started <= last && e.value.count <= CountIn(admitted, e.value.started, last + 1))
  }

  lemma EarnedLater(e: Option<Entry>, admitted: seq<int>, last: int, now: int)
    requires Earned(e, admitted, last) && last <= now
    ensures Earned(e, admitted, now)
  {
    if e.Some? {
      CountMonotone(admitted, e.value.started, last + 1, e.value.started, now + 1);
    }
  }

  lemma EarnedKeyStep(e: Option<Entry>, admitted: seq<int>, max: nat, window: nat, now: int)
    requires Earned(e, admitted, now)
    ensures
      var (next, allowed) := KeyStep(e, max, window, now);
      Earned(Some(next), if allowed then admitted + [now] else admitted, now)
  {
    var (next, allowed) := KeyStep(e, max, window, now);
    CountAppend(admitted, now, next.started, now + 1);
  }

  /** What a call leaves under a key: its own call steps what cleanup left, any other call keeps that. */
  lemma StepSeenFrom(windows: Windows, c: Call, key: string)
    ensures
      var kept := Lookup(Cleaned(windows, c), key);
      var (next, allowed) := Step(windows, c);
      && (kept.None? || kept == Lookup(windows, key))
      && (if c.key == key then (Lookup(next, key), allowed)
        == (Some(KeyStep(kept, c.max, c.window, c.now).0), KeyStep(kept, c.max, c.window, c.now).1)
          else Lookup(next, key) == kept)
  {
  }

  /** Whatever was cleaned up, every entry is earned. */
  lemma {:induction false} CountsAreEarned(calls: seq<Call>, key: string, now: int)
    requires ClockAdvances(calls) && (calls != [] ==> calls[|calls| - 1].now <= now)
    ensures Earned(Lookup(Run(calls), key), AdmittedTimes(calls, key), now)
  {
    if calls != [] {
      hide Earned, KeyStep, Step, Lookup, Run, AdmittedTimes, TimesOf;
      var n := |calls| - 1;
      var earlier, c := calls[..n], calls[n];
      assert calls == earlier + [c];
      CountsAreEarned(earlier, key, c.now);
      CallsUnfold(earlier, c, key);
      StepSeenFrom(Run(earlier), c, key);
      var kept, admitted := Lookup(Cleaned(Run(earlier), c), key), AdmittedTimes(earlier, key);
      EarnedWhenNone(Lookup(Run(earlier), key), admitted, c.now);
      EarnedKeyStep(kept, admitted, c.max, c.window, c.now);
      EarnedLater(Lookup(Run(calls), key), AdmittedTimes(calls, key), c.now, now);
    }
  }

  lemma EarnedWhenNone(e: Option<Entry>, admitted: seq<int>, last: int)
    requires Earned(e, admitted, last)
    ensures Earned(None, admitted, last)
  {
  }

  /** In every run, with any limits and any cleanup, a refused call had its limit of admissions within its window. */
  lemma RefusalIsEarned(calls: seq<Call>, c: Call)
    requires ClockAdvances(calls + [c])
    ensures !Step(Run(calls), c).1 ==>
              CountIn(AdmittedTimes(calls, c.key), c.now - c.window, c.now + 1) >= c.max
  {
    hide Run, AdmittedTimes, Step, Cleaned, Lookup;
    var more := calls + [c];
    assert forall i :: 0 <= i < |calls| ==> more[i] == calls[i];
    assert more[|calls|] == c;
    CountsAreEarned(calls, c.key, c.now);
    StepSeenFrom(Run(calls), c, c.key);
    var kept := Lookup(Cleaned(Run(calls), c), c.key);
    if kept.Some? && c.now - kept.value.started <= c.window {
      CountMonotone(AdmittedTimes(calls, c.key), kept.value.started, c.now + 1, c.now - c.window, c.now + 1);
    }
  }

  // ----- cleanup -----

  /** The call drops the entry of `key` although its window of length `window` is still open. */
  predicate Drops(windows: Windows, c: Call, key: string, window: nat) {
    |windows| > CLEANUP_SIZE && key in windows && c.window < c.now - windows[key].started <= window
  }

  /** An open entry disappears exactly when the map is large and the call's window has passed it. */
  lemma OpenEntryDroppedIff(windows: Windows, c: Call, key: string, window: nat)
    requires key in windows && c.now - windows[key].started <= window
    ensures key !in Cleaned(windows, c) <==> Drops(windows, c, key, window)
    ensures Drops(windows, c, key, window) <==>
            |windows| > CLEANUP_SIZE && c.window < c.now - windows[key].started
  {
  }

  ghost predicate SparedAt(calls: seq<Call>, key: string, window: nat, i: nat)
    requires i < |calls|
  {
    !Drops(Run(calls[..i]), calls[i], key, window)
  }

  /** No call of the run drops an open entry of `key`. */
  ghost predicate Spared(calls: seq<Call>, key: string, window: nat) {
    forall i :: 0 <= i < |calls| ==> SparedAt(calls, key, window, i)
  }

  lemma SparedWithOneMore(calls: seq<Call>, c: Call, key: string, window: nat)
    ensures Spared(calls + [c], key, window) <==>
            Spared(calls, key, window) && !Drops(Run(calls), c, key, window)
  {
    hide Drops;
    var more := calls + [c];
    assert more[..|calls|] == calls;
    assert SparedAt(more, key, window, |calls|) <==> !Drops(Run(calls), c, key, window);
    forall i | 0 <= i < |calls| ensures SparedAt(more, key, window, i) <==> SparedAt(calls, key, window, i) {
      assert more[..i] == calls[..i];
    }
  }

  /** A run is spared when cleanup acts only for calls whose window is at least as long as the key's. */
  lemma {:induction false} SparedBySize(calls: seq<Call>, key: string, window: nat)
    requires forall i :: 0 <= i < |calls| ==> |Run(calls[..i])| <= CLEANUP_SIZE || window <= calls[i].window
    ensures Spared(calls, key, window)
  {
    forall i | 0 <= i < |calls| ensures SparedAt(calls, key, window, i) {
      assert |Run(calls[..i])| <= CLEANUP_SIZE || window <= calls[i].window;
    }
  }

  // ----- a key on its own -----

  predicate Passed(e: Option<Entry>, window: nat, now: int) {
    e.None? || now - e.value.started > window
  }

  /** Two entries that no call at `now` or later can tell apart. */
  ghost predicate SameFrom(e: Option<Entry>, f: Option<Entry>, window: nat, now: int) {
    e == f || (Passed(e, window, now) && Passed(f, window, now))
  }

  lemma SameStep(e: Option<Entry>, f: Option<Entry>, max: nat, window: nat, now: int)
    requires SameFrom(e, f, window, now)
    ensures KeyStep(e, max, window, now) == KeyStep(f, max, window, now)
  {
  }

  lemma SameLater(e: Option<Entry>, f: Option<Entry>, window: nat, last: int, now: int)
    requires SameFrom(e, f, window, last) && last <= now
    ensures SameFrom(e, f, window, now)
  {
  }

  lemma SameRefl(e: Option<Entry>, window: nat, now: int)
    ensures SameFrom(e, e, window, now)
  {
  }

  /** One call seen from `key`: its own calls step its entry, others leave it as good as before. */
  lemma AloneStep(windows: Windows, f: Option<Entry>, c: Call, key: string, max: nat, window: nat)
    requires SameFrom(Lookup(windows, key), f, window, c.now) && !Drops(windows, c, key, window)
    requires c.key == key ==> c.max == max && c.window == window
    ensures
      var (next, allowed) := Step(windows, c);
      var (entry, alone) := KeyStep(f, max, window, c.now);
      if c.key == key then Lookup(next, key) == Some(entry) && allowed == alone
      else SameFrom(Lookup(next, key), f, window, c.now)
  {
    var kept := Lookup(Cleaned(windows, c), key);
    assert SameFrom(kept, f, window, c.now);
    SameStep(kept, f, max, window, c.now);
  }

  /** The answers to `key` are those of a limiter of its own that never forgets. */
  ghost predicate Alone(calls: seq<Call>, key: string, max: nat, window: nat) {
    AdmittedTimes(calls, key) == KeyRun(TimesOf(calls, key), max, window).1
  }

  ghost predicate EntryAgrees(calls: seq<Call>, key: string, max: nat, window: nat, now: int) {
    SameFrom(Lookup(Run(calls), key), KeyRun(TimesOf(calls, key), max, window).0, window, now)
  }

  /**
   Cleanup and other keys are invisible to a key unless a call drops its open entry: its calls are
   answered as if it had a limiter of its own.
   */
  lemma {:induction false} SparedKeyIsAlone(calls: seq<Call>, key: string, max: nat, window: nat)
    requires ClockAdvances(calls) && Constant(calls, key, max, window) && Spared(calls, key, window)
    ensures Alone(calls, key, max, window)
    ensures calls != [] ==> EntryAgrees(calls, key, max, window, calls[|calls| - 1].now)
  {
    if calls == [] {
      NoCalls(key, max, window, 0);
    } else {
      hide SameFrom, KeyStep, Step, Lookup, Run, KeyRun, AdmittedTimes, TimesOf, Spared, Drops;
      var n := |calls| - 1;
      var earlier, c := calls[..n], calls[n];
      assert calls == earlier + [c];
      SparedWithOneMore(earlier, c, key, window);
      SparedKeyIsAlone(earlier, key, max, window);
      var windows, f := Run(earlier), KeyRun(TimesOf(earlier, key), max, window).0;
      assert SameFrom(Lookup(windows, key), f, window, c.now) by {
        if n > 0 {
          SameLater(Lookup(windows, key), f, window, earlier[n - 1].now, c.now);
        } else {
          assert earlier == [];
          NoCalls(key, max, window, c.now);
        }
      }
      AloneStep(windows, f, c, key, max, window);
      CallsUnfold(earlier, c, key);
      KeyRunUnfolds(TimesOf(earlier, key), c.now, max, window);
      SameRefl(Lookup(Run(calls), key), window, c.now);
    }
  }

  lemma NoCalls(key: string, max: nat, window: nat, now: int)
    ensures Alone([], key, max, window) && EntryAgrees([], key, max, window, now)
  {
  }

  lemma {:induction false} TimesAreCalls(calls: seq<Call>, key: string)
    requires ClockAdvances(calls)
    ensures NonDecreasing(TimesOf(calls, key))
    ensures forall t :: t in TimesOf(calls, key) ==> calls != [] && t <= calls[|calls| - 1].now
  {
    if calls != [] {
      var n := |calls| - 1;
      TimesAreCalls(calls[..n], key);
      var earlier := TimesOf(calls[..n], key);
      assert forall i :: 0 <= i < |earlier| ==> earlier[i] in earlier;
      assert forall i :: 0 <= i < |earlier| ==> earlier[i] <= calls[n].now;
    }
  }

  /**
   In every run that spares the key, an interval as long as its window contains fewer than twice
   the limit of admitted calls, or none when the limit is zero.
   */
  lemma AnyIntervalIsBounded(calls: seq<Call>, key: string, max: nat, window: nat, a: int)
    requires ClockAdvances(calls) && Constant(calls, key, max, window) && Spared(calls, key, window)
    ensures CountIn(AdmittedTimes(calls, key), a, a + window + 1) <= if max == 0 then 0 else 2 * max - 1
  {
    SparedKeyIsAlone(calls, key, max, window);
    TimesAreCalls(calls, key);
    if TimesOf(calls, key) != [] {
      KeyRunHolds(TimesOf(calls, key), max, window);
      assert IntervalBounded(AdmittedTimes(calls, key), max, window, a);
    }
  }

  /** Right after its own call a key's entry is exactly that of its own limiter. */
  lemma LastIsExact(calls: seq<Call>, key: string, max: nat, window: nat)
    requires ClockAdvances(calls) && Constant(calls, key, max, window) && Spared(calls, key, window)
    requires calls != [] && calls[|calls| - 1].key == key
    ensures
      var (times, last) := (TimesOf(calls, key), calls[|calls| - 1].now);
      && NonDecreasing(times) && times != [] && times[|times| - 1] == last
      && Lookup(Run(calls), key) == KeyRun(times, max, window).0
      && Lookup(Run(calls), key).Some?
  {
    var n := |calls| - 1;
    assert calls == calls[..n] + [calls[n]];
    TimesAreCalls(calls, key);
    CallsUnfold(calls[..n], calls[n], key);
    hide Run, AdmittedTimes, TimesOf;
    SparedKeyIsAlone(calls, key, max, window);
    KeyRunHolds(TimesOf(calls, key), max, window);
  }

  /** The window that is open for a spared key has admitted as many calls as its entry counts, at most the limit. */
  lemma OpenWindowIsBounded(calls: seq<Call>, key: string, max: nat, window: nat)
    requires ClockAdvances(calls) && Constant(calls, key, max, window) && Spared(calls, key, window)
    requires calls != [] && calls[|calls| - 1].key == key
    ensures
      var (entry, last) := (Lookup(Run(calls), key), calls[|calls| - 1].now);
      && entry.Some?
      && CountIn(AdmittedTimes(calls, key), entry.value.started, last + 1) == entry.value.count <= max
  {
    hide Run, KeyRun, AdmittedTimes, TimesOf, Lookup;
    SparedKeyIsAlone(calls, key, max, window);
    LastIsExact(calls, key, max, window);
    KeyRunHolds(TimesOf(calls, key), max, window);
  }
}
