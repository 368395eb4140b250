/** When cleanup is visible: exactly when it drops an open entry, and a run from the empty map in which it does. */
module RateLimitCleanup {
  import opened Options
  import opened RateLimit
  import opened RateLimitRuns

  // ----- asking again and again -----

  /** How many calls the window counts that is open at `now`. */
  function CountAt(e: Option<Entry>, window: nat, now: int): nat {
    if Passed(e, window, now) then 0 else e.value.count
  }

  function Min(a: nat, b: nat): nat {
    if a <= b then a else b
  }

  function Copies<T>(x: T, n: nat): seq<T> {
    if n == 0 then [] else Copies(x, n - 1) + [x]
  }

  lemma KeyStepCounts(e: Option<Entry>, max: nat, window: nat, now: int)
    ensures
      var (next, allowed) := KeyStep(e, max, window, now);
      && (allowed <==> CountAt(e, window, now) < max)
      && CountAt(Some(next), window, now) == CountAt(e, window, now) + if allowed then 1 else 0
  {
  }

  /** A limiter of its own admits `n` calls at one instant until the window is used up. */
  lemma {:induction false} OwnLimiterRepeats(times: seq<int>, max: nat, window: nat, now: int, n: nat)
    requires CountAt(KeyRun(times, max, window).0, window, now) <= max
    ensures
      var k := CountAt(KeyRun(times, max, window).0, window, now);
      var (entry, admitted) := KeyRun(times + Copies(now, n), max, window);
      && CountAt(entry, window, now) == k + Min(n, max - k)
      && |admitted| == |KeyRun(times, max, window).1| + Min(n, max - k)
  {
    hide KeyRun, CountAt, KeyStep;
    if n == 0 {
      assert times + Copies(now, 0) == times;
    } else {
      OwnLimiterRepeats(times, max, window, now, n - 1);
      var before := times + Copies(now, n - 1);
      assert times + Copies(now, n) == before + [now];
      KeyRunUnfolds(before, now, max, window);
      KeyStepCounts(KeyRun(before, max, window).0, max, window, now);
    }
  }

  /** A key's own calls never drop its open entry. */
  lemma OwnCallSpares(windows: Windows, c: Call)
    ensures !Drops(windows, c, c.key, c.window)
    ensures CountAt(Lookup(Cleaned(windows, c), c.key), c.window, c.now)
      == CountAt(Lookup(windows, c.key), c.window, c.now)
  {
  }

  lemma {:induction false} LimiterRepeats(calls: seq<Call>, c: Call, n: nat)
    requires CountAt(Lookup(Run(calls), c.key), c.window, c.now) <= c.max
    ensures
      var k := CountAt(Lookup(Run(calls), c.key), c.window, c.now);
      var after := calls + Copies(c, n);
      && CountAt(Lookup(Run(after), c.key), c.window, c.now) == k + Min(n, c.max - k)
      && |AdmittedTimes(after, c.key)| == |AdmittedTimes(calls, c.key)| + Min(n, c.max - k)
  {
    hide Run, AdmittedTimes, TimesOf, CountAt, KeyStep, Step, Cleaned, Lookup, Drops;
    if n == 0 {
      assert calls + Copies(c, 0) == calls;
    } else {
      LimiterRepeats(calls, c, n - 1);
      var before := calls + Copies(c, n - 1);
      assert calls + Copies(c, n) == before + [c];
      CallsUnfold(before, c, c.key);
      StepSeenFrom(Run(before), c, c.key);
      OwnCallSpares(Run(before), c);
      KeyStepCounts(Lookup(Cleaned(Run(before), c), c.key), c.max, c.window, c.now);
    }
  }

  lemma {:induction false} TimesOfRepeats(calls: seq<Call>, c: Call, n: nat)
    ensures TimesOf(calls + Copies(c, n), c.key) == TimesOf(calls, c.key) + Copies(c.now, n)
  {
    hide Run, AdmittedTimes, TimesOf, Step;
    if n == 0 {
      assert calls + Copies(c, 0) == calls;
    } else {
      TimesOfRepeats(calls, c, n - 1);
      var before := calls + Copies(c, n - 1);
      assert calls + Copies(c, n) == before + [c];
      CallsUnfold(before, c, c.key);
      assert TimesOf(calls, c.key) + Copies(c.now, n - 1) + [c.now] == TimesOf(calls, c.key) + Copies(c.now, n);
    }
  }

  lemma {:induction false} RepeatsStaySpared(calls: seq<Call>, c: Call, n: nat)
    requires Spared(calls, c.key, c.window)
    ensures Spared(calls + Copies(c, n), c.key, c.window)
  {
    hide Spared, Drops;
    if n == 0 {
      assert calls + Copies(c, 0) == calls;
    } else {
      RepeatsStaySpared(calls, c, n - 1);
      var before := calls + Copies(c, n - 1);
      assert calls + Copies(c, n) == before + [c];
      OwnCallSpares(Run(before), c);
      SparedWithOneMore(before, c, c.key, c.window);
    }
  }

  lemma {:induction false} AllTheSame<T>(x: T, n: nat)
    ensures |Copies(x, n)| == n && forall i :: 0 <= i < n ==> Copies(x, n)[i] == x
  {
    if n > 0 {
      AllTheSame(x, n - 1);
    }
  }

  // ----- the exact condition -----

  /** After the first `i` calls of a run, `n` calls on `key` at once are answered as by a limiter of its own. */
  ghost predicate AloneAfter(calls: seq<Call>, key: string, max: nat, window: nat, i: nat, n: nat)
    requires 0 < i <= |calls|
  {
    Alone(calls[..i] + Copies(Call(key, max, window, calls[i - 1].now), n), key, max, window)
  }

  lemma SparedIsAloneAfter(calls: seq<Call>, key: string, max: nat, window: nat, i: nat, n: nat)
    requires ClockAdvances(calls) && Constant(calls, key, max, window) && Spared(calls, key, window)
    requires 0 < i <= |calls|
    ensures AloneAfter(calls, key, max, window, i, n)
  {
    var first, c := calls[..i], Call(key, max, window, calls[i - 1].now);
    SparedPrefix(calls, key, window, i);
    RepeatsStaySpared(first, c, n);
    AllTheSame(c, n);
    var more := first + Copies(c, n);
    assert ClockAdvances(more) by {
      forall j, k | 0 <= j < k < |more| ensures more[j].now <= more[k].now {
        assert j < i ==> calls[j].now <= calls[i - 1].now;
      }
    }
    SparedKeyIsAlone(more, key, max, window);
  }

  lemma SparedPrefix(calls: seq<Call>, key: string, window: nat, i: nat)
    requires Spared(calls, key, window) && i <= |calls|
    ensures Spared(calls[..i], key, window)
  {
    forall j | 0 <= j < i ensures SparedAt(calls[..i], key, window, j) {
      assert SparedAt(calls, key, window, j);
      assert calls[..i][..j] == calls[..j];
    }
  }

  /** A run that is not spared has a first call that drops the key's open entry. */
  lemma {:induction false} FirstDrop(calls: seq<Call>, key: string, window: nat) returns (i: nat)
    requires !Spared(calls, key, window)
    ensures i < |calls| && Spared(calls[..i], key, window) && Drops(Run(calls[..i]), calls[i], key, window)
  {
    var n := |calls| - 1;
    var earlier, c := calls[..n], calls[n];
    assert calls == earlier + [c];
    hide Spared, Drops;
    SparedWithOneMore(earlier, c, key, window);
    if Spared(earlier, key, window) {
      i := n;
    } else {
      i := FirstDrop(earlier, key, window);
      assert earlier[..i] == calls[..i];
    }
  }

  /** The entry that is about to be dropped is the one its own limiter has, and it counts at least one call. */
  lemma DroppedEntryCounts(calls: seq<Call>, key: string, max: nat, window: nat, now: int)
    requires ClockAdvances(calls) && Constant(calls, key, max, window) && Spared(calls, key, window)
    requires calls != [] && calls[|calls| - 1].now <= now && max > 0
    requires key in Run(calls) && now - Run(calls)[key].started <= window
    ensures 1 <= CountAt(KeyRun(TimesOf(calls, key), max, window).0, window, now) <= max
  {
    SparedKeyIsAlone(calls, key, max, window);
    TimesAreCalls(calls, key);
    var times := TimesOf(calls, key);
    var (entry, admitted) := KeyRun(times, max, window);
    assert entry == Some(Run(calls)[key]);
    KeyRunHolds(times, max, window);
    var s := entry.value.started;
    CountMonotone(admitted, s, s + 1, s, times[|times| - 1] + 1);
  }

  /** A dropped open entry shows: asked `max` times at that instant, the limiter admits more than it should. */
  lemma DropIsVisible(calls: seq<Call>, key: string, max: nat, window: nat, i: nat)
    requires ClockAdvances(calls) && Constant(calls, key, max, window) && max > 0
    requires i < |calls| && Spared(calls[..i], key, window) && Drops(Run(calls[..i]), calls[i], key, window)
    ensures !AloneAfter(calls, key, max, window, i + 1, max)
  {
    var before, c := calls[..i], calls[i];
    assert before != [];
    assert calls[..i + 1] == before + [c] && c in calls && c.key != key;
    assert forall d :: d in before ==> d in calls;
    DroppedEntryCounts(before, key, max, window, c.now);
    SparedKeyIsAlone(before, key, max, window);
    OpenEntryDroppedIff(Run(before), c, key, window);
    StepSeenFrom(Run(before), c, key);
    CallsUnfold(before, c, key);
    DroppedThenAsked(before + [c], Call(key, max, window, c.now));
  }

  /** Without an entry the limiter admits `max` calls at once, more than a limiter that has counted one. */
  lemma DroppedThenAsked(calls: seq<Call>, again: Call)
    requires Lookup(Run(calls), again.key).None? && Alone(calls, again.key, again.max, again.window)
    requires 1 <= CountAt(KeyRun(TimesOf(calls, again.key), again.max, again.window).0, again.window,
      again.now) <= again.max
    ensures !Alone(calls + Copies(again, again.max), again.key, again.max, again.window)
  {
    assert CountAt(None, again.window, again.now) == 0;
    hide Run, AdmittedTimes, TimesOf, KeyRun, CountAt, Lookup;
    LimiterRepeats(calls, again, again.max);
    TimesOfRepeats(calls, again, again.max);
    OwnLimiterRepeats(TimesOf(calls, again.key), again.max, again.window, again.now, again.max);
  }

  lemma {:induction false} NothingAdmitted(calls: seq<Call>, key: string, window: nat)
    requires Constant(calls, key, 0, window)
    ensures AdmittedTimes(calls, key) == []
  {
    if calls != [] {
      assert calls[|calls| - 1] in calls;
      assert forall c :: c in calls[..|calls| - 1] ==> c in calls;
      NothingAdmitted(calls[..|calls| - 1], key, window);
    }
  }

  lemma {:induction false} NothingAdmittedAlone(times: seq<int>, window: nat)
    ensures KeyRun(times, 0, window).1 == []
  {
    if times != [] {
      NothingAdmittedAlone(times[..|times| - 1], window);
    }
  }

  /**
   Exactly the dropping of an open entry can be noticed: a key is served throughout as by a limiter of
   its own, however often it is called at whatever point of the run, iff no call drops its open entry.
   */
  lemma AloneIffSpared(calls: seq<Call>, key: string, max: nat, window: nat)
    requires ClockAdvances(calls) && Constant(calls, key, max, window)
    ensures (forall i, n: nat :: 0 < i <= |calls| ==> AloneAfter(calls, key, max, window, i, n))
        <==> max == 0 || Spared(calls, key, window)
  {
    hide Spared, Alone;
    if Spared(calls, key, window) {
      forall i, n: nat | 0 < i <= |calls| ensures AloneAfter(calls, key, max, window, i, n) {
        SparedIsAloneAfter(calls, key, max, window, i, n);
      }
    } else if max == 0 {
      forall i, n: nat | 0 < i <= |calls| ensures AloneAfter(calls, key, max, window, i, n) {
        ZeroLimitIsAlone(calls, key, window, i, n);
      }
    } else {
      var i := FirstDrop(calls, key, window);
      DropIsVisible(calls, key, max, window, i);
    }
  }

  lemma ZeroLimitIsAlone(calls: seq<Call>, key: string, window: nat, i: nat, n: nat)
    requires Constant(calls, key, 0, window) && 0 < i <= |calls|
    ensures AloneAfter(calls, key, 0, window, i, n)
  {
    var c := Call(key, 0, window, calls[i - 1].now);
    AllTheSame(c, n);
    NothingAdmitted(calls[..i] + Copies(c, n), key, window);
    NothingAdmittedAlone(TimesOf(calls[..i] + Copies(c, n), key), window);
  }

  // ----- a run that fails -----

  function Name(i: nat): string {
    seq(i, _ => 'k')
  }

  /** One call at time 0 on each of `n` different keys, the first of them the empty text. */
  function Flood(n: nat, window: nat): seq<Call> {
    if n == 0 then [] else Flood(n - 1, window) + [Call(Name(n - 1), 1, window, 0)]
  }

  lemma {:induction false} FloodCalls(n: nat, window: nat)
    ensures |Flood(n, window)| == n
    ensures forall c :: c in Flood(n, window) ==> c.now == 0 && c.max == 1 && c.window == window
  {
    if n > 0 {
      FloodCalls(n - 1, window);
    }
  }

  /** `n` keys with one admitted call each at time 0, the empty text among them. */
  ghost predicate Filled(windows: Windows, n: nat) {
    && |windows| == n
    && (forall k :: k in windows ==> |k| < n && windows[k] == Entry(1, 0))
    && (n > 0 ==> "" in windows)
  }

  lemma FillOneMore(windows: Windows, n: nat, window: nat)
    requires Filled(windows, n) && n <= CLEANUP_SIZE
    ensures
      var (next, allowed) := Step(windows, Call(Name(n), 1, window, 0));
      Filled(next, n + 1) && allowed
  {
    var c := Call(Name(n), 1, window, 0);
    assert c.key !in windows;
    assert Step(windows, c).0 == windows[c.key := Entry(1, 0)];
    assert Step(windows, c).0.Keys == windows.Keys + {c.key};
    assert n == 0 ==> c.key == "";
  }

  lemma {:induction false} FloodFillsTheMap(n: nat, window: nat)
    requires n <= CLEANUP_SIZE + 1
    ensures Filled(Run(Flood(n, window)), n)
    ensures AdmittedTimes(Flood(n, window), "") == if n > 0 then [0] else []
  {
    if n == 0 {
      NothingFilled(window);
    } else {
      var before, c := Flood(n - 1, window), Call(Name(n - 1), 1, window, 0);
      assert Flood(n, window) == before + [c];
      hide Flood, Run, AdmittedTimes, TimesOf, Step, Filled;
      FloodFillsTheMap(n - 1, window);
      CallsUnfold(before, c, "");
      FillOneMore(Run(before), n - 1, window);
      assert c.key == "" <==> |Name(n - 1)| == 0;
      assert [] + [0] == [0];
    }
  }

  lemma NothingFilled(window: nat)
    ensures Filled(Run(Flood(0, window)), 0) && AdmittedTimes(Flood(0, window), "") == []
  {
  }

  /** A flood of `n` keys, then a call on another key with a shorter window, then the first key again. */
  function FailingRun(n: nat, short: nat, window: nat): seq<Call> {
    Flood(n, window) + [Call("other", 1, short, short + 1)] + [Call("", 1, window, short + 1)]
  }

  /**
   From the empty map and for any two window lengths, a call with the shorter window lets a key with
   the longer one through twice within one window although its limit is one.
   */
  lemma ShorterWindowForgets(n: nat, short: nat, window: nat)
    requires n == CLEANUP_SIZE + 1 && short < window
    ensures
      var calls := FailingRun(n, short, window);
      && ClockAdvances(calls) && Constant(calls, "", 1, window) && !Spared(calls, "", window)
      && AdmittedTimes(calls, "") == [0, short + 1]
      && CountIn(AdmittedTimes(calls, ""), 0, 0 + window + 1) == 2
  {
    FloodCalls(n, window);
    FloodFillsTheMap(n, window);
    ForgetsAfter(Flood(n, window), short, window);
  }

  lemma ForgetsAfter(flood: seq<Call>, short: nat, window: nat)
    requires Filled(Run(flood), CLEANUP_SIZE + 1) && AdmittedTimes(flood, "") == [0] && short < window
    requires forall c :: c in flood ==> c.now == 0 && c.max == 1 && c.window == window
    ensures
      var calls := flood + [Call("other", 1, short, short + 1)] + [Call("", 1, window, short + 1)];
      && ClockAdvances(calls) && Constant(calls, "", 1, window) && !Spared(calls, "", window)
      && AdmittedTimes(calls, "") == [0, short + 1]
      && CountIn(AdmittedTimes(calls, ""), 0, 0 + window + 1) == 2
  {
    hide Run, AdmittedTimes, Spared, ClockAdvances, Constant, CountIn, Filled;
    var other, again := Call("other", 1, short, short + 1), Call("", 1, window, short + 1);
    FloodThenTwo(flood, other, again);
    ForgottenKey(flood, other, again);
    TwoAdmitted(short + 1, window);
    assert [0] + [short + 1] == [0, short + 1];
  }

  lemma FloodThenTwo(flood: seq<Call>, other: Call, again: Call)
    requires forall c :: c in flood ==> c.now == 0 && c.max == 1 && c.window == again.window
    requires 0 <= other.now <= again.now && other.key != "" && again.max == 1
    ensures ClockAdvances(flood + [other] + [again]) && Constant(flood + [other] + [again], "", 1, again.window)
  {
  }

  lemma TwoAdmitted(t: nat, window: nat)
    requires t <= window
    ensures CountIn([0, t], 0, 0 + window + 1) == 2
  {
    CountAppend([], 0, 0, window + 1);
    CountAppend([0], t, 0, window + 1);
    assert [] + [0] == [0] && [0] + [t] == [0, t];
  }

  lemma ForgottenKey(calls: seq<Call>, other: Call, again: Call)
    requires Filled(Run(calls), CLEANUP_SIZE + 1)
    requires other.key != "" && again.key == "" && again.max == 1
    requires other.window < other.now == again.now <= again.window
    ensures !Spared(calls + [other] + [again], "", again.window)
    ensures AdmittedTimes(calls + [other] + [again], "") == AdmittedTimes(calls, "") + [again.now]
  {
    hide Run, AdmittedTimes, TimesOf, Spared;
    var windows := Run(calls);
    assert Drops(windows, other, "", again.window);
    OpenEntryDroppedIff(windows, other, "", again.window);
    SparedWithOneMore(calls, other, "", again.window);
    SparedWithOneMore(calls + [other], again, "", again.window);
    CallsUnfold(calls, other, "");
    CallsUnfold(calls + [other], again, "");
    StepSeenFrom(windows, other, "");
    StepSeenFrom(Run(calls + [other]), again, "");
  }
}
