/**
 The knock limiter of `apps/api/src/knock-limit.ts`: a fixed window per key,
 dropped when it is next looked at, and swept when there are many.
 */
module KnockLimit {
  import opened Common

  datatype Window = Window(count: int, startedAt: int)

  datatype Config = Config(windowMs: int, max: int)

  type Windows = map<string, Window>

  const SWEEP_ABOVE := 10_000

  predicate Live(config: Config, w: Window, now: int) { now - w.startedAt < config.windowMs }

  /** The window that counts for a key now, stored or not. */
  function LiveWindow(config: Config, windows: Windows, key: string, now: int): Option<Window> {
    if key in windows && Live(config, windows[key], now) then Some(windows[key]) else None
  }

  /** `take`'s answer, from the key's live window. */
  function Accepts(config: Config, w: Option<Window>): bool {
    w.None? || w.value.count < config.max
  }

  /** The key's window after `take`. */
  function Counted(config: Config, w: Option<Window>, now: int): Window {
    match w
    case None => Window(1, now)
    case Some(v) => if Accepts(config, w) then v.(count := v.count + 1) else v
  }

  /** `Math.ceil(ms / 1000)`. */
  function CeilSeconds(ms: int): (s: int)
    ensures 1000 * (s - 1) < ms <= 1000 * s
  {
    -((-ms) / 1000)
  }

  function Max(a: int, b: int): int { if a < b then b else a }

  function Wait(config: Config, w: Option<Window>, now: int): int {
    match w
    case None => 0
    case Some(v) => Max(1, CeilSeconds(v.startedAt + config.windowMs - now))
  }

  // ---------------------------------------------------------------------
  // The limiter
  // ---------------------------------------------------------------------

  class KnockLimiter {
    const config: Config
    var windows: Windows

    constructor (config: Config)
      ensures this.config == config && windows == map[]
    {
      this.config := config;
      windows := map[];
    }

    /** Only this key's window may go, and only when it has run out. */
    method Current(key: string, now: int) returns (w: Option<Window>)
      modifies this
      ensures w == LiveWindow(config, old(windows), key, now)
      ensures windows == if w.None? then old(windows) - {key} else old(windows)
    {
      if key !in windows { return None; }
      if now - windows[key].startedAt >= config.windowMs {
        windows := windows - {key};
        return None;
      }
      return Some(windows[key]);
    }

    /** The sweep: every window that has run out goes, and no other. */
    method Sweep(now: int)
      modifies this
      ensures windows == map k | k in old(windows) && Live(config, old(windows)[k], now) :: old(windows)[k]
    {
      var left := windows.Keys;
      while left != {}
        invariant left <= old(windows).Keys
        invariant forall k :: k in windows <==> k in old(windows) && (k in left || Live(config, old(windows)[k], now))
        invariant forall k :: k in windows ==> windows[k] == old(windows)[k]
        decreases |left|
      {
        var k :| k in left;
        left := left - {k};
        if now - windows[k].startedAt >= config.windowMs {
          windows := windows - {k};
        }
      }
    }

    method Take(key: string, now: int) returns (accepted: bool)
      modifies this
      ensures accepted == Accepts(config, LiveWindow(config, old(windows), key, now))
      ensures windows == AfterTake(config, old(windows), key, now)
    {
      if |windows| > SWEEP_ABOVE {
        Sweep(now);
      }
      ghost var swept := windows;
      var w := Current(key, now);
      if w.None? {
        windows := windows[key := Window(1, now)];
        assert windows == swept[key := Window(1, now)];
        return true;
      }
      if w.value.count >= config.max {
        assert windows == swept[key := w.value];
        return false;
      }
      windows := windows[key := w.value.(count := w.value.count + 1)];
      return true;
    }

    method RetryAfterSeconds(key: string, now: int) returns (seconds: int)
      modifies this
      ensures seconds == Wait(config, LiveWindow(config, old(windows), key, now), now)
      ensures windows == AfterLook(config, old(windows), key, now)
    {
      var w := Current(key, now);
      if w.None? { return 0; }
      return Max(1, CeilSeconds(w.value.startedAt + config.windowMs - now));
    }
  }

  function Swept(config: Config, windows: Windows, now: int): Windows {
    if |windows| > SWEEP_ABOVE then map k | k in windows && Live(config, windows[k], now) :: windows[k] else windows
  }

  function AfterTake(config: Config, windows: Windows, key: string, now: int): Windows {
    Swept(config, windows, now)[key := Counted(config, LiveWindow(config, windows, key, now), now)]
  }

  function AfterLook(config: Config, windows: Windows, key: string, now: int): Windows {
    if LiveWindow(config, windows, key, now).None? then windows - {key} else windows
  }

  /** After a take at most 10,001 windows are stored, or every stored one is still live. */
  lemma StoreStaysSmallOrLive(config: Config, windows: Windows, key: string, now: int)
    requires config.windowMs > 0
    ensures var after := AfterTake(config, windows, key, now);
            |after| <= 10_001 || forall k :: k in after ==> Live(config, after[k], now)
  {
    var after := AfterTake(config, windows, key, now);
    if |windows| <= SWEEP_ABOVE {
      assert after.Keys == windows.Keys + {key};
    }
  }

  // ---------------------------------------------------------------------
  // Runs
  // ---------------------------------------------------------------------

  datatype Call = Take(key: string, now: int) | Look(key: string, now: int)

  datatype Answer = Accepted(yes: bool) | Seconds(s: int)

  function AnswerOf(config: Config, windows: Windows, c: Call): Answer {
    var w := LiveWindow(config, windows, c.key, c.now);
    if c.Take? then Accepted(Accepts(config, w)) else Seconds(Wait(config, w, c.now))
  }

  function After(config: Config, windows: Windows, c: Call): Windows {
    if c.Take? then AfterTake(config, windows, c.key, c.now) else AfterLook(config, windows, c.key, c.now)
  }

  function Answers(config: Config, windows: Windows, calls: seq<Call>): (r: seq<Answer>)
    ensures |r| == |calls|
    decreases |calls|
  {
    if calls == [] then []
    else [AnswerOf(config, windows, calls[0])] + Answers(config, After(config, windows, calls[0]), calls[1..])
  }

  /** The limiter that never deletes: a window that has run out is only replaced. */
  function Kept(config: Config, windows: Windows, c: Call): Windows {
    if c.Take? then windows[c.key := Counted(config, LiveWindow(config, windows, c.key, c.now), c.now)] else windows
  }

  function KeptAnswers(config: Config, windows: Windows, calls: seq<Call>): (r: seq<Answer>)
    ensures |r| == |calls|
    decreases |calls|
  {
    if calls == [] then []
    else [AnswerOf(config, windows, calls[0])] + KeptAnswers(config, Kept(config, windows, calls[0]), calls[1..])
  }

  /** No call is earlier than `from`, or than the call before it. */
  predicate ClockRuns(from: int, calls: seq<Call>)
    decreases |calls|
  {
    calls == [] || (from <= calls[0].now && ClockRuns(calls[0].now, calls[1..]))
  }

  /** From `now` on, both stores give every key the same live window. */
  ghost predicate SameLive(config: Config, a: Windows, b: Windows, now: int) {
    forall key, t :: now <= t ==> LiveWindow(config, a, key, t) == LiveWindow(config, b, key, t)
  }

  lemma StepKeepsSameLive(config: Config, a: Windows, b: Windows, c: Call)
    requires SameLive(config, a, b, c.now)
    ensures SameLive(config, After(config, a, c), Kept(config, b, c), c.now)
  {
    var a', b' := After(config, a, c), Kept(config, b, c);
    forall key, t | c.now <= t
      ensures LiveWindow(config, a', key, t) == LiveWindow(config, b', key, t)
    {
      assert LiveWindow(config, a, key, t) == LiveWindow(config, b, key, t);
      assert LiveWindow(config, a, key, c.now) == LiveWindow(config, b, key, c.now);
    }
  }

  lemma {:induction false} SameLiveSameAnswers(config: Config, a: Windows, b: Windows, from: int, calls: seq<Call>)
    requires ClockRuns(from, calls) && SameLive(config, a, b, from)
    ensures Answers(config, a, calls) == KeptAnswers(config, b, calls)
    decreases |calls|
  {
    if calls == [] {
    } else {
      var c := calls[0];
      assert SameLive(config, a, b, c.now);
      assert LiveWindow(config, a, c.key, c.now) == LiveWindow(config, b, c.key, c.now);
      StepKeepsSameLive(config, a, b, c);
      SameLiveSameAnswers(config, After(config, a, c), Kept(config, b, c), c.now, calls[1..]);
    }
  }

  /** Deleting what has run out, one key at a time or in a sweep, shows in no answer. */
  lemma DeletionIsInvisible(config: Config, from: int, calls: seq<Call>)
    requires ClockRuns(from, calls)
    ensures Answers(config, map[], calls) == KeptAnswers(config, map[], calls)
  {
    SameLiveSameAnswers(config, map[], map[], from, calls);
  }

  /** A refused knock changes no later answer. */
  lemma RefusalIsInvisible(config: Config, windows: Windows, key: string, now: int, later: seq<Call>)
    requires AnswerOf(config, windows, Take(key, now)) == Accepted(false) && ClockRuns(now, later)
    ensures Answers(config, After(config, windows, Take(key, now)), later) == Answers(config, windows, later)
  {
    var after := After(config, windows, Take(key, now));
    assert SameLive(config, after, windows, now);
    SameLiveSameAnswers(config, after, windows, now, later);
    SameLiveSameAnswers(config, windows, windows, now, later);
  }

  // ---------------------------------------------------------------------
  // The rule over the calls alone
  // ---------------------------------------------------------------------

  /** The `k`th call is a knock that is let in, and comes first of its window. */
  predicate Opens(config: Config, calls: seq<Call>, answers: seq<Answer>, k: nat)
    requires k < |calls| == |answers|
    decreases k
  {
    && calls[k].Take? && answers[k] == Accepted(true)
    && forall j :: 0 <= j < k && calls[j].key == calls[k].key && Opens(config, calls, answers, j) ==>
         calls[k].now - calls[j].now >= config.windowMs
  }

  /** The `o`th call opened the window of its key that the `k`th comes in. */
  predicate InForce(config: Config, calls: seq<Call>, answers: seq<Answer>, k: nat, o: nat)
    requires k < |calls| == |answers|
  {
    && o < k && calls[o].key == calls[k].key
    && Opens(config, calls, answers, o)
    && calls[k].now - calls[o].now < config.windowMs
  }

  /** How many knocks of a key were let in from the `o`th call to before the `k`th. */
  function LetIn(calls: seq<Call>, answers: seq<Answer>, key: string, o: nat, k: nat): nat
    requires o <= k <= |calls| == |answers|
    decreases k - o
  {
    if o == k then 0
    else
      LetIn(calls, answers, key, o, k - 1)
      + if calls[k - 1].Take? && calls[k - 1].key == key && answers[k - 1] == Accepted(true) then 1 else 0
  }

  /**
   A knock is let in if and only if fewer than `max` of its key were since the
   one that opened the window it comes in, or it comes in none. A look answers
   zero outside a window, and in one the whole seconds that are left of it.
   */
  ghost predicate ByTheCalls(config: Config, calls: seq<Call>, answers: seq<Answer>) {
    |answers| == |calls| &&
    forall k :: 0 <= k < |calls| ==> IsAnswer(config, calls, answers, k)
  }

  ghost predicate IsAnswer(config: Config, calls: seq<Call>, answers: seq<Answer>, k: nat)
    requires k < |calls| == |answers|
  {
    if calls[k].Take? then
      answers[k] == Accepted(forall o: nat :: InForce(config, calls, answers, k, o) ==>
                               LetIn(calls, answers, calls[k].key, o, k) < config.max)
    else
      && answers[k].Seconds?
      && ((forall o: nat :: !InForce(config, calls, answers, k, o)) ==> answers[k].s == 0)
      && forall o: nat :: InForce(config, calls, answers, k, o) ==>
           var left := calls[o].now + config.windowMs - calls[k].now;
           answers[k].s >= 1 && 1000 * (answers[k].s - 1) < left <= 1000 * answers[k].s
  }

  /** The store that never deletes, after the first `k` calls. */
  function KeptAfter(config: Config, calls: seq<Call>, k: nat): Windows
    requires k <= |calls|
  {
    if k == 0 then map[] else Kept(config, KeptAfter(config, calls, k - 1), calls[k - 1])
  }

  lemma {:induction false} AnswersOfTheRest(config: Config, calls: seq<Call>, k: nat, i: nat)
    requires k <= i < |calls|
    ensures KeptAnswers(config, KeptAfter(config, calls, k), calls[k..])[i - k] ==
            AnswerOf(config, KeptAfter(config, calls, i), calls[i])
    decreases i - k
  {
    hide Kept;
    assert calls[k..][1..] == calls[k + 1..] && calls[k..][0] == calls[k];
    if k == i {
    } else {
      AnswersOfTheRest(config, calls, k + 1, i);
    }
  }

  lemma AnswerAt(config: Config, calls: seq<Call>, i: nat)
    requires i < |calls|
    ensures KeptAnswers(config, map[], calls)[i] == AnswerOf(config, KeptAfter(config, calls, i), calls[i])
  {
    AnswersOfTheRest(config, calls, 0, i);
    assert calls[0..] == calls;
  }

  lemma {:induction false} ClockOrders(from: int, calls: seq<Call>, i: nat, j: nat)
    requires ClockRuns(from, calls) && i <= j < |calls|
    ensures from <= calls[i].now <= calls[j].now
    decreases |calls|
  {
    if j == 0 {
    } else {
      ClockOrders(calls[0].now, calls[1..], if i == 0 then 0 else i - 1, j - 1);
    }
  }

  /** What the store holds of a key is what its last opening knock, and those let in since, say. */
  ghost predicate HoldsOf(config: Config, calls: seq<Call>, answers: seq<Answer>, windows: Windows, k: nat, key: string)
    requires k <= |calls| == |answers|
  {
    if key !in windows then NoneOpens(config, calls, answers, 0, k, key)
    else exists o :: IsLast(config, calls, answers, windows[key], k, key, o)
  }

  ghost predicate NoneOpens(config: Config, calls: seq<Call>, answers: seq<Answer>, i: nat, k: nat, key: string)
    requires k <= |calls| == |answers|
  {
    forall j :: i <= j < k && calls[j].key == key ==> !Opens(config, calls, answers, j)
  }

  ghost predicate IsLast(config: Config, calls: seq<Call>, answers: seq<Answer>, w: Window, k: nat, key: string, o: nat)
    requires k <= |calls| == |answers|
  {
    && o < k && calls[o].key == key && Opens(config, calls, answers, o)
    && w == Window(LetIn(calls, answers, key, o, k), calls[o].now)
    && NoneOpens(config, calls, answers, o + 1, k, key)
  }

  /** A call that is no knock of the key, or one refused, leaves all that is said of the key. */
  lemma HoldsOn(config: Config, calls: seq<Call>, answers: seq<Answer>, windows: Windows, k: nat, key: string)
    requires k < |calls| == |answers| && HoldsOf(config, calls, answers, windows, k, key)
    requires !(calls[k].Take? && calls[k].key == key && answers[k] == Accepted(true))
    ensures HoldsOf(config, calls, answers, windows, k + 1, key)
  {
    if key in windows {
      var o :| IsLast(config, calls, answers, windows[key], k, key, o);
      assert IsLast(config, calls, answers, windows[key], k + 1, key, o);
    }
  }

  /** A knock let into a window is one more in it, and opens none. */
  lemma HoldsOneMore(config: Config, calls: seq<Call>, answers: seq<Answer>, windows: Windows, k: nat, key: string)
    requires k < |calls| == |answers| && HoldsOf(config, calls, answers, windows, k, key)
    requires calls[k].Take? && calls[k].key == key && answers[k] == Accepted(true)
    requires key in windows && Live(config, windows[key], calls[k].now)
    ensures HoldsOf(config, calls, answers, windows[key := windows[key].(count := windows[key].count + 1)], k + 1, key)
  {
    var o :| IsLast(config, calls, answers, windows[key], k, key, o);
    var more := windows[key].(count := windows[key].count + 1);
    assert !Opens(config, calls, answers, k);
    assert IsLast(config, calls, answers, more, k + 1, key, o);
  }

  /** A knock let in outside a window opens one. */
  lemma HoldsANewOne(config: Config, calls: seq<Call>, answers: seq<Answer>, windows: Windows, k: nat, key: string,
                     from: int)
    requires k < |calls| == |answers| && HoldsOf(config, calls, answers, windows, k, key) && ClockRuns(from, calls)
    requires calls[k].Take? && calls[k].key == key && answers[k] == Accepted(true)
    requires key in windows ==> !Live(config, windows[key], calls[k].now)
    ensures HoldsOf(config, calls, answers, windows[key := Window(1, calls[k].now)], k + 1, key)
  {
    forall j | 0 <= j < k && calls[j].key == key && Opens(config, calls, answers, j)
      ensures calls[k].now - calls[j].now >= config.windowMs
    {
      var o :| IsLast(config, calls, answers, windows[key], k, key, o);
      ClockOrders(from, calls, j, o);
    }
    assert Opens(config, calls, answers, k);
    assert LetIn(calls, answers, key, k, k + 1) == 1;
    assert IsLast(config, calls, answers, Window(1, calls[k].now), k + 1, key, k);
  }

  lemma {:induction false} StoreSaysTheCalls(config: Config, calls: seq<Call>, answers: seq<Answer>, k: nat,
                                             key: string, from: int)
    requires ClockRuns(from, calls) && k <= |calls| && answers == KeptAnswers(config, map[], calls)
    ensures HoldsOf(config, calls, answers, KeptAfter(config, calls, k), k, key)
    decreases k
  {
    hide Opens;
    hide KeptAnswers;
    if k == 0 {
    } else {
      var c, windows := calls[k - 1], KeptAfter(config, calls, k - 1);
      StoreSaysTheCalls(config, calls, answers, k - 1, key, from);
      AnswerAt(config, calls, k - 1);
      hide HoldsOf;
      if c.Take? && c.key == key && answers[k - 1] == Accepted(true) {
        if LiveWindow(config, windows, key, c.now).Some? {
          HoldsOneMore(config, calls, answers, windows, k - 1, key);
        } else {
          HoldsANewOne(config, calls, answers, windows, k - 1, key, from);
        }
      } else {
        HoldsOn(config, calls, answers, windows, k - 1, key);
        SameOfKey(config, calls, answers, windows, KeptAfter(config, calls, k), k, key);
      }
    }
  }

  lemma SameOfKey(config: Config, calls: seq<Call>, answers: seq<Answer>, a: Windows, b: Windows, k: nat, key: string)
    requires k <= |calls| == |answers| && HoldsOf(config, calls, answers, a, k, key)
    requires (key in a <==> key in b) && (key in a ==> a[key] == b[key])
    ensures HoldsOf(config, calls, answers, b, k, key)
  {
    hide IsLast;
    hide NoneOpens;
  }

  /** The window in force is the live one in the store. */
  lemma InForceIsLive(config: Config, calls: seq<Call>, answers: seq<Answer>, windows: Windows, k: nat, o: nat,
                      from: int)
    requires k < |calls| == |answers| && ClockRuns(from, calls)
    requires HoldsOf(config, calls, answers, windows, k, calls[k].key)
    ensures var key, now := calls[k].key, calls[k].now;
            var w := LiveWindow(config, windows, key, now);
            && (InForce(config, calls, answers, k, o) ==>
                  w == Some(Window(LetIn(calls, answers, key, o, k), calls[o].now)))
            && (w.Some? ==> exists p :: InForce(config, calls, answers, k, p))
  {
    var key := calls[k].key;
    if key in windows {
      var p :| IsLast(config, calls, answers, windows[key], k, key, p);
      if InForce(config, calls, answers, k, o) && o != p {
        ClockOrders(from, calls, p, k);
      }
      if Live(config, windows[key], calls[k].now) { assert InForce(config, calls, answers, k, p); }
    }
  }

  lemma AnswerIsByTheCalls(config: Config, calls: seq<Call>, answers: seq<Answer>, k: nat, from: int)
    requires ClockRuns(from, calls) && k < |calls| && answers == KeptAnswers(config, map[], calls)
    ensures IsAnswer(config, calls, answers, k)
  {
    var key, windows := calls[k].key, KeptAfter(config, calls, k);
    StoreSaysTheCalls(config, calls, answers, k, key, from);
    AnswerAt(config, calls, k);
    forall o: nat
      ensures var w := LiveWindow(config, windows, key, calls[k].now);
              && (InForce(config, calls, answers, k, o) ==>
                    w == Some(Window(LetIn(calls, answers, key, o, k), calls[o].now)))
              && (w.Some? ==> exists p :: InForce(config, calls, answers, k, p))
    {
      InForceIsLive(config, calls, answers, windows, k, o, from);
    }
    hide KeptAnswers;
    hide KeptAfter;
    hide HoldsOf;
    hide InForce;
    hide LetIn;
  }

  ghost predicate SameBefore(a: seq<Answer>, b: seq<Answer>, k: nat) {
    |a| == |b| && k <= |a| && forall j :: 0 <= j < k ==> a[j] == b[j]
  }

  lemma {:induction false} OpensByThoseBefore(config: Config, calls: seq<Call>, a: seq<Answer>, b: seq<Answer>,
                                              k: nat, j: nat)
    requires |calls| == |a| && SameBefore(a, b, k) && j < k
    ensures Opens(config, calls, a, j) <==> Opens(config, calls, b, j)
    decreases j
  {
    forall i | 0 <= i < j
      ensures Opens(config, calls, a, i) <==> Opens(config, calls, b, i)
    {
      OpensByThoseBefore(config, calls, a, b, k, i);
    }
  }

  lemma {:induction false} LetInByThoseBefore(calls: seq<Call>, a: seq<Answer>, b: seq<Answer>, key: string, o: nat,
                                              k: nat, n: nat)
    requires |calls| == |a| && SameBefore(a, b, n) && o <= k <= n
    ensures LetIn(calls, a, key, o, k) == LetIn(calls, b, key, o, k)
    decreases k
  {
    if o == k {
    } else {
      LetInByThoseBefore(calls, a, b, key, o, k - 1, n);
    }
  }

  lemma AnswerByThoseBefore(config: Config, calls: seq<Call>, a: seq<Answer>, b: seq<Answer>, k: nat)
    requires |calls| == |a| && SameBefore(a, b, k) && k < |a|
    requires IsAnswer(config, calls, a, k) && IsAnswer(config, calls, b, k)
    ensures a[k] == b[k]
  {
    forall o: nat | o < k
      ensures InForce(config, calls, a, k, o) <==> InForce(config, calls, b, k, o)
      ensures LetIn(calls, a, calls[k].key, o, k) == LetIn(calls, b, calls[k].key, o, k)
    {
      OpensByThoseBefore(config, calls, a, b, k, o);
      LetInByThoseBefore(calls, a, b, calls[k].key, o, k, k);
    }
    forall o: nat
      ensures InForce(config, calls, a, k, o) <==> InForce(config, calls, b, k, o)
    {
    }
    hide Opens;
    hide LetIn;
  }

  lemma {:induction false} RuleHasOneAnswer(config: Config, calls: seq<Call>, a: seq<Answer>, b: seq<Answer>, k: nat)
    requires ByTheCalls(config, calls, a) && ByTheCalls(config, calls, b) && k <= |calls|
    ensures SameBefore(a, b, k)
  {
    hide IsAnswer;
    if k == 0 {
    } else {
      RuleHasOneAnswer(config, calls, a, b, k - 1);
      AnswerByThoseBefore(config, calls, a, b, k - 1);
    }
  }

  /** Over any run whose clock goes on, the limiter's answers are those the calls themselves decide, and no others. */
  lemma RuleOverTheCalls(config: Config, from: int, calls: seq<Call>, answers: seq<Answer>)
    requires ClockRuns(from, calls)
    ensures ByTheCalls(config, calls, answers) <==> answers == Answers(config, map[], calls)
  {
    DeletionIsInvisible(config, from, calls);
    var its := Answers(config, map[], calls);
    forall k | 0 <= k < |calls|
      ensures IsAnswer(config, calls, its, k)
    {
      AnswerIsByTheCalls(config, calls, its, k, from);
    }
    hide IsAnswer;
    if ByTheCalls(config, calls, answers) { RuleHasOneAnswer(config, calls, answers, its, |calls|); }
  }

  // ---------------------------------------------------------------------
  // Waiting
  // ---------------------------------------------------------------------

  /**
   `retryAfterSeconds` is the fewest whole seconds after which a key whose
   window is full is let through again. It is never zero while the window
   counts: the ceiling is at least one second by itself.
   */
  lemma WaitIsLeast(config: Config, windows: Windows, key: string, now: int, s: nat)
    requires LiveWindow(config, windows, key, now).Some?
    ensures var w := LiveWindow(config, windows, key, now);
            && Wait(config, w, now) == CeilSeconds(w.value.startedAt + config.windowMs - now) >= 1
            && (LiveWindow(config, windows, key, now + 1000 * s).None? <==> Wait(config, w, now) <= s)
            && (!Accepts(config, w) ==>
                 (Accepts(config, LiveWindow(config, windows, key, now + 1000 * s)) <==> Wait(config, w, now) <= s))
  {
  }

  // ---------------------------------------------------------------------
  // How many knocks a stretch of time lets through
  // ---------------------------------------------------------------------

  predicate IsAccepted(config: Config, windows: Windows, c: Call, key: string) {
    c.Take? && c.key == key && Accepts(config, LiveWindow(config, windows, key, c.now))
  }

  /** How many knocks of `key` are accepted at `t` or later and before `end`. */
  function AcceptedIn(config: Config, windows: Windows, calls: seq<Call>, key: string, t: int, end: int): nat
    decreases |calls|
  {
    if calls == [] then 0
    else
      var c := calls[0];
      (if t <= c.now < end && IsAccepted(config, windows, c, key) then 1 else 0)
      + AcceptedIn(config, After(config, windows, c), calls[1..], key, t, end)
  }

  lemma {:induction false} NoneAfterTheEnd(config: Config, windows: Windows, calls: seq<Call>, key: string, t: int,
                                           end: int, from: int)
    requires ClockRuns(from, calls) && end <= from
    ensures AcceptedIn(config, windows, calls, key, t, end) == 0
    decreases |calls|
  {
    if calls == [] {
    } else {
      NoneAfterTheEnd(config, After(config, windows, calls[0]), calls[1..], key, t, end, calls[0].now);
    }
  }

  /** How many windows can start within `span` milliseconds. */
  function Fits(span: int, windowMs: int): nat
    requires windowMs > 0
    decreases if span <= 0 then 0 else span
  {
    if span <= 0 then 0 else 1 + Fits(span - windowMs, windowMs)
  }

  lemma {:induction false} FitsGrows(a: int, b: int, windowMs: int)
    requires windowMs > 0 && a <= b
    ensures Fits(a, windowMs) <= Fits(b, windowMs)
    decreases if b <= 0 then 0 else b
  {
    if a <= 0 {
    } else {
      FitsGrows(a - windowMs, b - windowMs, windowMs);
    }
  }

  lemma {:induction false} FitsWhole(k: nat, windowMs: int)
    requires windowMs > 0
    ensures Fits(k * windowMs, windowMs) == k
  {
    if k == 0 {
    } else {
      FitsWhole(k - 1, windowMs);
      assert k * windowMs == (k - 1) * windowMs + windowMs;
    }
  }

  /** The most that can still be accepted before `end`: what is left of this window, and whole ones after it. */
  function Room(config: Config, w: Option<Window>, now: int, end: int): int
    requires config.windowMs > 0
  {
    match w
    case None => config.max * Fits(end - now, config.windowMs)
    case Some(v) => config.max - v.count + config.max * Fits(end - v.startedAt - config.windowMs, config.windowMs)
  }

  /** Every window has counted at least the knock that opened it, and never more than it allows. */
  predicate Counts(config: Config, windows: Windows) {
    forall k :: k in windows ==> 1 <= windows[k].count <= config.max
  }

  lemma AfterCounts(config: Config, windows: Windows, c: Call)
    requires config.max >= 1 && Counts(config, windows)
    ensures Counts(config, After(config, windows, c))
  {
  }

  lemma TimesGrow(max: int, a: int, b: int)
    requires 0 <= max && a <= b
    ensures max * a <= max * b
  {
  }

  /** Waiting makes no room. */
  lemma RoomShrinks(config: Config, windows: Windows, key: string, from: int, now: int, end: int)
    requires config.windowMs > 0 && config.max >= 1 && Counts(config, windows) && from <= now
    ensures Room(config, LiveWindow(config, windows, key, now), now, end)
            <= Room(config, LiveWindow(config, windows, key, from), from, end)
  {
    var w := LiveWindow(config, windows, key, from);
    var since := if w.None? then from else w.value.startedAt + config.windowMs;
    if LiveWindow(config, windows, key, now).None? {
      FitsGrows(end - now, end - since, config.windowMs);
      TimesGrow(config.max, Fits(end - now, config.windowMs), Fits(end - since, config.windowMs));
    }
  }

  lemma RoomIsThere(config: Config, windows: Windows, key: string, now: int, end: int)
    requires config.windowMs > 0 && config.max >= 1 && Counts(config, windows)
    ensures Room(config, LiveWindow(config, windows, key, now), now, end) >= 0
  {
  }

  /** An accepted knock takes its own place out of the room there was. */
  lemma KnockTakesRoom(config: Config, windows: Windows, c: Call, key: string, end: int)
    requires config.windowMs > 0 && config.max >= 1 && Counts(config, windows) && c.now < end
    ensures (if IsAccepted(config, windows, c, key) then 1 else 0)
            + Room(config, LiveWindow(config, After(config, windows, c), key, c.now), c.now, end)
            <= Room(config, LiveWindow(config, windows, key, c.now), c.now, end)
  {
    var w := LiveWindow(config, windows, key, c.now);
    var f := Fits(end - c.now - config.windowMs, config.windowMs);
    if c.key == key && c.Take? {
      assert LiveWindow(config, After(config, windows, c), key, c.now) == Some(Counted(config, w, c.now));
      if w.None? {
        assert Fits(end - c.now, config.windowMs) == 1 + f;
        assert config.max * (1 + f) == config.max + config.max * f;
      }
    } else {
      assert LiveWindow(config, After(config, windows, c), key, c.now) == w;
    }
  }

  lemma {:induction false} RoomBounds(config: Config, windows: Windows, calls: seq<Call>, key: string, t: int,
                                      end: int, from: int)
    requires config.windowMs > 0 && config.max >= 1 && Counts(config, windows)
    requires ClockRuns(from, calls) && t <= from
    ensures AcceptedIn(config, windows, calls, key, t, end)
            <= Room(config, LiveWindow(config, windows, key, from), from, end)
    decreases |calls|
  {
    hide AfterTake;
    hide AfterLook;
    hide Room;
    if calls == [] {
      RoomIsThere(config, windows, key, from, end);
    } else {
      var c := calls[0];
      RoomShrinks(config, windows, key, from, c.now, end);
      RoomIsThere(config, windows, key, c.now, end);
      if c.now >= end {
        NoneAfterTheEnd(config, windows, calls, key, t, end, c.now);
      } else {
        AfterCounts(config, windows, c);
        KnockTakesRoom(config, windows, c, key, end);
        RoomBounds(config, After(config, windows, c), calls[1..], key, t, end, c.now);
      }
    }
  }

  /**
   What a stretch of `k` windows' length can let through: one knock short of
   k + 1 full windows, for it takes a knock to have a window open before it. A
   window of one millisecond is never still open.
   */
  function Most(config: Config, k: nat): int {
    if config.windowMs == 1 then k * config.max else (k + 1) * config.max - 1
  }

  lemma RoomAtTheStart(config: Config, windows: Windows, key: string, t: int, k: nat, now: int)
    requires config.windowMs > 0 && config.max >= 1 && Counts(config, windows) && k >= 1 && t <= now
    requires key in windows ==> windows[key].startedAt < t
    ensures Room(config, LiveWindow(config, windows, key, now), now, t + k * config.windowMs) <= Most(config, k)
  {
    var w, end := LiveWindow(config, windows, key, now), t + k * config.windowMs;
    var span := if w.None? then end - now else end - w.value.startedAt - config.windowMs;
    FitsGrows(span, k * config.windowMs, config.windowMs);
    FitsWhole(k, config.windowMs);
    TimesGrow(config.max, Fits(span, config.windowMs), k);
    assert (k + 1) * config.max == config.max * k + config.max;
  }

  lemma {:induction false} BoundBeforeTheStart(config: Config, windows: Windows, calls: seq<Call>, key: string,
                                               t: int, k: nat, from: int)
    requires config.windowMs > 0 && config.max >= 1 && Counts(config, windows) && k >= 1
    requires ClockRuns(from, calls) && (key in windows ==> windows[key].startedAt < t)
    ensures AcceptedIn(config, windows, calls, key, t, t + k * config.windowMs) <= Most(config, k)
    decreases |calls|
  {
    if calls == [] {
      assert (k + 1) * config.max >= config.max && k * config.max >= 0 by { TimesGrow(config.max, 1, k + 1); }
    } else if t <= calls[0].now {
      RoomAtTheStart(config, windows, key, t, k, calls[0].now);
      RoomBounds(config, windows, calls, key, t, t + k * config.windowMs, calls[0].now);
    } else {
      AfterCounts(config, windows, calls[0]);
      BoundBeforeTheStart(config, After(config, windows, calls[0]), calls[1..], key, t, k, calls[0].now);
    }
  }

  /**
   Twice the allowance across a boundary, and never quite that: over any run
   with a clock that never goes back, any `k` windows' length of time lets
   through at most (k + 1) * max - 1 knocks of a key, and k * max where a
   window is one millisecond.
   */
  lemma TraceBound(config: Config, calls: seq<Call>, key: string, t: int, k: nat, from: int)
    requires config.windowMs > 0 && config.max >= 1 && k >= 1 && ClockRuns(from, calls)
    ensures AcceptedIn(config, map[], calls, key, t, t + k * config.windowMs) <= Most(config, k)
  {
    BoundBeforeTheStart(config, map[], calls, key, t, k, from);
  }

  // ---------------------------------------------------------------------
  // The bound is met
  // ---------------------------------------------------------------------

  function Burst(n: nat, key: string, now: int): seq<Call> {
    if n == 0 then [] else [Take(key, now)] + Burst(n - 1, key, now)
  }

  lemma TakeAlone(config: Config, w: Window, key: string, now: int, rest: seq<Call>, t: int, end: int)
    requires t <= now < end
    ensures var live := LiveWindow(config, map[key := w], key, now);
            AcceptedIn(config, map[key := w], [Take(key, now)] + rest, key, t, end)
            == (if Accepts(config, live) then 1 else 0)
               + AcceptedIn(config, map[key := Counted(config, live, now)], rest, key, t, end)
  {
    var live := LiveWindow(config, map[key := w], key, now);
    assert After(config, map[key := w], Take(key, now)) == map[key := Counted(config, live, now)];
    assert ([Take(key, now)] + rest)[1..] == rest;
  }

  lemma {:induction false} BurstFills(config: Config, w: Window, key: string, n: nat, now: int, rest: seq<Call>,
                                      t: int, end: int)
    requires Live(config, w, now) && t <= now < end && w.count + n <= config.max
    ensures AcceptedIn(config, map[key := w], Burst(n, key, now) + rest, key, t, end)
            == n + AcceptedIn(config, map[key := w.(count := w.count + n)], rest, key, t, end)
    decreases n
  {
    hide AcceptedIn;
    if n == 0 {
      assert Burst(n, key, now) + rest == rest;
    } else {
      assert Burst(n, key, now) + rest == [Take(key, now)] + (Burst(n - 1, key, now) + rest);
      TakeAlone(config, w, key, now, Burst(n - 1, key, now) + rest, t, end);
      BurstFills(config, w.(count := w.count + 1), key, n - 1, now, rest, t, end);
    }
  }

  /** A burst as long as the allowance, on a window that has run out, is let through whole. */
  lemma BurstOpens(config: Config, w: Window, key: string, now: int, rest: seq<Call>, t: int, end: int)
    requires config.windowMs > 0 && config.max >= 1 && !Live(config, w, now) && t <= now < end
    ensures AcceptedIn(config, map[key := w], Burst(config.max, key, now) + rest, key, t, end)
            == config.max + AcceptedIn(config, map[key := Window(config.max, now)], rest, key, t, end)
  {
    hide AcceptedIn;
    var more := Burst(config.max - 1, key, now) + rest;
    assert Burst(config.max, key, now) + rest == [Take(key, now)] + more;
    TakeAlone(config, w, key, now, more, t, end);
    BurstFills(config, Window(1, now), key, config.max - 1, now, rest, t, end);
  }

  /** Full windows back to back: the `j`th and those after it, up to the `k`th. */
  function FullWindows(config: Config, key: string, start: int, j: nat, k: nat): seq<Call>
    requires config.max >= 1
    decreases k + 1 - j
  {
    if j > k then []
    else Burst(config.max, key, start + j * config.windowMs) + FullWindows(config, key, start, j + 1, k)
  }

  lemma {:induction false} FullWindowsFill(config: Config, key: string, start: int, j: nat, k: nat, count: int,
                                           t: int, end: int)
    requires config.windowMs > 0 && config.max >= 1 && 1 <= j <= k + 1
    requires t <= start + config.windowMs && start + k * config.windowMs < end
    ensures AcceptedIn(config, map[key := Window(count, start + (j - 1) * config.windowMs)],
                       FullWindows(config, key, start, j, k), key, t, end) == (k + 1 - j) * config.max
    decreases k + 1 - j
  {
    hide AfterTake;
    if j <= k {
      var W := config.windowMs;
      var now := start + j * W;
      assert j * W == (j - 1) * W + W;
      assert W <= j * W && j * W <= k * W by { TimesGrow(W, 1, j); TimesGrow(W, j, k); }
      var rest := FullWindows(config, key, start, j + 1, k);
      BurstOpens(config, Window(count, start + (j - 1) * W), key, now, rest, t, end);
      FullWindowsFill(config, key, start, j + 1, k, config.max, t, end);
      assert (k + 1 - j) * config.max == config.max + (k - j) * config.max;
    }
  }

  /** One knock just before `t`, the rest of its window at `t` if it is still open, then full windows. */
  function WorstRun(config: Config, key: string, t: int, k: nat): seq<Call>
    requires config.max >= 1
  {
    var full := FullWindows(config, key, t - 1, 1, k);
    [Take(key, t - 1)] + if config.windowMs == 1 then full else Burst(config.max - 1, key, t) + full
  }

  lemma {:induction false} BurstRuns(n: nat, key: string, now: int, from: int, rest: seq<Call>)
    requires from <= now && ClockRuns(now, rest)
    ensures ClockRuns(from, Burst(n, key, now) + rest)
    decreases n
  {
    if n == 0 {
      assert Burst(n, key, now) + rest == rest;
    } else {
      var more := Burst(n - 1, key, now) + rest;
      BurstRuns(n - 1, key, now, now, rest);
      assert Burst(n, key, now) + rest == [Take(key, now)] + more;
      assert ([Take(key, now)] + more)[1..] == more;
    }
  }

  lemma {:induction false} FullWindowsRun(config: Config, key: string, start: int, j: nat, k: nat, from: int)
    requires config.windowMs > 0 && config.max >= 1 && from <= start + j * config.windowMs
    ensures ClockRuns(from, FullWindows(config, key, start, j, k))
    decreases k + 1 - j
  {
    if j <= k {
      var now := start + j * config.windowMs;
      assert (j + 1) * config.windowMs == j * config.windowMs + config.windowMs;
      FullWindowsRun(config, key, start, j + 1, k, now);
      BurstRuns(config.max, key, now, from, FullWindows(config, key, start, j + 1, k));
    }
  }

  lemma BoundIsMetByOne(config: Config, key: string, t: int, k: nat)
    requires config.windowMs == 1 && config.max >= 1 && k >= 1
    ensures ClockRuns(t - 1, WorstRun(config, key, t, k))
    ensures AcceptedIn(config, map[], WorstRun(config, key, t, k), key, t, t + k * config.windowMs) == Most(config, k)
  {
    hide Burst;
    hide FullWindows;
    hide AfterLook;
    var full := FullWindows(config, key, t - 1, 1, k);
    var run := WorstRun(config, key, t, k);
    assert run[0] == Take(key, t - 1) && run[1..] == full;
    FullWindowsRun(config, key, t - 1, 1, k, t - 1);
    assert After(config, map[], run[0]) == map[key := Window(1, t - 1)];
    assert t - 1 == t - 1 + (1 - 1) * config.windowMs;
    FullWindowsFill(config, key, t - 1, 1, k, 1, t, t + k * config.windowMs);
  }

  /** No smaller bound would do: some run reaches it. */
  lemma TraceBoundIsMet(config: Config, key: string, t: int, k: nat)
    requires config.windowMs > 0 && config.max >= 1 && k >= 1
    ensures ClockRuns(t - 1, WorstRun(config, key, t, k))
    ensures AcceptedIn(config, map[], WorstRun(config, key, t, k), key, t, t + k * config.windowMs) == Most(config, k)
  {
    if config.windowMs == 1 {
      BoundIsMetByOne(config, key, t, k);
    } else {
      BoundIsMetByMore(config, key, t, k);
    }
  }

  lemma FirstTake(config: Config, key: string, now: int)
    requires config.max >= 1
    ensures After(config, map[], Take(key, now)) == map[key := Window(1, now)]
  {
  }

  lemma BoundIsMetByMore(config: Config, key: string, t: int, k: nat)
    requires config.windowMs >= 2 && config.max >= 1 && k >= 1
    ensures ClockRuns(t - 1, WorstRun(config, key, t, k))
    ensures AcceptedIn(config, map[], WorstRun(config, key, t, k), key, t, t + k * config.windowMs) == Most(config, k)
  {
    hide Burst;
    hide FullWindows;
    hide AfterLook;
    var full := FullWindows(config, key, t - 1, 1, k);
    var run, rest := WorstRun(config, key, t, k), Burst(config.max - 1, key, t) + full;
    assert run[0] == Take(key, t - 1) && run[1..] == rest;
    assert t <= t - 1 + 1 * config.windowMs;
    FullWindowsRun(config, key, t - 1, 1, k, t);
    BurstRuns(config.max - 1, key, t, t - 1, full);
    var end := t + k * config.windowMs;
    assert t < end by { TimesGrow(config.windowMs, 1, k); }
    FirstTake(config, key, t - 1);
    hide After;
    BurstFills(config, Window(1, t - 1), key, config.max - 1, t, full, t, end);
    assert t - 1 == t - 1 + (1 - 1) * config.windowMs;
    FullWindowsFill(config, key, t - 1, 1, k, config.max, t, end);
    assert (k + 1) * config.max == k * config.max + config.max;
  }
}
