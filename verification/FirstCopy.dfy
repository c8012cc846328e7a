/**
 The first-copy mail of `apps/selfhost/src/index.ts`: passes that read whether
 everything has arrived before and after they copy, interleaved at their
 awaits, and the one flag they share. A restart loses the flag and the passes.
 What has arrived is what `packages/shared/src/first-copy.ts` reads off the
 data types' rows, which a pass and the owner both write.
 */
module FirstCopy {
  import opened Common

  // ---------------------------------------------------------------------
  // What has arrived
  // ---------------------------------------------------------------------

  /** A data type's row: waiting to start, stopped by its owner, copied to the end once. */
  datatype DataType = DataType(ready: bool, stopped: bool, completed: bool)

  predicate Counts(d: DataType) { !d.stopped && !d.ready }

  /** A migration is in: it has data types that count, and each of those has arrived. */
  predicate IsIn(types: seq<DataType>) {
    (exists d :: d in types && Counts(d)) && forall d :: d in types && Counts(d) ==> d.completed
  }

  /** One more data type: one that waits or was stopped says nothing, and any other must have been copied once. */
  lemma InWithOneMore(types: seq<DataType>, d: DataType)
    ensures !IsIn([])
    ensures IsIn(types + [d]) <==>
            if d.ready || d.stopped then IsIn(types)
            else d.completed && (IsIn(types) || forall t :: t in types ==> t.ready || t.stopped)
  {
    assert forall t :: t in types + [d] <==> t in types || t == d;
  }

  predicate AllIn(facts: seq<seq<DataType>>) { forall k :: 0 <= k < |facts| ==> IsIn(facts[k]) }

  /** `firstCopyOf(...).complete`. */
  predicate Complete(facts: seq<seq<DataType>>) { |facts| > 0 && AllIn(facts) }

  // ---------------------------------------------------------------------
  // Passes
  // ---------------------------------------------------------------------

  /** `arrivedBefore`: undefined, true or false. */
  datatype Before = Unknown | Already | NotYet

  /** How far a pass is; `whole` while it has not thrown and no read of it has failed. */
  datatype Phase =
    | ReadingBefore(seen: seq<seq<DataType>>)
    | Copying(arrivedBefore: Before, whole: bool)
    | ReadingAfter(seen: seq<seq<DataType>>, whole: bool)
    | Done(whole: bool)

  /** The rows of each migration, the flag, the passes of this process, and the mails sent by it and by all. */
  datatype State = State(facts: seq<seq<DataType>>, said: bool, passes: map<nat, Phase>, here: nat, total: nat)

  /** A pass copies a data type to the end; a press of the owner's writes a migration's rows, whatever is running. */
  datatype Event =
    | Begin(p: nat)
    | ReadOne(p: nat)
    | ReadEnds(p: nat)
    | ReadFails(p: nat)
    | Arrive(p: nat, migration: nat, dataType: nat)
    | CopyEnds(p: nat)
    | Throw(p: nat)
    | Restart
    | Press(migration: nat, types: seq<DataType>)

  predicate IsReading(s: State, p: nat) { p in s.passes && (s.passes[p].ReadingBefore? || s.passes[p].ReadingAfter?) }

  predicate IsCopying(s: State, p: nat) { p in s.passes && s.passes[p].Copying? }

  predicate Can(s: State, e: Event) {
    match e
    case Begin(p) => p !in s.passes
    case ReadOne(p) => IsReading(s, p) && |s.passes[p].seen| < |s.facts|
    case ReadEnds(p) => IsReading(s, p) && |s.passes[p].seen| == |s.facts|
    case ReadFails(p) => IsReading(s, p)
    case Arrive(p, m, d) => IsCopying(s, p) && m < |s.facts| && d < |s.facts[m]|
    case CopyEnds(p) => IsCopying(s, p)
    case Throw(p) => IsCopying(s, p)
    case Restart => true
    case Press(m, _) => m < |s.facts|
  }

  /** A read of everything ends: the one before the copy is kept, the one after it may say so. */
  function ReadDone(s: State, p: nat): State
    requires IsReading(s, p)
  {
    var ph := s.passes[p];
    if ph.ReadingBefore? then
      s.(passes := s.passes[p := Copying(if Complete(ph.seen) then Already else NotYet, true)])
    else
      var done := s.(passes := s.passes[p := Done(ph.whole)]);
      if Complete(ph.seen) && !s.said then done.(said := true, here := s.here + 1, total := s.total + 1) else done
  }

  /** Each event runs without an await inside it; migrations are read one at a time. */
  function Next(s: State, e: Event): State
    requires Can(s, e)
  {
    match e
    case Begin(p) => s.(passes := s.passes[p := if s.said then Copying(Unknown, true) else ReadingBefore([])])
    case ReadOne(p) =>
      var ph := s.passes[p];
      s.(passes := s.passes[p := ph.(seen := ph.seen + [s.facts[|ph.seen|]])])
    case ReadEnds(p) => ReadDone(s, p)
    case ReadFails(p) =>
      s.(passes := s.passes[p := if s.passes[p].ReadingBefore? then Copying(Unknown, false) else Done(false)])
    case Arrive(p, m, d) => s.(facts := s.facts[m := s.facts[m][d := s.facts[m][d].(completed := true)]])
    case CopyEnds(p) =>
      var ph := s.passes[p];
      var again := ph.arrivedBefore == NotYet && !s.said;
      s.(passes := s.passes[p := if again then ReadingAfter([], ph.whole) else Done(ph.whole)])
    case Throw(p) => s.(passes := s.passes[p := Done(false)])
    case Restart => s.(said := false, passes := map[], here := 0)
    case Press(m, types) => s.(facts := s.facts[m := types])
  }

  predicate Init(s: State) { !s.said && s.passes == map[] && s.here == 0 && s.total == 0 }

  predicate IsRun(states: seq<State>, events: seq<Event>) {
    && |states| == |events| + 1
    && Init(states[0])
    && forall k :: 0 <= k < |events| ==> Can(states[k], events[k]) && states[k + 1] == Next(states[k], events[k])
  }

  // ---------------------------------------------------------------------
  // One process
  // ---------------------------------------------------------------------

  predicate Telling(ph: Phase) { ph.ReadingAfter? || (ph.Copying? && ph.arrivedBefore == NotYet) }

  /** The flag is the mail, and a pass on its way to say it has had no trouble. */
  ghost predicate FlagHolds(s: State) {
    && s.here == (if s.said then 1 else 0)
    && forall p :: p in s.passes && Telling(s.passes[p]) ==> s.passes[p].whole
  }

  lemma {:induction false} FlagAlways(states: seq<State>, events: seq<Event>, k: nat)
    requires IsRun(states, events) && k < |states|
    ensures FlagHolds(states[k])
  {
    hide Complete;
    if k == 0 {
    } else {
      FlagAlways(states, events, k - 1);
      var s, e := states[k - 1], events[k - 1];
      assert states[k] == Next(s, e);
    }
  }

  /** At most one mail a process: whatever the reads say, and whether or not what arrived stays. */
  lemma OneMailPerProcess(states: seq<State>, events: seq<Event>, k: nat)
    requires IsRun(states, events) && k < |states|
    ensures states[k].here == if states[k].said then 1 else 0
  {
    FlagAlways(states, events, k);
  }

  // ---------------------------------------------------------------------
  // When the mail is sent
  // ---------------------------------------------------------------------

  /**
   A pass that will say so if it ends well: it has seen something missing
   before its copy, or nothing missing so far after it.
   */
  predicate OnTheWay(ph: Phase) {
    match ph
    case ReadingBefore(seen) => !AllIn(seen)
    case Copying(before, _) => before == NotYet
    case ReadingAfter(seen, _) => AllIn(seen)
    case Done(_) => false
  }

  ghost predicate Way(c: State, p: nat) { p in c.passes && OnTheWay(c.passes[p]) }

  /** From `c` to `k` everything stays in. */
  ghost predicate StaysComplete(states: seq<State>, c: nat, k: nat) {
    c <= k < |states| && forall j :: c <= j <= k ==> Complete(states[j].facts)
  }

  ghost predicate SameProcess(events: seq<Event>, c: nat, k: nat) {
    c <= k <= |events| && forall j :: c <= j < k ==> !events[j].Restart?
  }

  /** A pass that was on its way at `c` came to its end, with no throw and no failed read, in the same process. */
  ghost predicate EndedWell(states: seq<State>, events: seq<Event>, c: nat, p: nat, j: nat) {
    && c <= j < |states| && SameProcess(events, c, j)
    && Way(states[c], p) && p in states[j].passes && states[j].passes[p] == Done(true)
  }

  ghost predicate SomeEndedWell(states: seq<State>, events: seq<Event>, c: nat, k: nat) {
    exists p, j: nat :: j <= k && EndedWell(states, events, c, p, j)
  }

  /**
   A pass of `c`'s process since `c`: on its way still, or said for, or in
   trouble, if it was on its way; not, if not.
   */
  ghost predicate Goes(way: bool, said: bool, ph: Phase) {
    if !way then !OnTheWay(ph)
    else
      OnTheWay(ph) || (match ph
                       case Done(whole) => whole ==> said
                       case Copying(_, whole) => !whole
                       case _ => false)
  }

  ghost predicate Tracks(c: State, s: State) {
    && (forall p :: p in c.passes ==> p in s.passes)
    && (forall p :: p in s.passes ==> Goes(Way(c, p), s.said, s.passes[p]))
    && (s.said ==> exists p :: Way(c, p) && s.passes[p] == Done(true))
    && s.total == c.total + if s.said then 1 else 0
  }

  lemma OneMoreIn(seen: seq<seq<DataType>>, facts: seq<seq<DataType>>)
    requires Complete(facts) && |seen| < |facts|
    ensures AllIn(seen + [facts[|seen|]]) <==> AllIn(seen)
  {
    hide IsIn;
    var more := seen + [facts[|seen|]];
    assert forall k :: 0 <= k < |seen| ==> more[k] == seen[k];
  }

  /** While everything is in, a step of a pass takes it along its way or off it, and never onto it. */
  lemma StepGoes(s: State, e: Event, way: bool)
    requires FlagHolds(s) && Can(s, e) && Complete(s.facts)
    requires e.ReadOne? || e.ReadEnds? || e.ReadFails? || e.CopyEnds? || e.Throw?
    requires Goes(way, s.said, s.passes[e.p])
    ensures Goes(way, Next(s, e).said, Next(s, e).passes[e.p])
    ensures Next(s, e).said && !s.said ==> way && Next(s, e).passes[e.p] == Done(true)
  {
    if e.ReadOne? { OneMoreIn(s.passes[e.p].seen, s.facts); }
    hide IsIn;
    hide AllIn;
  }

  /** Nothing else moves. */
  lemma OthersStay(s: State, e: Event)
    requires Can(s, e) && (e.ReadOne? || e.ReadEnds? || e.ReadFails? || e.CopyEnds? || e.Throw?)
    ensures var t := Next(s, e);
            && t.passes.Keys == s.passes.Keys && (s.said ==> t.said) && t.facts == s.facts
            && t.total == s.total + (if t.said && !s.said then 1 else 0)
            && forall q :: q in s.passes && q != e.p ==> t.passes[q] == s.passes[q]
  {
  }

  lemma StepTracks(c: State, s: State, e: Event)
    requires Tracks(c, s) && FlagHolds(s) && Can(s, e) && !e.Restart? && Complete(s.facts)
    ensures Tracks(c, Next(s, e))
  {
    var t := Next(s, e);
    if e.Arrive? || e.Press? {
      assert t.passes == s.passes;
      hide *;
    } else if e.Begin? {
      hide AllIn;
    } else {
      OthersStay(s, e);
      StepGoes(s, e, Way(c, e.p));
      forall q | q in s.passes
        ensures Goes(Way(c, q), s.said, s.passes[q]) ==> Goes(Way(c, q), true, s.passes[q])
      {
      }
      hide Goes;
      hide Way;
      hide Next;
      hide FlagHolds;
    }
  }

  /** With nobody on the way, everything in and the flag down, nobody gets on it. */
  ghost predicate Quiet(s: State) {
    !s.said && forall p :: p in s.passes ==> !OnTheWay(s.passes[p])
  }

  lemma StepKeepsQuiet(s: State, e: Event)
    requires Quiet(s) && Can(s, e) && Complete(s.facts)
    ensures Quiet(Next(s, e)) && Next(s, e).total == s.total
  {
    if e.ReadOne? { OneMoreIn(s.passes[e.p].seen, s.facts); }
    hide IsIn;
    hide AllIn;
  }

  lemma {:induction false} TracksAlways(states: seq<State>, events: seq<Event>, c: nat, k: nat)
    requires IsRun(states, events) && StaysComplete(states, c, k) && SameProcess(events, c, k) && !states[c].said
    ensures Tracks(states[c], states[k])
    decreases k
  {
    if k == c {
    } else {
      TracksAlways(states, events, c, k - 1);
      FlagAlways(states, events, k - 1);
      StepTracks(states[c], states[k - 1], events[k - 1]);
    }
  }

  /** In one process the flag says whether some pass on its way has ended well. */
  lemma FlagIsSomeEndedWell(states: seq<State>, events: seq<Event>, c: nat, k: nat)
    requires IsRun(states, events) && StaysComplete(states, c, k) && SameProcess(events, c, k) && !states[c].said
    ensures states[k].said <==> SomeEndedWell(states, events, c, k)
    ensures states[k].total == states[c].total + if states[k].said then 1 else 0
  {
    TracksAlways(states, events, c, k);
    hide Complete;
    if states[k].said {
      var p :| Way(states[c], p) && p in states[k].passes && states[k].passes[p] == Done(true);
      assert EndedWell(states, events, c, p, k);
    }
    if p, j: nat :| j <= k && EndedWell(states, events, c, p, j) {
      TracksAlways(states, events, c, j);
      SaidStays(states, events, j, k);
    }
  }

  lemma {:induction false} SaidStays(states: seq<State>, events: seq<Event>, j: nat, k: nat)
    requires IsRun(states, events) && j <= k < |states| && SameProcess(events, j, k) && states[j].said
    ensures states[k].said
    decreases k
  {
    hide Complete;
    if j == k {
    } else {
      SaidStays(states, events, j, k - 1);
    }
  }

  /** Every pass that reads now was reading then, before its copy or after it, as it does now. */
  ghost predicate ReadsNoMore(c: State, s: State) {
    forall p :: IsReading(s, p) ==> IsReading(c, p) && s.passes[p].ReadingAfter? == c.passes[p].ReadingAfter?
  }

  /** A process that has said so begins no reading any more: what has been said is not asked again. */
  lemma {:induction false} NoReadingOnceSaid(states: seq<State>, events: seq<Event>, j: nat, k: nat)
    requires IsRun(states, events) && j <= k < |states| && SameProcess(events, j, k) && states[j].said
    ensures ReadsNoMore(states[j], states[k])
    decreases k
  {
    if k > j {
      NoReadingOnceSaid(states, events, j, k - 1);
      SaidStays(states, events, j, k - 1);
      ReadingsOnlyEnd(states[k - 1], events[k - 1]);
      assert !events[k - 1].Restart?;
    }
  }

  lemma ReadingsOnlyEnd(s: State, e: Event)
    requires Can(s, e) && s.said && !e.Restart?
    ensures ReadsNoMore(s, Next(s, e))
  {
  }

  /** What ended well before a restart is all that ever will have. */
  lemma NoMoreEndsWell(states: seq<State>, events: seq<Event>, c: nat, k: nat)
    requires c <= k < |states| && |states| == |events| + 1 && k > 0
    requires k > c && !SameProcess(events, c, k)
    ensures SomeEndedWell(states, events, c, k) <==> SomeEndedWell(states, events, c, k - 1)
  {
    if p, j: nat :| j <= k && EndedWell(states, events, c, p, j) {
      assert j <= k - 1;
    }
    if p, j: nat :| j <= k - 1 && EndedWell(states, events, c, p, j) {
      assert j <= k && EndedWell(states, events, c, p, j);
    }
  }

  lemma RestartIsQuiet(s: State)
    ensures Quiet(Next(s, Restart)) && Next(s, Restart).total == s.total
  {
  }

  lemma {:induction false} QuietAfterARestart(states: seq<State>, events: seq<Event>, c: nat, k: nat)
    requires IsRun(states, events) && StaysComplete(states, c, k) && !SameProcess(events, c, k) && !states[c].said
    ensures Quiet(states[k])
    ensures states[k].total == states[c].total + if SomeEndedWell(states, events, c, k) then 1 else 0
    decreases k
  {
    hide Complete;
    hide Quiet;
    hide SomeEndedWell;
    NoMoreEndsWell(states, events, c, k);
    if SameProcess(events, c, k - 1) {
      FlagIsSomeEndedWell(states, events, c, k - 1);
      RestartIsQuiet(states[k - 1]);
    } else {
      QuietAfterARestart(states, events, c, k - 1);
      StepKeepsQuiet(states[k - 1], events[k - 1]);
    }
  }

  /** A process that has said so says no more, nor does the next while everything stays in. */
  lemma {:induction false} SaidSaysNoMore(states: seq<State>, events: seq<Event>, c: nat, k: nat)
    requires IsRun(states, events) && StaysComplete(states, c, k) && states[c].said
    ensures states[k].total == states[c].total && (states[k].said || Quiet(states[k]))
    decreases k
  {
    if k == c {
    } else {
      SaidSaysNoMore(states, events, c, k - 1);
      var s, e := states[k - 1], events[k - 1];
      if e.Restart? {
        RestartIsQuiet(s);
      } else if !s.said {
        StepKeepsQuiet(s, e);
      }
      hide Complete;
      hide Quiet;
    }
  }

  /**
   Exactly when the mail is sent. Take any moment at which everything is in,
   however that came about. As long as everything stays in, one more mail is
   sent if and only if the process had not said so and a pass that was then on
   its way to say so comes to its end in that process, with no throw and no
   failed read.
   */
  lemma MailIsSentExactly(states: seq<State>, events: seq<Event>, c: nat, k: nat)
    requires IsRun(states, events) && StaysComplete(states, c, k)
    ensures states[k].total ==
            states[c].total + if !states[c].said && SomeEndedWell(states, events, c, k) then 1 else 0
  {
    if states[c].said {
      SaidSaysNoMore(states, events, c, k);
    } else if SameProcess(events, c, k) {
      FlagIsSomeEndedWell(states, events, c, k);
    } else {
      QuietAfterARestart(states, events, c, k);
    }
  }

  /** So with nobody on the way, as when the owner stops what was missing between two passes, it is never sent. */
  lemma NobodyOnTheWay(states: seq<State>, events: seq<Event>, c: nat, k: nat)
    requires IsRun(states, events) && StaysComplete(states, c, k)
    requires forall p :: p in states[c].passes ==> !OnTheWay(states[c].passes[p])
    ensures states[k].total == states[c].total
  {
    MailIsSentExactly(states, events, c, k);
  }

  // ---------------------------------------------------------------------
  // A mail sent with something missing
  // ---------------------------------------------------------------------

  /** The step from the `k`th state sends a mail. */
  predicate Sends(states: seq<State>, k: nat) {
    k + 1 < |states| && states[k].total < states[k + 1].total
  }

  /** A pass that reads after its copy has read a migration. */
  predicate HasRead(s: State, p: nat, m: nat) {
    p in s.passes && s.passes[p].ReadingAfter? && m < |s.passes[p].seen|
  }

  /** What a mail is sent by: a pass that has read every migration as in, in a process that has not said so. */
  lemma SendsByReading(states: seq<State>, events: seq<Event>, k: nat)
    requires IsRun(states, events) && Sends(states, k)
    ensures var s, e := states[k], events[k];
            && e.ReadEnds? && !s.said && e.p in s.passes && s.passes[e.p].ReadingAfter?
            && Complete(s.passes[e.p].seen) && |s.passes[e.p].seen| == |s.facts|
    ensures states[k + 1] == Next(states[k], events[k])
    ensures states[k + 1].total == states[k].total + 1 && states[k + 1].facts == states[k].facts
  {
    hide Complete;
  }

  /**
   A migration the pass had read as in goes out before the pass ends its
   reading, and is still out then.
   */
  ghost predicate GoesOutUnseen(states: seq<State>, p: nat, m: nat, j: nat, k: nat) {
    && j < k < |states|
    && HasRead(states[j], p, m) && m < |states[j].facts| && IsIn(states[j].facts[m])
    && forall i :: j < i <= k ==> HasRead(states[i], p, m) && m < |states[i].facts| && !IsIn(states[i].facts[m])
  }

  lemma {:induction false} SameMigrations(states: seq<State>, events: seq<Event>, k: nat)
    requires IsRun(states, events) && k < |states|
    ensures |states[k].facts| == |states[0].facts|
  {
    hide Complete;
    if k == 0 {
    } else {
      SameMigrations(states, events, k - 1);
    }
  }

  /** A migration in a reading was in it before the step, or the step reads it. */
  lemma ReadBefore(s: State, e: Event, p: nat, m: nat)
    requires Can(s, e) && HasRead(Next(s, e), p, m)
    ensures var t := Next(s, e);
            if HasRead(s, p, m) then t.passes[p].seen[m] == s.passes[p].seen[m]
            else m < |t.facts| && t.passes[p].seen[m] == t.facts[m]
  {
    hide Complete;
  }

  /** A migration in a reading is as it was when it was read, and the pass has been reading since. */
  lemma {:induction false} WasRead(states: seq<State>, events: seq<Event>, p: nat, m: nat, k: nat) returns (r: nat)
    requires IsRun(states, events) && k < |states| && HasRead(states[k], p, m)
    ensures r <= k && m < |states[r].facts| && states[r].facts[m] == states[k].passes[p].seen[m]
    ensures forall i :: r <= i <= k ==> HasRead(states[i], p, m)
    decreases k
  {
    if k == 0 {
      assert false;
    } else {
      var s, e := states[k - 1], events[k - 1];
      ReadBefore(s, e, p, m);
      hide Next;
      hide Can;
      if HasRead(s, p, m) {
        r := WasRead(states, events, p, m, k - 1);
      } else {
        r := k;
      }
    }
  }

  /** Of the states in which a migration is in, the last before one in which it is out. */
  lemma {:induction false} LastIn(states: seq<State>, m: nat, r: nat, k: nat) returns (j: nat)
    requires r < k < |states| && forall i :: r <= i <= k ==> m < |states[i].facts|
    requires IsIn(states[r].facts[m]) && !IsIn(states[k].facts[m])
    ensures r <= j < k && IsIn(states[j].facts[m])
    ensures forall i :: j < i <= k ==> !IsIn(states[i].facts[m])
    decreases k
  {
    hide IsIn;
    if IsIn(states[k - 1].facts[m]) {
      j := k - 1;
    } else {
      j := LastIn(states, m, r, k - 1);
    }
  }

  /**
   Exactly when a mail is sent with something missing, over every run: when
   some migration that the pass sending it had read as in went out before the
   pass had read the rest, and had not come back.
   */
  lemma SentTooSoonExactly(states: seq<State>, events: seq<Event>, k: nat)
    requires IsRun(states, events) && Sends(states, k)
    ensures events[k].ReadEnds?
    ensures !Complete(states[k].facts) <==> exists m, j :: GoesOutUnseen(states, events[k].p, m, j, k)
  {
    SendsByReading(states, events, k);
    hide IsIn;
    var p := events[k].p;
    if !Complete(states[k].facts) {
      var m: nat :| m < |states[k].facts| && !IsIn(states[k].facts[m]);
      var r := WasRead(states, events, p, m, k);
      forall i | r <= i <= k
        ensures m < |states[i].facts|
      {
        SameMigrations(states, events, i);
        SameMigrations(states, events, k);
      }
      var j := LastIn(states, m, r, k);
      assert GoesOutUnseen(states, p, m, j, k);
    }
  }

  // ---------------------------------------------------------------------
  // While completeness stays
  // ---------------------------------------------------------------------

  /** Once everything is in, it stays in. */
  ghost predicate CompletenessStays(states: seq<State>) {
    forall j :: 0 <= j < |states| - 1 && Complete(states[j].facts) ==> Complete(states[j + 1].facts)
  }

  lemma {:induction false} StaysFrom(states: seq<State>, c: nat, k: nat)
    requires CompletenessStays(states) && c <= k < |states| && Complete(states[c].facts)
    ensures StaysComplete(states, c, k)
    decreases k
  {
    hide Complete;
    if k == c {
    } else {
      StaysFrom(states, c, k - 1);
      var last := k - 1;
      assert Complete(states[last].facts) && states[last + 1] == states[k];
    }
  }

  lemma {:induction false} MailsAdd(states: seq<State>, events: seq<Event>, j: nat, k: nat)
    requires IsRun(states, events) && j <= k < |states|
    ensures states[j].total <= states[k].total
    decreases k
  {
    hide Complete;
    if j == k {
    } else {
      MailsAdd(states, events, j, k - 1);
    }
  }

  /** A mail that finds everything in is the last there is. */
  lemma NoMailAfterAWholeOne(states: seq<State>, events: seq<Event>, i: nat, k: nat)
    requires IsRun(states, events) && CompletenessStays(states)
    requires Sends(states, i) && Complete(states[i].facts) && i < k
    ensures !Sends(states, k)
  {
    if Sends(states, k) {
      SendsByReading(states, events, i);
      StaysFrom(states, i, k + 1);
      MailIsSentExactly(states, events, i, k + 1);
      MailsAdd(states, events, i + 1, k);
    }
  }

  /**
   While completeness stays, every mail but the last is sent too soon: at most
   one, over all restarts, finds everything in, and each one before it is of a
   pass that a migration went out on.
   */
  lemma EveryMailButTheLastIsTooSoon(states: seq<State>, events: seq<Event>, i: nat, k: nat)
    requires IsRun(states, events) && CompletenessStays(states) && Sends(states, i) && Sends(states, k) && i < k
    ensures events[i].ReadEnds? && exists m, j :: GoesOutUnseen(states, events[i].p, m, j, i)
  {
    if Complete(states[i].facts) { NoMailAfterAWholeOne(states, events, i, k); }
    SentTooSoonExactly(states, events, i);
  }

  lemma {:induction false} LastMail(states: seq<State>, events: seq<Event>, k: nat) returns (i: nat)
    requires IsRun(states, events) && k < |states| && states[k].total > 0
    ensures i < k && Sends(states, i) && states[i].total == states[k].total - 1
    decreases k
  {
    hide Complete;
    assert states[0].total == 0;
    if Sends(states, k - 1) {
      SendsByReading(states, events, k - 1);
      i := k - 1;
    } else {
      MailsAdd(states, events, k - 1, k);
      i := LastMail(states, events, k - 1);
    }
  }

  /** So at most one mail is ever sent unless some pass sends one too soon. */
  lemma OneMailUnlessTooSoon(states: seq<State>, events: seq<Event>, k: nat)
    requires IsRun(states, events) && k < |states| && CompletenessStays(states)
    ensures states[k].total <= 1
            || exists i, m, j :: 0 <= i < k && Sends(states, i) && GoesOutUnseen(states, events[i].p, m, j, i)
  {
    if states[k].total > 1 {
      var l := LastMail(states, events, k);
      var i := LastMail(states, events, l);
      EveryMailButTheLastIsTooSoon(states, events, i, l);
    }
  }

  // ---------------------------------------------------------------------
  // When what is in stays in
  // ---------------------------------------------------------------------

  /** No migration that is in goes out again. */
  ghost predicate StaysIn(before: seq<seq<DataType>>, after: seq<seq<DataType>>) {
    |before| == |after| && forall m :: 0 <= m < |before| && IsIn(before[m]) ==> IsIn(after[m])
  }

  ghost predicate NoneGoesOut(states: seq<State>) {
    forall j :: 0 <= j < |states| - 1 ==> StaysIn(states[j].facts, states[j + 1].facts)
  }

  /** Everything that has been read as in still is. */
  ghost predicate SeenHolds(seen: seq<seq<DataType>>, facts: seq<seq<DataType>>) {
    |seen| <= |facts| && forall k :: 0 <= k < |seen| && IsIn(seen[k]) ==> IsIn(facts[k])
  }

  ghost predicate ReadHolds(s: State, ph: Phase) {
    match ph
    case ReadingBefore(seen) => SeenHolds(seen, s.facts)
    case ReadingAfter(seen, _) => SeenHolds(seen, s.facts)
    case Copying(before, whole) => (before == Already ==> Complete(s.facts)) && (before == Unknown ==> s.said || !whole)
    case Done(_) => true
  }

  ghost predicate Inv(s: State) {
    && FlagHolds(s)
    && (forall p :: p in s.passes ==> ReadHolds(s, s.passes[p]))
    && s.here <= s.total <= 1
    && (s.total == 1 ==> Complete(s.facts))
    && (s.total == 1 && !s.said ==> Quiet(s))
  }

  lemma SeenStillHolds(seen: seq<seq<DataType>>, facts: seq<seq<DataType>>, after: seq<seq<DataType>>)
    requires StaysIn(facts, after)
    ensures SeenHolds(seen, facts) ==> SeenHolds(seen, after)
    ensures Complete(facts) ==> Complete(after)
    ensures |seen| < |facts| && SeenHolds(seen, facts) ==> SeenHolds(seen + [facts[|seen|]], facts)
    ensures |seen| == |facts| && SeenHolds(seen, facts) && Complete(seen) ==> Complete(facts)
    ensures SeenHolds([], facts)
  {
    hide IsIn;
  }

  lemma StepKeepsReads(s: State, e: Event)
    requires Inv(s) && Can(s, e) && StaysIn(s.facts, Next(s, e).facts)
    ensures var t := Next(s, e); forall p :: p in t.passes ==> ReadHolds(t, t.passes[p])
  {
    var t := Next(s, e);
    forall seen: seq<seq<DataType>>
      ensures SeenHolds(seen, s.facts) ==> SeenHolds(seen, t.facts)
    {
      SeenStillHolds(seen, s.facts, t.facts);
    }
    SeenStillHolds([], s.facts, t.facts);
    if e.ReadOne? || e.ReadEnds? { SeenStillHolds(s.passes[e.p].seen, s.facts, t.facts); }
    hide SeenHolds;
    hide Complete;
    hide StaysIn;
  }

  lemma StepKeeps(s: State, e: Event)
    requires Inv(s) && Can(s, e) && StaysIn(s.facts, Next(s, e).facts) && FlagHolds(Next(s, e))
    ensures Inv(Next(s, e))
  {
    StepKeepsReads(s, e);
    SeenStillHolds(if e.ReadEnds? then s.passes[e.p].seen else [], s.facts, Next(s, e).facts);
    if Quiet(s) && Complete(s.facts) { StepKeepsQuiet(s, e); }
    if e.Restart? { RestartIsQuiet(s); }
    hide SeenHolds;
    hide Complete;
    hide StaysIn;
  }

  lemma {:induction false} InvAlways(states: seq<State>, events: seq<Event>, k: nat)
    requires IsRun(states, events) && k < |states| && NoneGoesOut(states)
    ensures Inv(states[k])
  {
    FlagAlways(states, events, k);
    if k == 0 {
      hide Complete;
    } else {
      InvAlways(states, events, k - 1);
      hide Inv;
      hide Complete;
      StepKeeps(states[k - 1], events[k - 1]);
    }
  }

  /**
   While no migration that is in goes out again, at most one mail is ever sent,
   over any interleaving and any restarts, and never before everything is in.
   */
  lemma OneMailEver(states: seq<State>, events: seq<Event>, k: nat)
    requires IsRun(states, events) && k < |states| && NoneGoesOut(states)
    ensures states[k].total <= 1 && (states[k].total == 1 ==> Complete(states[k].facts))
  {
    InvAlways(states, events, k);
  }

  lemma CompleteStays(states: seq<State>, c: nat, k: nat)
    requires NoneGoesOut(states) && c <= k < |states| && Complete(states[c].facts)
    ensures StaysComplete(states, c, k)
    decreases k
  {
    if k == c {
    } else {
      CompleteStays(states, c, k - 1);
      SeenStillHolds([], states[k - 1].facts, states[k].facts);
    }
  }

  /**
   The pass the last first copy came in with, if its opening read did not fail,
   is on its way to say so; so exactly one mail is sent, ever, when it ends
   well in its process.
   */
  lemma ExactlyOneWhenWhole(states: seq<State>, events: seq<Event>, c: nat, k: nat)
    requires IsRun(states, events) && c < k < |states| && NoneGoesOut(states)
    requires events[c].Arrive? && !Complete(states[c].facts) && Complete(states[c + 1].facts)
    requires states[c].passes[events[c].p].whole
    ensures Way(states[c + 1], events[c].p) && !states[c + 1].said && states[c + 1].total == 0
    ensures EndedWell(states, events, c + 1, events[c].p, k) ==> states[k].total == 1
  {
    InvAlways(states, events, c);
    hide Complete;
    assert states[c + 1] == Next(states[c], events[c]);
    assert ReadHolds(states[c], states[c].passes[events[c].p]);
    CompleteStays(states, c + 1, k);
    MailIsSentExactly(states, events, c + 1, k);
  }

  // ---------------------------------------------------------------------
  // Where no mail is sent, and where one is sent too soon
  // ---------------------------------------------------------------------

  /** The owner's doors: a press stops or resumes one data type, and changes nothing else of its row. */
  ghost predicate IsByADoor(s: State, e: Event) {
    e.Press? ==>
      e.migration < |s.facts| &&
      exists d: nat, stop: bool :: StopsOrResumes(s.facts[e.migration], d, stop, e.types)
  }

  predicate StopsOrResumes(before: seq<DataType>, d: nat, stop: bool, after: seq<DataType>) {
    d < |before| && after == before[d := before[d].(stopped := stop)]
  }

  ghost predicate ByTheDoors(states: seq<State>, events: seq<Event>) {
    |events| < |states| && forall k :: 0 <= k < |events| ==> IsByADoor(states[k], events[k])
  }

  const COPIED := DataType(false, false, true)
  const MISSING := DataType(false, false, false)
  const STOPPED := DataType(false, true, false)

  lemma WhatIsIn()
    ensures IsIn([COPIED, STOPPED]) && IsIn([COPIED, COPIED]) && !IsIn([COPIED, MISSING])
  {
    assert COPIED in [COPIED, STOPPED] && COPIED in [COPIED, COPIED] && Counts(COPIED);
    assert MISSING in [COPIED, MISSING] && Counts(MISSING);
  }

  /** The second of two data types stopped, and resumed. */
  lemma TheDoors()
    ensures StopsOrResumes([COPIED, MISSING], 1, true, [COPIED, STOPPED])
    ensures StopsOrResumes([COPIED, STOPPED], 1, false, [COPIED, MISSING])
  {
  }

  /**
   The owner stops the one data type that was missing, between two passes:
   everything is in, the next pass finds it so as it begins, and says nothing.
   */
  lemma StoppedBetweenPasses() returns (states: seq<State>, events: seq<Event>)
    ensures IsRun(states, events) && |states| == 6 && ByTheDoors(states, events)
    ensures !Complete(states[0].facts) && events[0].Press? && Complete(states[1].facts) && NoneGoesOut(states)
    ensures states[5].passes == map[0 := Done(true)] && states[5].total == 0
  {
    WhatIsIn();
    TheDoors();
    hide IsIn;
    hide StopsOrResumes;
    var missing, settled := [[COPIED, MISSING]], [[COPIED, STOPPED]];
    assert !IsIn(missing[0]) && IsIn(settled[0]);
    assert missing[0 := [COPIED, STOPPED]] == settled;
    assert [] + [settled[0]] == settled;
    events := [Press(0, [COPIED, STOPPED]), Begin(0), ReadOne(0), ReadEnds(0), CopyEnds(0)];
    states := [
      State(missing, false, map[], 0, 0),
      State(settled, false, map[], 0, 0),
      State(settled, false, map[0 := ReadingBefore([])], 0, 0),
      State(settled, false, map[0 := ReadingBefore(settled)], 0, 0),
      State(settled, false, map[0 := Copying(Already, true)], 0, 0),
      State(settled, false, map[0 := Done(true)], 0, 0)];
  }

  /** A run through the owner's doors in which completeness stays, and where it has come to. */
  ghost predicate Reaches(states: seq<State>, events: seq<Event>, s: State) {
    IsRun(states, events) && ByTheDoors(states, events) && CompletenessStays(states) && states[|events|] == s
  }

  lemma Starts(s: State)
    requires Init(s)
    ensures Reaches([s], [], s)
  {
  }

  lemma Onwards(states: seq<State>, events: seq<Event>, s: State, e: Event, t: State)
    returns (states': seq<State>, events': seq<Event>)
    requires Reaches(states, events, s) && Can(s, e) && IsByADoor(s, e) && t == Next(s, e)
    requires Complete(s.facts) ==> Complete(t.facts)
    ensures Reaches(states', events', t) && states' == states + [t] && events' == events + [e]
  {
    hide Complete;
    hide IsByADoor;
    states', events' := states + [t], events + [e];
  }

  /** Two migrations, and what a reading of them in two halves sees. */
  const FIRST := [[COPIED, STOPPED], [COPIED, MISSING]]
  const NONE := [[COPIED, MISSING], [COPIED, MISSING]]
  const SECOND := [[COPIED, MISSING], [COPIED, STOPPED]]
  const TORN := [[COPIED, STOPPED], [COPIED, STOPPED]]
  const BOTH := [[COPIED, COPIED], [COPIED, STOPPED]]

  lemma WhatIsComplete()
    ensures !Complete(FIRST) && !Complete(NONE) && !Complete(SECOND) && Complete(TORN) && Complete(BOTH)
  {
    WhatIsIn();
    hide IsIn;
    assert !IsIn(FIRST[1]) && !IsIn(NONE[0]) && !IsIn(SECOND[0]);
    assert IsIn(TORN[0]) && IsIn(TORN[1]) && IsIn(BOTH[0]) && IsIn(BOTH[1]);
  }

  function Pass(facts: seq<seq<DataType>>, ph: Phase, mails: nat): State {
    State(facts, mails == 1, map[0 := ph], mails, mails)
  }

  /** A pass whose rows do not change reads both migrations, one after the other. */
  lemma ReadsBoth(states: seq<State>, events: seq<Event>, s: State, a: Phase, b: Phase, c: Phase)
    returns (states': seq<State>, events': seq<Event>)
    requires Reaches(states, events, s) && s.passes == map[0 := a] && |s.facts| == 2
    requires (a == ReadingBefore([]) && b == ReadingBefore(s.facts))
             || exists w :: a == ReadingAfter([], w) && b == ReadingAfter(s.facts, w)
    requires c == a.(seen := [s.facts[0]])
    ensures Reaches(states', events', s.(passes := map[0 := b]))
  {
    hide Reaches;
    hide Complete;
    var one, both := s.(passes := map[0 := c]), s.(passes := map[0 := b]);
    assert [] + [s.facts[0]] == [s.facts[0]] && [s.facts[0]] + [s.facts[1]] == s.facts;
    assert s.passes[0 := c] == map[0 := c] && one.passes[0 := b] == map[0 := b];
    states', events' := Onwards(states, events, s, ReadOne(0), one);
    states', events' := Onwards(states', events', one, ReadOne(0), both);
  }

  /** A process begins a pass that reads that something is missing. */
  lemma FindsMissing(states: seq<State>, events: seq<Event>, s: State)
    returns (states': seq<State>, events': seq<Event>)
    requires Reaches(states, events, s) && s.passes == map[] && !s.said && |s.facts| == 2 && !Complete(s.facts)
    ensures Reaches(states', events', s.(passes := map[0 := Copying(NotYet, true)]))
  {
    hide Reaches;
    hide Complete;
    var begun := s.(passes := map[0 := ReadingBefore([])]);
    states', events' := Onwards(states, events, s, Begin(0), begun);
    states', events' := ReadsBoth(states', events', begun, ReadingBefore([]), ReadingBefore(s.facts),
      ReadingBefore([s.facts[0]]));
    states', events' := Onwards(states', events', s.(passes := map[0 := ReadingBefore(s.facts)]), ReadEnds(0),
                                s.(passes := map[0 := Copying(NotYet, true)]));
  }

  /**
   Migrations are read one at a time. The owner resumes a data type of the
   first after it was read, and stops one of the second before it is: the pass
   reads both as in and says so, though never were both at once.
   */
  lemma ReadInTwoHalves() returns (states: seq<State>, events: seq<Event>)
    ensures Reaches(states, events, Pass(SECOND, Done(true), 1))
    ensures forall k :: 0 <= k < |states| ==> !Complete(states[k].facts)
  {
    WhatIsComplete();
    TheDoors();
    hide Complete;
    hide Reaches;
    hide StopsOrResumes;
    var s0 := State(FIRST, false, map[], 0, 0);
    states, events := [s0], [];
    Starts(s0);
    states, events := FindsMissing(states, events, s0);
    var after, half := ReadingAfter([], true), ReadingAfter([FIRST[0]], true);
    states, events := Onwards(states, events, Pass(FIRST, Copying(NotYet, true), 0), CopyEnds(0),
      Pass(FIRST, after, 0));
    assert [] + [FIRST[0]] == [FIRST[0]];
    states, events := Onwards(states, events, Pass(FIRST, after, 0), ReadOne(0), Pass(FIRST, half, 0));
    states, events := ReadsTheOtherHalf(states, events);
    hide CompletenessStays;
    NeverBefore(states, events, Pass(SECOND, Done(true), 1));
  }

  lemma ReadsTheOtherHalf(states: seq<State>, events: seq<Event>) returns (states': seq<State>, events': seq<Event>)
    requires Reaches(states, events, Pass(FIRST, ReadingAfter([FIRST[0]], true), 0))
    ensures Reaches(states', events', Pass(SECOND, Done(true), 1))
  {
    WhatIsComplete();
    TheDoors();
    hide Complete;
    hide Reaches;
    hide StopsOrResumes;
    var half, torn := ReadingAfter([FIRST[0]], true), ReadingAfter(TORN, true);
    assert FIRST[0] == [COPIED, STOPPED] && NONE[1] == [COPIED, MISSING];
    assert FIRST[0 := [COPIED, MISSING]] == NONE && NONE[1 := [COPIED, STOPPED]] == SECOND;
    assert [FIRST[0]] + [SECOND[1]] == TORN;
    states', events' := Onwards(states, events, Pass(FIRST, half, 0), Press(0, [COPIED, MISSING]), Pass(NONE, half, 0));
    states', events' := Onwards(states', events', Pass(NONE, half, 0), Press(1, [COPIED, STOPPED]),
      Pass(SECOND, half, 0));
    states', events' := Onwards(states', events', Pass(SECOND, half, 0), ReadOne(0), Pass(SECOND, torn, 0));
    states', events' := Onwards(states', events', Pass(SECOND, torn, 0), ReadEnds(0), Pass(SECOND, Done(true), 1));
  }

  /** Where completeness stays and is not there at the end, it never was. */
  lemma NeverBefore(states: seq<State>, events: seq<Event>, s: State)
    requires Reaches(states, events, s) && !Complete(s.facts)
    ensures forall k :: 0 <= k < |states| ==> !Complete(states[k].facts)
  {
    forall k | 0 <= k < |states|
      ensures !Complete(states[k].facts)
    {
      if Complete(states[k].facts) { StaysFrom(states, k, |events|); }
    }
  }

  /**
   And so there can be two mails though completeness, once there, stays: after
   a restart a pass finds something missing, copies the last of it, and says so
   again, this time truly.
   */
  lemma SaidTwice() returns (states: seq<State>, events: seq<Event>)
    ensures IsRun(states, events) && ByTheDoors(states, events) && CompletenessStays(states)
    ensures states[|events|].total == 2
  {
    states, events := ReadInTwoHalves();
    WhatIsComplete();
    hide Complete;
    hide IsByADoor;
    var said := Pass(SECOND, Done(true), 1);
    var again := State(SECOND, false, map[], 0, 1);
    var copying := again.(passes := map[0 := Copying(NotYet, true)]);
    var copied := copying.(facts := BOTH);
    var after := copied.(passes := map[0 := ReadingAfter([], true)]);
    var read := copied.(passes := map[0 := ReadingAfter(BOTH, true)]);
    hide Reaches;
    assert IsByADoor(said, Restart) && IsByADoor(copying, Arrive(0, 0, 1)) && IsByADoor(copied, CopyEnds(0))
           && IsByADoor(read, ReadEnds(0)) by { NoDoorNeeded(); }
    assert [COPIED, MISSING][1 := COPIED] == [COPIED, COPIED];
    assert SECOND[0 := SECOND[0][1 := COPIED]] == BOTH;
    states, events := Onwards(states, events, said, Restart, again);
    states, events := FindsMissing(states, events, again);
    states, events := Onwards(states, events, copying, Arrive(0, 0, 1), copied);
    states, events := Onwards(states, events, copied, CopyEnds(0), after);
    states, events := ReadsBoth(states, events, after, ReadingAfter([], true), ReadingAfter(BOTH, true),
      ReadingAfter([BOTH[0]], true));
    states, events := Onwards(states, events, read, ReadEnds(0), State(BOTH, true, map[0 := Done(true)], 1, 2));
    TheRun(states, events, State(BOTH, true, map[0 := Done(true)], 1, 2));
  }

  lemma NoDoorNeeded()
    ensures forall s: State, e: Event :: !e.Press? ==> IsByADoor(s, e)
  {
  }

  lemma TheRun(states: seq<State>, events: seq<Event>, s: State)
    requires Reaches(states, events, s)
    ensures IsRun(states, events) && ByTheDoors(states, events) && CompletenessStays(states) && states[|events|] == s
  {
  }
}
