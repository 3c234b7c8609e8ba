/**
  Concurrent calls on one upload (src/storage/multipart.rs). Each access through a map
  guard is one atomic step; between steps a call may be delayed, fail, or be dropped.
*/
module Interleaving {
  import opened Bytes
  import opened Multipart

  /** Where a call stands. A completion is in flight from claiming the upload to its last guard. */
  datatype Call =
    | StartComplete
    | Building            // claimed; assembling, then publishing
    | Restoring           // failed; about to mark the upload open again
    | Published           // object committed; about to mark the upload completed
    | Forgetting          // about to remove the session
    | CompletedOk
    | CompleteFailed
    | StartAbort
    | AbortPersisted      // the snapshot was open; about to store it as aborted
    | AbortStored         // about to delete the directory and remove the session
    | AbortedOk
    | StartPart
    | PartPublished       // part file renamed; about to record it
    | PartRecorded        // recorded; about to persist, or to roll the record back
    | Finished            // a part call that returned, or an abort that failed
    | Dropped

  /** The session's entry in the map (absent or with a state), and every call ever made. */
  datatype World = World(entry: Option<UploadState>, calls: seq<Call>)

  datatype Choice = Succeed | FailStep

  datatype Event = Begin(call: Call) | Advance(who: nat, choice: Choice) | Drop(who: nat)

  predicate Starting(c: Call) { c == StartComplete || c == StartAbort || c == StartPart }

  predicate InFlight(c: Call) { c == Building || c == Restoring || c == Published || c == Forgetting }

  predicate Returned(c: Call) {
    c == CompletedOk || c == CompleteFailed || c == AbortedOk || c == Finished || c == Dropped
  }

  /** The entry and the call after one guarded step of it. */
  function StepCall(entry: Option<UploadState>, c: Call, choice: Choice): (Option<UploadState>, Call) {
    match c
    // begin_completion: check and claim under one guard
    case StartComplete => if entry == Some(Open) then (Some(Completing), Building) else (entry, CompleteFailed)
    // persisting, validating, assembling, publishing: no guard; either may end it
    case Building => (entry, if choice == Succeed then Published else Restoring)
    // restore_open_upload: mark_upload_state(Open) on whatever entry is there
    case Restoring => (if entry.Some? then Some(Open) else None, CompleteFailed)
    case Published => (if entry.Some? then Some(Completed) else None, Forgetting)
    case Forgetting => (None, CompletedOk)
    // abort: a snapshot that is open, then an unconditional insert, then a remove
    case StartAbort => (entry, if entry == Some(Open) && choice == Succeed then AbortPersisted else Finished)
    case AbortPersisted => (Some(Aborted), AbortStored)
    case AbortStored => if choice == Succeed then (None, AbortedOk) else (entry, Finished)
    // commit_part: a snapshot that is open, then a guarded record, then perhaps its rollback
    case StartPart => (entry, if entry == Some(Open) && choice == Succeed then PartPublished else Finished)
    case PartPublished => (entry, if entry == Some(Open) then PartRecorded else Finished)
    case PartRecorded => (entry, Finished)
    case _ => (entry, c)
  }

  function Next(w: World, e: Event): World {
    match e
    case Begin(call) => if Starting(call) then w.(calls := w.calls + [call]) else w
    case Drop(who) =>
      if who < |w.calls| && !Returned(w.calls[who]) then w.(calls := w.calls[who := Dropped]) else w
    case Advance(who, choice) =>
      if who < |w.calls| then
        var (entry, call) := StepCall(w.entry, w.calls[who], choice);
        World(entry, w.calls[who := call])
      else w
  }

  function Run(w: World, events: seq<Event>): World
    decreases |events|
  {
    if events == [] then w else Run(Next(w, events[0]), events[1..])
  }

  const CREATED: World := World(Some(Open), [])

  // -------------------------------------------------------------------- invariant

  predicate SomeInFlight(calls: seq<Call>) { exists i :: 0 <= i < |calls| && InFlight(calls[i]) }

  predicate SomeOk(calls: seq<Call>) { exists i :: 0 <= i < |calls| && calls[i] == CompletedOk }

  /**
    The upload has one owner at a time: an open entry means no completion is in flight
    or has succeeded, no two are in flight together, and none is in flight beside or
    after one that succeeded.
  */
  predicate Exclusive(w: World) {
    && (w.entry == Some(Open) ==> !SomeInFlight(w.calls) && !SomeOk(w.calls))
    && (forall i, j :: 0 <= i < j < |w.calls| ==> !(InFlight(w.calls[i]) && InFlight(w.calls[j])))
    && (forall i, j :: 0 <= i < j < |w.calls| ==> !(w.calls[i] == CompletedOk && w.calls[j] == CompletedOk))
    && (SomeInFlight(w.calls) ==> !SomeOk(w.calls))
  }

  /** Every event keeps the invariant. */
  lemma NextKeepsExclusive(w: World, e: Event)
    requires Exclusive(w)
    ensures Exclusive(Next(w, e))
  {
    hide Exclusive, StepCall;
    match e
    case Begin(call) => BeginKeepsExclusive(w, call);
    case Drop(who) => DropKeepsExclusive(w, who);
    case Advance(who, choice) =>
      if who < |w.calls| { AdvanceKeepsExclusive(w, who, choice); }
  }

  lemma BeginKeepsExclusive(w: World, call: Call)
    requires Exclusive(w)
    ensures Exclusive(Next(w, Begin(call)))
  {
    hide StepCall;
    if Starting(call) {
      var after := Next(w, Begin(call)).calls;
      assert !InFlight(call) && call != CompletedOk && after[|w.calls|] == call;
      assert forall i :: 0 <= i < |w.calls| ==> after[i] == w.calls[i];
      hide InFlight;
      if SomeInFlight(after) { assert SomeInFlight(w.calls); }
      if SomeOk(after) { assert SomeOk(w.calls); }
    }
  }

  lemma DropKeepsExclusive(w: World, who: nat)
    requires Exclusive(w)
    ensures Exclusive(Next(w, Drop(who)))
  {
    hide StepCall;
    if who < |w.calls| && !Returned(w.calls[who]) {
      var after := Next(w, Drop(who)).calls;
      assert !InFlight(Dropped) && after == w.calls[who := Dropped];
      assert forall i :: 0 <= i < |w.calls| && i != who ==> after[i] == w.calls[i];
      hide InFlight;
      if SomeInFlight(after) { assert SomeInFlight(w.calls); }
      if SomeOk(after) { assert SomeOk(w.calls); }
    }
  }

  /** What one step can do: claim an open upload, return Ok from in flight, or give the upload back. */
  lemma StepFacts(entry: Option<UploadState>, c: Call, choice: Choice)
    ensures var (entry', c') := StepCall(entry, c, choice);
            && (InFlight(c') ==> InFlight(c) || (entry == Some(Open) && entry' != Some(Open)))
            && (c' == CompletedOk ==> c == CompletedOk || (InFlight(c) && entry' != Some(Open)))
            && (entry' == Some(Open) ==> entry == Some(Open) || (InFlight(c) && !InFlight(c') && c' != CompletedOk))
  {}

  lemma AdvanceKeepsExclusive(w: World, who: nat, choice: Choice)
    requires Exclusive(w) && who < |w.calls|
    ensures Exclusive(Next(w, Advance(who, choice)))
  {
    var w' := Next(w, Advance(who, choice));
    var before, after := w.calls[who], w'.calls[who];
    StepFacts(w.entry, before, choice);
    hide StepCall;
    assert forall i :: 0 <= i < |w.calls| && i != who ==> w'.calls[i] == w.calls[i];
    if InFlight(before) { assert SomeInFlight(w.calls); }
    if SomeInFlight(w'.calls) && !InFlight(after) {
      var i :| 0 <= i < |w'.calls| && InFlight(w'.calls[i]);
      assert InFlight(w.calls[i]);
    }
    if SomeOk(w'.calls) && after != CompletedOk {
      var i :| 0 <= i < |w'.calls| && w'.calls[i] == CompletedOk;
      assert w.calls[i] == CompletedOk;
    }
  }

  /**
    For any number of concurrent completions, aborts and part commits on one upload, in
    any order and with any of them failing or dropped midway: at most one completion is
    ever in flight, an open entry means none is, and at most one ever returns Ok.
  */
  lemma {:induction false} CompletionIsExclusive(w: World, events: seq<Event>)
    requires Exclusive(w)
    ensures Exclusive(Run(w, events))
    decreases |events|
  {
    if events != [] {
      NextKeepsExclusive(w, events[0]);
      CompletionIsExclusive(Next(w, events[0]), events[1..]);
    }
  }

  lemma CreatedUploadIsExclusive(events: seq<Event>)
    ensures Exclusive(Run(CREATED, events))
  {
    CompletionIsExclusive(CREATED, events);
  }

  /** Once a completion has returned Ok the upload is never open again. */
  lemma {:induction false} SuccessIsFinal(w: World, events: seq<Event>)
    requires Exclusive(w) && SomeOk(w.calls)
    ensures SomeOk(Run(w, events).calls) && Run(w, events).entry != Some(Open)
    decreases |events|
  {
    if events != [] {
      var next := Next(w, events[0]);
      NextKeepsExclusive(w, events[0]);
      var i :| 0 <= i < |w.calls| && w.calls[i] == CompletedOk;
      assert next.calls[i] == CompletedOk;
      SuccessIsFinal(next, events[1..]);
    }
  }

  // -------------------------------------------------- aborts against completions

  /** An abort past its snapshot: it will store Aborted, or forget the upload, whatever it then finds. */
  predicate Pending(c: Call) { c == AbortPersisted || c == AbortStored }

  predicate SomePending(calls: seq<Call>) { exists i :: 0 <= i < |calls| && Pending(calls[i]) }

  predicate SomeAborted(calls: seq<Call>) { exists i :: 0 <= i < |calls| && calls[i] == AbortedOk }

  /** No completion claims the upload in this step while an abort is pending. */
  predicate SerialStep(w: World, e: Event) {
    e.Advance? && e.who < |w.calls| && w.calls[e.who] == StartComplete && w.entry == Some(Open) ==>
        !SomePending(w.calls)
  }

  predicate Serial(w: World, events: seq<Event>)
    decreases |events|
  {
    events == [] || (SerialStep(w, events[0]) && Serial(Next(w, events[0]), events[1..]))
  }

  /** In a serial history an abort on its way, or done, excludes completions on their way, or done. */
  predicate Separated(w: World) {
    && Exclusive(w)
    && (SomePending(w.calls) ==> !SomeInFlight(w.calls) && !SomeOk(w.calls))
    && (SomeAborted(w.calls) ==> w.entry != Some(Open) && !SomeInFlight(w.calls) && !SomeOk(w.calls))
  }

  /** What a step changes in any of the four kinds of call can only be the call that moved. */
  lemma OnlyTheMover(calls: seq<Call>, who: nat, c: Call)
    requires who < |calls|
    ensures var after := calls[who := c];
            && (SomePending(after) ==> Pending(c) || SomePending(calls))
            && (SomeAborted(after) ==> c == AbortedOk || SomeAborted(calls))
            && (SomeInFlight(after) ==> InFlight(c) || SomeInFlight(calls))
            && (SomeOk(after) ==> c == CompletedOk || SomeOk(calls))
  {
    var after := calls[who := c];
    assert forall i :: 0 <= i < |calls| && i != who ==> after[i] == calls[i];
  }

  lemma SerialStepKeepsSeparated(w: World, e: Event)
    requires Separated(w) && SerialStep(w, e)
    ensures Separated(Next(w, e))
  {
    NextKeepsExclusive(w, e);
    hide Exclusive;
    match e
    case Begin(call) =>
      if Starting(call) {
        assert forall i :: 0 <= i < |w.calls| ==> Next(w, e).calls[i] == w.calls[i];
        assert Next(w, e).calls[|w.calls|] == call;
      }
    case Drop(who) =>
      if who < |w.calls| { OnlyTheMover(w.calls, who, Dropped); }
    case Advance(who, choice) =>
      if who < |w.calls| { AdvanceKeepsSeparated(w, who, choice); }
  }

  lemma AdvanceKeepsSeparated(w: World, who: nat, choice: Choice)
    requires Separated(w) && who < |w.calls| && SerialStep(w, Advance(who, choice))
    ensures var after := Next(w, Advance(who, choice));
            && (SomePending(after.calls) ==> !SomeInFlight(after.calls) && !SomeOk(after.calls))
            && (SomeAborted(after.calls) ==>
                 after.entry != Some(Open) && !SomeInFlight(after.calls) && !SomeOk(after.calls))
  {
    var before := w.calls[who];
    var after := StepCall(w.entry, before, choice).1;
    OnlyTheMover(w.calls, who, after);
    if InFlight(before) { assert SomeInFlight(w.calls); }
    if Pending(before) { assert SomePending(w.calls); }
    if before == CompletedOk { assert SomeOk(w.calls); }
    if before == AbortedOk { assert SomeAborted(w.calls); }
    hide SomeInFlight, SomePending, SomeOk, SomeAborted;
  }

  lemma {:induction false} SerialKeepsSeparated(w: World, events: seq<Event>)
    requires Separated(w) && Serial(w, events)
    ensures Separated(Run(w, events))
    decreases |events|
  {
    if events != [] {
      SerialStepKeepsSeparated(w, events[0]);
      SerialKeepsSeparated(Next(w, events[0]), events[1..]);
    }
  }

  predicate BothSucceed(w: World) { SomeOk(w.calls) && SomeAborted(w.calls) }

  /** While no completion claims the upload beside a pending abort, an abort and a completion never both succeed. */
  lemma SerialHistoriesPickOne(events: seq<Event>)
    requires Serial(CREATED, events)
    ensures !BothSucceed(Run(CREATED, events))
  {
    SerialKeepsSeparated(CREATED, events);
  }

  /** The completion runs to its end, then the abort to its end. */
  function Race(w: World, i: nat, j: nat): seq<Event>
    requires i < |w.calls| && j < |w.calls|
  {
    var a, b := Advance(i, Succeed), Advance(j, Succeed);
    [a] + ([a] + ([a] + ([a] + if w.calls[j] == AbortPersisted then [b] + ([b] + []) else [b] + [])))
  }

  /** From any claim beside a pending abort both can go on to succeed. */
  lemma RacingClaimMayLose(w: World, i: nat, j: nat)
    requires w.entry == Some(Open) && i < |w.calls| && j < |w.calls|
    requires w.calls[i] == StartComplete && Pending(w.calls[j])
    ensures BothSucceed(Run(w, Race(w, i, j)))
  {
    var a := Advance(i, Succeed);
    var w1 := Next(w, a);
    var w2 := Next(w1, a);
    var w3 := Next(w2, a);
    var w4 := Next(w3, a);
    assert w4.calls[i] == CompletedOk && w4.calls[j] == w.calls[j];
    var b := Advance(j, Succeed);
    var w5 := Next(w4, b);
    var w6 := if w.calls[j] == AbortPersisted then Next(w5, b) else w5;
    assert w6.calls[i] == CompletedOk && w6.calls[j] == AbortedOk;
    var last := if w.calls[j] == AbortPersisted then [b] + ([b] + []) else [b] + [];
    RunCons(w, a, [a] + ([a] + ([a] + last)));
    RunCons(w1, a, [a] + ([a] + last));
    RunCons(w2, a, [a] + last);
    RunCons(w3, a, last);
    hide Next;
    RunCons(w4, b, if w.calls[j] == AbortPersisted then [b] + [] else []);
    RunCons(w5, b, []);
    assert Run(w5, []) == w5 && Run(w6, []) == w6;
  }

  lemma RunCons(w: World, e: Event, rest: seq<Event>)
    ensures Run(w, [e] + rest) == Run(Next(w, e), rest)
  {
    assert ([e] + rest)[1..] == rest;
  }

  lemma {:induction false} RunAppend(w: World, a: seq<Event>, b: seq<Event>)
    ensures Run(w, a + b) == Run(Run(w, a), b)
    decreases |a|
  {
    if a == [] {
      assert a + b == b;
    } else {
      assert (a + b)[1..] == a[1..] + b;
      RunAppend(Next(w, a[0]), a[1..], b);
    }
  }

  /** The first step of a history that is not serial. */
  lemma {:induction false} FirstRace(w: World, events: seq<Event>) returns (k: nat)
    requires !Serial(w, events)
    ensures k < |events| && !SerialStep(Run(w, events[..k]), events[k])
    decreases |events|
  {
    if !SerialStep(w, events[0]) {
      k := 0;
    } else {
      var n := FirstRace(Next(w, events[0]), events[1..]);
      k := n + 1;
      assert events[..k][1..] == events[1..][..n];
    }
  }

  /** Every history that is not serial could have gone on, from some moment, to a double success. */
  lemma OtherHistoriesMayPickBoth(events: seq<Event>) returns (k: nat, more: seq<Event>)
    requires !Serial(CREATED, events)
    ensures k < |events| && BothSucceed(Run(CREATED, events[..k] + more))
  {
    k := FirstRace(CREATED, events);
    var w := Run(CREATED, events[..k]);
    var j :| 0 <= j < |w.calls| && Pending(w.calls[j]);
    more := Race(w, events[k].who, j);
    RacingClaimMayLose(w, events[k].who, j);
    RunAppend(CREATED, events[..k], more);
  }

  /** A shortest such history: the abort takes its snapshot, then the completion claims the upload. */
  lemma AbortAndCompletionMayBothSucceed()
    ensures var begun := [Begin(StartComplete), Begin(StartAbort), Advance(1, Succeed)];
            BothSucceed(Run(CREATED, begun + Race(World(Some(Open), [StartComplete, AbortPersisted]), 0, 1)))
  {
    var begun := [Begin(StartComplete), Begin(StartAbort), Advance(1, Succeed)];
    var w := World(Some(Open), [StartComplete, AbortPersisted]);
    assert begun[1..] == [Begin(StartAbort), Advance(1, Succeed)] && begun[1..][1..] == [Advance(1, Succeed)];
    assert Run(CREATED, begun) == w;
    RunAppend(CREATED, begun, Race(w, 0, 1));
    RacingClaimMayLose(w, 0, 1);
  }
}
