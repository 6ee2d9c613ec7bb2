/** StartupCache.cpp: a table, a zip file and its reader, shared by the main thread, a one-shot timer and a writer thread. */
module StartupCache {
  import opened Basics
  import opened LittleEndian

  type Id = string
  type Entries = map<Id, Bytes>

  /** The next thing a writer thread does. */
  datatype Thread = Starting | Opening | Adding(zip: Entries) | Closing(zip: Entries) | Loading | Finished

  datatype Op = Get(id: Id) | Put(id: Id, data: Bytes) | Invalidate | Shutdown | Destroy

  /** The main thread: in the event loop, in WaitOnWriteThread, behind it, or after the destructor. */
  datatype Main = Idle | Joining(op: Op) | Running(op: Op) | Gone

  /** What WriteToDisk works on. */
  datatype Store = Store(table: Entries, archive: Option<Entries>, disk: Option<Entries>, initiated: bool)

  /** threads: every writer ever created; handle: mWriteThread; armed: the timer is set. */
  datatype State = State(store: Store, armed: bool, shutdown: bool, main: Main, threads: seq<Thread>, handle: Option<nat>)

  /** Call: a call or observer notification reaches the cache; Join: the wait for the writer is over; Body: the rest of
      the call; Fire: WriteTimeout; Write: writer i takes its next step (id: the entry it comes to next). */
  datatype Event = Call(op: Op) | Join | Body(openFails: bool) | Fire | Write(i: nat, id: Id, openFails: bool)

  function Stored(disk: Option<Entries>): Entries {
    if disk.Some? then disk.value else map[]
  }

  /** AddEntryStream: an entry the zip already has is not replaced. */
  function AddEntry(zip: Entries, id: Id, data: Bytes): Entries {
    if id in zip then zip else zip[id := data]
  }

  /** WriteToDisk on one thread, start to end. */
  function Flush(s: Store, openFails: bool): Store {
    if s.table == map[] || openFails then s.(initiated := true)
    else
      var zip := s.table + Stored(s.disk);
      Store(map[], Some(zip), Some(zip), true)
  }

  /** The same, step by step. */
  function WriterStep(s: Store, t: Thread, id: Id, openFails: bool): Option<(Store, Thread)> {
    match t
    case Starting => Some((s.(initiated := true), if s.table == map[] then Finished else Opening))
    case Opening => Some((s, if openFails then Finished else Adding(Stored(s.disk))))
    case Adding(zip) =>
      if s.table == map[] then Some((s.(archive := None), Closing(zip)))
      else if id in s.table then Some((s.(table := s.table - {id}), Adding(AddEntry(zip, id, s.table[id]))))
      else None
    case Closing(zip) => Some((s.(disk := Some(zip)), Loading))
    case Loading => Some((s.(archive := s.disk), Finished))
    case Finished => None
  }

  /** Where GetBuffer looks last: the two omnijars. */
  function Fallback(id: Id, app: Entries, gre: Entries): Option<Bytes> {
    if id in app then Some(app[id]) else if id in gre then Some(gre[id]) else None
  }

  /** GetBuffer behind the wait: the table unless a write has been initiated, then the archive, then the two omnijars. */
  function Answer(s: Store, id: Id, app: Entries, gre: Entries): Option<Bytes> {
    if !s.initiated && id in s.table then Some(s.table[id])
    else if id in Stored(s.archive) then Some(Stored(s.archive)[id])
    else Fallback(id, app, gre)
  }

  /** Behind the wait. */
  function Finish(s: State, op: Op, openFails: bool): State {
    match op
    case Get(_) => s.(main := Idle)
    case Put(id, data) =>
      if s.shutdown then s.(main := Idle)
      else s.(store := s.store.(table := s.store.table[id := data], initiated := false), armed := true, main := Idle)
    case Invalidate => s.(store := s.store.(table := map[], archive := None, disk := None), main := Idle)
    case Shutdown => s.(shutdown := true, main := Idle)
    case Destroy => s.(store := Flush(s.store, openFails), main := Gone)
  }

  /** None: the event cannot happen now. */
  function Step(s: State, e: Event): Option<State> {
    match e
    case Call(op) =>
      if s.main != Idle then None
      else Some(s.(main := Joining(op), armed := s.armed && !op.Destroy?))
    case Join =>
      if !s.main.Joining? then None
      else if s.handle.None? then Some(s.(main := Running(s.main.op)))
      else if s.handle.value < |s.threads| && s.threads[s.handle.value].Finished? then
        Some(s.(main := Running(s.main.op), handle := None))
      else None
    case Body(openFails) => if s.main.Running? then Some(Finish(s, s.main.op, openFails)) else None
    case Fire =>
      if s.main != Idle || !s.armed then None
      else Some(s.(armed := false, threads := s.threads + [Starting], handle := Some(|s.threads|)))
    case Write(i, id, openFails) =>
      if i >= |s.threads| then None
      else
        match WriterStep(s.store, s.threads[i], id, openFails)
        case None => None
        case Some((store, t)) => Some(s.(store := store, threads := s.threads[i := t]))
  }

  function Run(s: State, events: seq<Event>): Option<State> {
    if events == [] then Some(s)
    else
      match Run(s, events[..|events| - 1])
      case None => None
      case Some(s') => Step(s', events[|events| - 1])
  }

  /** Behind Init: the archive is the file, if there is one that can be read. */
  function Start(disk: Option<Entries>): State {
    State(Store(map[], disk, disk, false), false, false, Idle, [], None)
  }

  // ---------- what the cache is meant to hold ----------

  /** The plain map behind the cache: put adds, invalidate empties, nothing else changes it. */
  function Apply(c: Entries, s: State, e: Event): Entries {
    if e.Body? && s.main.Running? then
      match s.main.op
      case Put(id, data) => if s.shutdown then c else c[id := data]
      case Invalidate => map[]
      case _ => c
    else c
  }

  function Contents(s: State, c: Entries, events: seq<Event>): Entries {
    if events == [] then c
    else
      var before := events[..|events| - 1];
      var r := Run(s, before);
      if r.Some? then Apply(Contents(s, c, before), r.value, events[|events| - 1]) else Contents(s, c, before)
  }

  /** No id is put while the cache has it. */
  ghost predicate DistinctPuts(s: State, c: Entries, events: seq<Event>) {
    forall n :: 0 <= n < |events| ==> NewPut(Run(s, events[..n]), Contents(s, c, events[..n]), events[n])
  }

  predicate NewPut(r: Option<State>, c: Entries, e: Event) {
    r.Some? && e.Body? && r.value.main.Running? && r.value.main.op.Put? ==> r.value.main.op.id !in c
  }

  // ---------- the invariant ----------

  /** The writer at work, if any. */
  function Live(s: State): Thread {
    if s.handle.Some? && s.handle.value < |s.threads| then s.threads[s.handle.value] else Finished
  }

  /** What is, or is about to be, in the file. */
  function Base(s: State): Entries {
    match Live(s)
    case Adding(zip) => zip
    case Closing(zip) => zip
    case _ => Stored(s.store.disk)
  }

  function Held(s: State): Entries {
    Base(s) + s.store.table
  }

  /** Only the thread in mWriteThread can be running, and none is while the timer is set or the main thread works. */
  ghost predicate Disciplined(s: State) {
    && (s.handle.Some? ==> s.handle.value < |s.threads|)
    && (forall i :: 0 <= i < |s.threads| && !s.threads[i].Finished? ==> s.handle == Some(i))
    && (s.armed || s.main.Running? || s.main.Gone? ==> s.handle.None?)
  }

  ghost predicate Invariant(s: State) {
    && Disciplined(s)
    // No entry is both in the table and in the file.
    && s.store.table.Keys !! Base(s).Keys
    && (Live(s).Closing? || Live(s).Loading? ==> s.store.table == map[])
    && (Live(s).Adding? ==> Stored(s.store.disk).Items <= Live(s).zip.Items)
    // The reader's view is the file, but between the end of a write and the reload.
    && s.store.archive == (if Live(s).Closing? || Live(s).Loading? then None else s.store.disk)
  }

  lemma StartInvariant(disk: Option<Entries>)
    ensures Invariant(Start(disk)) && Held(Start(disk)) == Stored(disk)
  {
  }

  lemma WriteKeeps(s: State, i: nat, id: Id, openFails: bool)
    requires Invariant(s) && Step(s, Write(i, id, openFails)).Some?
    ensures var s' := Step(s, Write(i, id, openFails)).value; Invariant(s') && Held(s') == Held(s)
  {
    var s' := Step(s, Write(i, id, openFails)).value;
    assert s.handle == Some(i);
    var t := s.threads[i];
    if t.Adding? && s.store.table != map[] {
      assert id !in t.zip;
      assert Held(s') == Held(s);
    }
  }

  lemma FlushKeeps(s: Store, openFails: bool)
    requires s.table.Keys !! Stored(s.disk).Keys && s.archive == s.disk
    ensures var s' := Flush(s, openFails);
            && s'.archive == s'.disk && s'.table.Keys !! Stored(s'.disk).Keys
            && Stored(s'.disk) + s'.table == Stored(s.disk) + s.table
            && (!openFails ==> s'.table == map[])
  {
    if s.table == map[] || openFails {
    } else {
      assert s.table + Stored(s.disk) == Stored(s.disk) + s.table;
    }
  }

  lemma BodyKeeps(s: State, c: Entries, openFails: bool)
    requires Invariant(s) && Held(s) == c && s.main.Running? && NewPut(Some(s), c, Body(openFails))
    ensures var s' := Finish(s, s.main.op, openFails); Invariant(s') && Held(s') == Apply(c, s, Body(openFails))
  {
    if s.main.op.Destroy? {
      FlushKeeps(s.store, openFails);
    } else if s.main.op.Put? && !s.shutdown {
      assert Held(Finish(s, s.main.op, openFails)) == c[s.main.op.id := s.main.op.data];
    }
  }

  /** Every step keeps the invariant, and does to what the cache holds what it does to the plain map. */
  lemma StepKeeps(s: State, c: Entries, e: Event)
    requires Invariant(s) && Held(s) == c && Step(s, e).Some? && NewPut(Some(s), c, e)
    ensures var s' := Step(s, e).value; Invariant(s') && Held(s') == Apply(c, s, e)
  {
    hide Flush, WriterStep;
    match e
    case Write(i, id, openFails) => WriteKeeps(s, i, id, openFails);
    case Body(openFails) => BodyKeeps(s, c, openFails);
    case Join => JoinKeeps(s);
    case Fire => FireKeeps(s);
    case Call(_) =>
  }

  lemma JoinKeeps(s: State)
    requires Invariant(s) && Step(s, Join).Some?
    ensures var s' := Step(s, Join).value; Invariant(s') && Held(s') == Held(s)
  {
  }

  lemma FireKeeps(s: State)
    requires Invariant(s) && Step(s, Fire).Some?
    ensures var s' := Step(s, Fire).value; Invariant(s') && Held(s') == Held(s)
  {
    var s' := Step(s, Fire).value;
    assert Live(s') == Starting && Live(s) == Finished;
  }

  // ---------- over every run ----------

  lemma {:induction false} RunKeeps(disk: Option<Entries>, events: seq<Event>)
    requires Run(Start(disk), events).Some? && DistinctPuts(Start(disk), Stored(disk), events)
    ensures var s := Run(Start(disk), events).value;
            Invariant(s) && Held(s) == Contents(Start(disk), Stored(disk), events)
  {
    hide Invariant, Step, Held, Apply, NewPut;
    var s0, c0 := Start(disk), Stored(disk);
    if events == [] {
      StartInvariant(disk);
    } else {
      var n := |events| - 1;
      forall k | 0 <= k < n
        ensures NewPut(Run(s0, events[..n][..k]), Contents(s0, c0, events[..n][..k]), events[..n][k])
      {
        assert events[..n][..k] == events[..k];
        assert NewPut(Run(s0, events[..k]), Contents(s0, c0, events[..k]), events[k]);
      }
      RunKeeps(disk, events[..n]);
      assert NewPut(Run(s0, events[..n]), Contents(s0, c0, events[..n]), events[n]);
      StepKeeps(Run(s0, events[..n]).value, Contents(s0, c0, events[..n]), events[n]);
    }
  }

  lemma StepDisciplined(s: State, e: Event)
    requires Disciplined(s) && Step(s, e).Some?
    ensures Disciplined(Step(s, e).value)
  {
    hide Flush;
  }

  lemma {:induction false} RunDisciplined(disk: Option<Entries>, events: seq<Event>)
    requires Run(Start(disk), events).Some?
    ensures Disciplined(Run(Start(disk), events).value)
  {
    hide Step;
    if events != [] {
      var n := |events| - 1;
      RunDisciplined(disk, events[..n]);
      StepDisciplined(Run(Start(disk), events[..n]).value, events[n]);
    }
  }

  /** There is never more than one writer, none while the main thread is behind its wait, and none while the timer
      is set: the table is never in two hands. */
  lemma OneWriter(disk: Option<Entries>, events: seq<Event>, i: nat, j: nat)
    requires Run(Start(disk), events).Some?
    requires var s := Run(Start(disk), events).value; i < |s.threads| && j < |s.threads|
    ensures var s := Run(Start(disk), events).value;
            && (!s.threads[i].Finished? && !s.threads[j].Finished? ==> i == j)
            && (!s.threads[i].Finished? ==> !s.main.Running? && !s.main.Gone? && !s.armed)
  {
    RunDisciplined(disk, events);
  }

  // ---------- shutdown and the timer ----------

  /** Event n is the body of this call. */
  ghost predicate Done(disk: Option<Entries>, events: seq<Event>, n: nat, op: Op) {
    n < |events| && events[n].Body? && Run(Start(disk), events[..n]).Some? && Run(Start(disk), events[..n]).value.main == Running(op)
  }

  ghost predicate HasShutDown(disk: Option<Entries>, events: seq<Event>) {
    exists n :: Done(disk, events, n, Shutdown)
  }

  lemma DoneBefore(disk: Option<Entries>, events: seq<Event>, m: nat, n: nat, op: Op)
    requires m <= |events|
    ensures Done(disk, events[..m], n, op) <==> n < m && Done(disk, events, n, op)
  {
    if n < m { assert events[..m][..n] == events[..n]; }
  }

  lemma StepShutdown(s: State, e: Event)
    requires Step(s, e).Some?
    ensures Step(s, e).value.shutdown <==> s.shutdown || (e.Body? && s.main == Running(Shutdown))
  {
  }

  /** The cache refuses puts exactly from the end of a shutdown notification on. */
  lemma {:induction false} ShutdownIff(disk: Option<Entries>, events: seq<Event>)
    requires Run(Start(disk), events).Some?
    ensures Run(Start(disk), events).value.shutdown <==> HasShutDown(disk, events)
  {
    hide Step, Done;
    if events == [] {
      forall n ensures !Done(disk, events, n, Shutdown) { NoneDone(disk, events, n); }
    } else {
      var m := |events| - 1;
      ShutdownIff(disk, events[..m]);
      StepShutdown(Run(Start(disk), events[..m]).value, events[m]);
      forall n: nat ensures Done(disk, events[..m], n, Shutdown) <==> n < m && Done(disk, events, n, Shutdown) {
        DoneBefore(disk, events, m, n, Shutdown);
      }
      LastDone(disk, events, Shutdown);
      if n :| Done(disk, events, n, Shutdown) { DoneInside(disk, events, n, Shutdown); }
    }
  }

  lemma NoneDone(disk: Option<Entries>, events: seq<Event>, n: nat)
    requires events == []
    ensures !Done(disk, events, n, Shutdown)
  {
  }

  lemma DoneInside(disk: Option<Entries>, events: seq<Event>, n: nat, op: Op)
    requires Done(disk, events, n, op)
    ensures n < |events|
  {
  }

  lemma LastDone(disk: Option<Entries>, events: seq<Event>, op: Op)
    requires Run(Start(disk), events).Some? && events != []
    ensures var m := |events| - 1;
            Done(disk, events, m, op) <==> events[m].Body? && Run(Start(disk), events[..m]).value.main == Running(op)
  {
    hide Step;
  }

  /** A put that event n has ended is still to be written: the cache had not shut down, and since then the timer has not
      fired nor the destructor been called. */
  ghost predicate Waits(disk: Option<Entries>, events: seq<Event>, n: nat) {
    && n < |events| && !HasShutDown(disk, events[..n])
    && (exists id, data :: Done(disk, events, n, Put(id, data)))
    && forall k :: n < k < |events| ==> !Stops(events[k])
  }

  predicate Stops(e: Event) {
    e == Fire || e == Call(Destroy)
  }

  ghost predicate WriteDue(disk: Option<Entries>, events: seq<Event>) {
    exists n :: Waits(disk, events, n)
  }

  lemma StepArmed(s: State, e: Event)
    requires Step(s, e).Some?
    ensures Step(s, e).value.armed <==>
              (e.Body? && s.main.Running? && s.main.op.Put? && !s.shutdown) || (s.armed && !Stops(e))
  {
  }

  lemma WaitsBefore(disk: Option<Entries>, events: seq<Event>, n: nat)
    requires events != [] && n < |events| - 1
    ensures Waits(disk, events, n) <==> Waits(disk, events[..|events| - 1], n) && !Stops(events[|events| - 1])
  {
    hide Done, HasShutDown;
    var m := |events| - 1;
    var before := events[..m];
    assert before[..n] == events[..n];
    forall op ensures Done(disk, before, n, op) <==> Done(disk, events, n, op) { DoneBefore(disk, events, m, n, op); }
    if Waits(disk, before, n) && !Stops(events[m]) {
      forall k | n < k < |events| ensures !Stops(events[k]) { if k < m { assert before[k] == events[k]; } }
    }
    if Waits(disk, events, n) {
      forall k | n < k < m ensures !Stops(before[k]) { assert before[k] == events[k]; }
    }
  }

  lemma WaitsLast(disk: Option<Entries>, events: seq<Event>)
    requires Run(Start(disk), events).Some? && events != []
    ensures var m := |events| - 1;
            var s := Run(Start(disk), events[..m]).value;
            Waits(disk, events, m) <==> events[m].Body? && s.main.Running? && s.main.op.Put? && !s.shutdown
  {
    hide Step, Done, HasShutDown;
    var m := |events| - 1;
    var s := Run(Start(disk), events[..m]).value;
    ShutdownIff(disk, events[..m]);
    forall op ensures Done(disk, events, m, op) <==> events[m].Body? && s.main == Running(op) { LastDone(disk, events, op); }
    if events[m].Body? && s.main.Running? && s.main.op.Put? { assert s.main == Running(Put(s.main.op.id, s.main.op.data)); }
  }

  /** The timer is set exactly if a put is still to be written: no put is forgotten, and nothing else starts a write. */
  lemma {:induction false} ArmedIff(disk: Option<Entries>, events: seq<Event>)
    requires Run(Start(disk), events).Some?
    ensures Run(Start(disk), events).value.armed <==> WriteDue(disk, events)
  {
    hide Step, Waits;
    if events == [] {
      forall n: nat ensures !Waits(disk, events, n) { NoneWaits(disk, events, n); }
    } else {
      var m := |events| - 1;
      ArmedIff(disk, events[..m]);
      StepArmed(Run(Start(disk), events[..m]).value, events[m]);
      WaitsLast(disk, events);
      forall n: nat | n < m
        ensures Waits(disk, events, n) <==> Waits(disk, events[..m], n) && !Stops(events[m])
      {
        WaitsBefore(disk, events, n);
      }
      if n: nat :| Waits(disk, events, n) { WaitsInside(disk, events, n); }
      if n: nat :| Waits(disk, events[..m], n) { WaitsInside(disk, events[..m], n); }
    }
  }

  lemma NoneWaits(disk: Option<Entries>, events: seq<Event>, n: nat)
    requires events == []
    ensures !Waits(disk, events, n)
  {
  }

  lemma WaitsInside(disk: Option<Entries>, events: seq<Event>, n: nat)
    requires Waits(disk, events, n)
    ensures n < |events|
  {
  }

  /** Behind the wait a get finds what was put since the last invalidation, or was in the file: exactly unless a write
      was initiated and the entry is still in the table. */
  lemma GetFinds(disk: Option<Entries>, events: seq<Event>, id: Id, app: Entries, gre: Entries)
    requires Run(Start(disk), events).Some? && DistinctPuts(Start(disk), Stored(disk), events)
    requires Run(Start(disk), events).value.main == Running(Get(id))
    ensures var s := Run(Start(disk), events).value;
            var c := Contents(Start(disk), Stored(disk), events);
            && (!(s.store.initiated && id in s.store.table) ==>
                 Answer(s.store, id, app, gre) == if id in c then Some(c[id]) else Fallback(id, app, gre))
            && (s.store.initiated && id in s.store.table ==> id in c && Answer(s.store, id, app, gre) == Fallback(id, app, gre))
  {
    RunKeeps(disk, events);
  }

  lemma RunOn(s: State, events: seq<Event>, e: Event)
    ensures Run(s, events + [e]) == match Run(s, events) case None => None case Some(t) => Step(t, e)
  {
    assert (events + [e])[..|events|] == events;
  }

  lemma {:induction false} RunAppend(s: State, a: seq<Event>, b: seq<Event>)
    requires Run(s, a).Some?
    ensures Run(s, a + b) == Run(Run(s, a).value, b)
    decreases |b|
  {
    hide Step;
    if b == [] {
      assert a + b == a;
    } else {
      var n := |b| - 1;
      RunAppend(s, a, b[..n]);
      assert a + b == a + b[..n] + [b[n]] && b == b[..n] + [b[n]];
      RunOn(s, a + b[..n], b[n]);
    }
  }

  /** A put, and a write whose zip cannot be opened, up to the next get. */
  function HiddenPut(id: Id, data: Bytes): seq<Event> {
    [Call(Put(id, data)), Join, Body(false), Fire, Write(0, id, false), Write(0, id, true), Call(Get(id)), Join]
  }

  /** The exception in GetFinds happens: behind that run the get falls back to the omnijars. */
  lemma HiddenPutIsNotFound(id: Id, data: Bytes, app: Entries, gre: Entries)
    ensures var events := HiddenPut(id, data);
            var r := Run(Start(None), events);
            && r.Some? && r.value.main == Running(Get(id)) && r.value.store.initiated && r.value.store.table == map[id := data]
            && Answer(r.value.store, id, app, gre) == Fallback(id, app, gre)
  {
    hide Run, Flush;
    var e := HiddenPut(id, data);
    var store := Store(map[id := data], None, None, false);
    var s3 := State(store, true, false, Idle, [], None);
    var s4 := State(store, false, false, Idle, [Starting], Some(0));
    var s6 := State(store.(initiated := true), false, false, Idle, [Finished], Some(0));
    PutRuns(Start(None), id, data);
    assert Run(Start(None), e[..3]) == Some(s3) by { assert e[..3] == [Call(Put(id, data)), Join, Body(false)]; }
    var s5 := s4.(store := s6.store, threads := [Opening]);
    assert id in store.table;
    assert s3.threads + [Starting] == [Starting] && s4.threads[..0] + [Opening] == [Opening] && s5.threads[..0] + [Finished] == [Finished];
    Fires(s3);
    WriterMoves(s4, id, 0, false, s6.store, Opening);
    WriterMoves(s5, id, 0, true, s6.store, Finished);
    assert Run(Start(None), e[..6]) == Some(s6) by {
      assert e[..6] == e[..3] + [Fire] + [Write(0, id, false)] + [Write(0, id, true)];
      RunOn(Start(None), e[..3], Fire);
      RunOn(Start(None), e[..3] + [Fire], Write(0, id, false));
      RunOn(Start(None), e[..3] + [Fire] + [Write(0, id, false)], Write(0, id, true));
    }
    assert e == e[..6] + [Call(Get(id))] + [Join];
    RunOn(Start(None), e[..6], Call(Get(id)));
    RunOn(Start(None), e[..6] + [Call(Get(id))], Join);
  }

  lemma PutRuns(s: State, id: Id, data: Bytes)
    requires s.main == Idle && !s.shutdown
    requires s.handle.Some? ==> s.handle.value < |s.threads| && s.threads[s.handle.value].Finished?
    ensures Run(s, [Call(Put(id, data)), Join, Body(false)]) ==
            Some(s.(store := s.store.(table := s.store.table[id := data], initiated := false), armed := true, handle := None))
  {
    hide Run, Flush;
    NothingRun(s);
    RunOn(s, [], Call(Put(id, data)));
    RunOn(s, [Call(Put(id, data))], Join);
    RunOn(s, [Call(Put(id, data)), Join], Body(false));
    assert [] + [Call(Put(id, data))] == [Call(Put(id, data))];
    assert [Call(Put(id, data))] + [Join] == [Call(Put(id, data)), Join];
    assert [Call(Put(id, data)), Join] + [Body(false)] == [Call(Put(id, data)), Join, Body(false)];
  }

  lemma NothingRun(s: State)
    ensures Run(s, []) == Some(s)
  {
  }

  /** If the zip can always be opened, a write leaves nothing in the table. */
  ghost predicate AlwaysOpens(events: seq<Event>) {
    forall n :: 0 <= n < |events| ==> Opens(events[n])
  }

  predicate Opens(e: Event) {
    match e
    case Body(fails) => !fails
    case Write(_, _, fails) => !fails
    case _ => true
  }

  ghost predicate WrittenOut(s: State) {
    s.store.initiated && Live(s).Finished? ==> s.store.table == map[]
  }

  lemma StepWritesOut(s: State, e: Event)
    requires Invariant(s) && WrittenOut(s) && Step(s, e).Some? && Opens(e)
    ensures WrittenOut(Step(s, e).value)
  {
  }

  lemma {:induction false} RunWritesOut(disk: Option<Entries>, events: seq<Event>)
    requires Run(Start(disk), events).Some? && DistinctPuts(Start(disk), Stored(disk), events) && AlwaysOpens(events)
    ensures WrittenOut(Run(Start(disk), events).value)
  {
    hide Step, Invariant, WrittenOut, NewPut;
    if events == [] {
      StartWrittenOut(disk);
    } else {
      var n := |events| - 1;
      DistinctBefore(disk, events, n);
      assert AlwaysOpens(events[..n]) && Opens(events[n]);
      RunWritesOut(disk, events[..n]);
      RunKeeps(disk, events[..n]);
      StepWritesOut(Run(Start(disk), events[..n]).value, events[n]);
    }
  }

  lemma StartWrittenOut(disk: Option<Entries>)
    ensures WrittenOut(Start(disk))
  {
  }

  lemma DistinctBefore(disk: Option<Entries>, events: seq<Event>, n: nat)
    requires n <= |events| && DistinctPuts(Start(disk), Stored(disk), events)
    ensures DistinctPuts(Start(disk), Stored(disk), events[..n])
  {
    hide NewPut;
    var s0, c0 := Start(disk), Stored(disk);
    forall k | 0 <= k < n
      ensures NewPut(Run(s0, events[..n][..k]), Contents(s0, c0, events[..n][..k]), events[..n][k])
    {
      assert events[..n][..k] == events[..k];
      assert NewPut(Run(s0, events[..k]), Contents(s0, c0, events[..k]), events[k]);
    }
  }

  /** While the zip can be opened, every get finds what was put. */
  lemma GetAlwaysFinds(disk: Option<Entries>, events: seq<Event>, id: Id, app: Entries, gre: Entries)
    requires Run(Start(disk), events).Some? && DistinctPuts(Start(disk), Stored(disk), events) && AlwaysOpens(events)
    requires Run(Start(disk), events).value.main == Running(Get(id)) && id in Contents(Start(disk), Stored(disk), events)
    ensures Answer(Run(Start(disk), events).value.store, id, app, gre) ==
            Some(Contents(Start(disk), Stored(disk), events)[id])
  {
    RunKeeps(disk, events);
    RunWritesOut(disk, events);
  }

  /** The destructor leaves in the file all that the cache held, whatever the timer and the writer had got to. */
  lemma DestroyWritesAll(disk: Option<Entries>, events: seq<Event>)
    requires Run(Start(disk), events).Some? && DistinctPuts(Start(disk), Stored(disk), events)
    requires Run(Start(disk), events).value.main == Running(Destroy)
    ensures var s := Step(Run(Start(disk), events).value, Body(false)).value;
            Stored(s.store.disk) == Contents(Start(disk), Stored(disk), events) && s.store.table == map[] && s.main.Gone?
  {
    hide Step, Held, Invariant;
    RunKeeps(disk, events);
    DestroyWrites(Run(Start(disk), events).value, Contents(Start(disk), Stored(disk), events));
  }

  lemma DestroyWrites(s: State, c: Entries)
    requires Invariant(s) && Held(s) == c && s.main == Running(Destroy)
    ensures var r := Step(s, Body(false));
            r.Some? && Stored(r.value.store.disk) == c && r.value.store.table == map[] && r.value.main.Gone?
  {
    hide Flush;
    FlushKeeps(s.store, false);
    var s' := Flush(s.store, false);
    assert Stored(s'.disk) + s'.table == Stored(s'.disk);
  }

  lemma MoveEntry<K, V>(table: map<K, V>, zip: map<K, V>, id: K)
    requires id in table
    ensures table - {id} + (if id in zip then zip else zip[id := table[id]]) == table + zip
  {
    if id in zip {
      assert table - {id} + zip == table + zip;
    } else {
      assert table - {id} + zip[id := table[id]] == table + zip;
    }
  }

  lemma OneFewer<K, V>(table: map<K, V>, id: K)
    requires id in table
    ensures |table - {id}| < |table|
  {
    var left := table - {id};
    assert left.Keys == table.Keys - {id};
    assert |left| == |left.Keys| && |table| == |table.Keys|;
  }

  /** Putting an id again that is in the file: after the next write the file's bytes are back. */
  lemma PutAgainSeenIff(s: Store, id: Id, app: Entries, gre: Entries)
    requires s.archive == s.disk && id in s.table
    ensures Answer(Flush(s, false), id, app, gre) == Some(s.table[id]) <==>
            (id in Stored(s.disk) ==> Stored(s.disk)[id] == s.table[id])
  {
    if id in Stored(s.disk) { assert (s.table + Stored(s.disk))[id] == Stored(s.disk)[id]; }
  }

  /** A put and a whole write by writer i. */
  function PutCycle(id: Id, data: Bytes, i: nat): seq<Event> {
    [Call(Put(id, data)), Join, Body(false)] + WriteCycle(id, i)
  }

  function WriteCycle(id: Id, i: nat): seq<Event> {
    [Fire] + [Write(i, id, false)] + [Write(i, id, false)] + [Write(i, id, false)] + [Write(i, id, false)]
    + [Write(i, id, false)] + [Write(i, id, false)]
  }

  lemma WriteCycleRuns(s: State, id: Id, data: Bytes)
    requires s.main == Idle && s.armed && s.handle == None && s.store.table == map[id := data] && !s.store.initiated
    ensures var zip := AddEntry(Stored(s.store.disk), id, data);
            Run(s, WriteCycle(id, |s.threads|)) ==
            Some(s.(store := Store(map[], Some(zip), Some(zip), true), armed := false, threads := s.threads + [Finished],
                    handle := Some(|s.threads|)))
  {
    hide Run, Flush, Step;
    var i, w, zip := |s.threads|, Write(|s.threads|, id, false), AddEntry(Stored(s.store.disk), id, data);
    var f := s.(armed := false, threads := s.threads + [Starting], handle := Some(i));
    NothingRun(s);
    Fires(s);
    RunOn(s, [], Fire);
    assert [] + [Fire] == [Fire];
    assert id in s.store.table;
    WriterMoves(f, id, i, false, s.store.(initiated := true), Opening);
    RunOn(s, [Fire], w);
    var f1 := f.(store := s.store.(initiated := true), threads := s.threads + [Opening]);
    WriterMoves(f1, id, i, false, f1.store, Adding(Stored(s.store.disk)));
    RunOn(s, [Fire] + [w], w);
    var f2 := f1.(threads := s.threads + [Adding(Stored(s.store.disk))]);
    assert map[id := data] - {id} == map[];
    WriterMoves(f2, id, i, false, f2.store.(table := map[]), Adding(zip));
    RunOn(s, [Fire] + [w] + [w], w);
    var f3 := f2.(store := f2.store.(table := map[]), threads := s.threads + [Adding(zip)]);
    WriterMoves(f3, id, i, false, f3.store.(archive := None), Closing(zip));
    RunOn(s, [Fire] + [w] + [w] + [w], w);
    var f4 := f3.(store := f3.store.(archive := None), threads := s.threads + [Closing(zip)]);
    WriterMoves(f4, id, i, false, f4.store.(disk := Some(zip)), Loading);
    RunOn(s, [Fire] + [w] + [w] + [w] + [w], w);
    var f5 := f4.(store := f4.store.(disk := Some(zip)), threads := s.threads + [Loading]);
    WriterMoves(f5, id, i, false, f5.store.(archive := Some(zip)), Finished);
    RunOn(s, [Fire] + [w] + [w] + [w] + [w] + [w], w);
  }

  lemma Fires(s: State)
    requires s.main == Idle && s.armed
    ensures Step(s, Fire) == Some(s.(armed := false, threads := s.threads + [Starting], handle := Some(|s.threads|)))
  {
  }

  /** A step of the last writer. */
  lemma WriterMoves(s: State, id: Id, i: nat, openFails: bool, store: Store, t: Thread)
    requires i + 1 == |s.threads| && WriterStep(s.store, s.threads[i], id, openFails) == Some((store, t))
    ensures Step(s, Write(i, id, openFails)) == Some(s.(store := store, threads := s.threads[..i] + [t]))
  {
    assert s.threads[i := t] == s.threads[..i] + [t];
  }

  /** The failing case of PutAgainSeenIff happens: an id put, written, put again and written comes back with the first
      bytes. */
  lemma PutAgainIsLost(id: Id, data: Bytes, data': Bytes, app: Entries, gre: Entries)
    ensures var r := Run(Start(None), PutCycle(id, data, 0) + PutCycle(id, data', 1) + [Call(Get(id))] + [Join]);
            r.Some? && r.value.main == Running(Get(id)) && Answer(r.value.store, id, app, gre) == Some(data)
  {
    hide Run, Flush, PutCycle;
    var s0 := Start(None);
    PutCycleRuns(s0, id, data);
    var s1 := Run(s0, PutCycle(id, data, 0)).value;
    PutCycleRuns(s1, id, data');
    RunAppend(s0, PutCycle(id, data, 0), PutCycle(id, data', 1));
    RunOn(s0, PutCycle(id, data, 0) + PutCycle(id, data', 1), Call(Get(id)));
    RunOn(s0, PutCycle(id, data, 0) + PutCycle(id, data', 1) + [Call(Get(id))], Join);
  }

  /** Between calls, with the last writer done, a put and its write leave what is in the file where it is. */
  lemma PutCycleRuns(s: State, id: Id, data: Bytes)
    requires s.main == Idle && !s.shutdown && s.store.table == map[] && s.store.archive == s.store.disk
    requires s.handle.Some? ==> s.handle.value < |s.threads| && s.threads[s.handle.value].Finished?
    ensures var r := Run(s, PutCycle(id, data, |s.threads|));
            var zip := AddEntry(Stored(s.store.disk), id, data);
            && r.Some? && r.value.main == Idle && !r.value.shutdown && r.value.store == Store(map[], Some(zip), Some(zip), true)
            && |r.value.threads| == |s.threads| + 1
            && r.value.handle == Some(|s.threads|) && r.value.threads[|s.threads|].Finished?
  {
    hide Run, Flush, WriteCycle, AddEntry;
    PutRuns(s, id, data);
    RunAppend(s, [Call(Put(id, data)), Join, Body(false)], WriteCycle(id, |s.threads|));
    WriteCycleRuns(Run(s, [Call(Put(id, data)), Join, Body(false)]).value, id, data);
  }

  // ---------- the writer's steps are WriteToDisk ----------

  function WriterRun(s: Store, t: Thread, choices: seq<(Id, bool)>): Option<(Store, Thread)> {
    if choices == [] then Some((s, t))
    else
      match WriterRun(s, t, choices[..|choices| - 1])
      case None => None
      case Some((s', t')) => WriterStep(s', t', choices[|choices| - 1].0, choices[|choices| - 1].1)
  }

  ghost predicate OnTheWay(s0: Store, s: Store, t: Thread) {
    var all := s0.table + Stored(s0.disk);
    match t
    case Starting => s == s0
    case Opening => s == s0.(initiated := true) && s0.table != map[]
    case Adding(zip) => s == s0.(initiated := true, table := s.table) && s.table + zip == all && s0.table != map[]
    case Closing(zip) => s == Store(map[], None, s0.disk, true) && zip == all && s0.table != map[]
    case Loading => s == Store(map[], None, Some(all), true) && s0.table != map[]
    case Finished => s == Flush(s0, false) || s == Flush(s0, true)
  }

  lemma StaysOnTheWay(s0: Store, s: Store, t: Thread, id: Id, openFails: bool)
    requires OnTheWay(s0, s, t) && WriterStep(s, t, id, openFails).Some?
    ensures var r := WriterStep(s, t, id, openFails).value; OnTheWay(s0, r.0, r.1)
  {
    if t.Adding? && s.table != map[] {
      assert s.table - {id} + AddEntry(t.zip, id, s.table[id]) == s.table + t.zip;
    } else if t.Adding? {
      assert s.table + t.zip == t.zip;
    }
  }

  /** Entries come in any order: a writer that has finished has done what WriteToDisk does in one go. */
  lemma {:induction false} WriterRefinesFlush(s: Store, choices: seq<(Id, bool)>)
    requires WriterRun(s, Starting, choices).Some?
    ensures var r := WriterRun(s, Starting, choices).value;
            OnTheWay(s, r.0, r.1) && (r.1.Finished? ==> r.0 == Flush(s, false) || r.0 == Flush(s, true))
  {
    hide WriterStep;
    if choices != [] {
      var n := |choices| - 1;
      WriterRefinesFlush(s, choices[..n]);
      var r := WriterRun(s, Starting, choices[..n]).value;
      StaysOnTheWay(s, r.0, r.1, choices[n].0, choices[n].1);
    }
  }

  // ---------- the object ----------

  /** The methods as they run behind WaitOnWriteThread, or on the writer thread. */
  class Cache {
    var table: Entries
    var archive: Option<Entries>
    var disk: Option<Entries>
    var startupWriteInitiated: bool
    var armed: bool
    var shutdownInitiated: bool

    function View(): Store
      reads this
    {
      Store(table, archive, disk, startupWriteInitiated)
    }

    /** With no writer at work: the reader's view is the file, and no entry is both in the table and in the file. */
    ghost predicate Valid()
      reads this
    {
      archive == disk && table.Keys !! Stored(disk).Keys
    }

    /** What the cache holds, in the table or in the file. */
    function Contents(): Entries
      reads this
    {
      Stored(disk) + table
    }

    /** The state of the whole, with the main thread in this call and no writer. */
    function StateIn(main: Main): State
      reads this
    {
      State(View(), armed, shutdownInitiated, main, [], None)
    }

    /** Enumerate with CacheCloseHelper: every entry goes into the zip and out of the table, in any order. */
    method AddEntries(start: Entries) returns (zip: Entries)
      modifies this`table
      ensures table == map[] && zip == old(table) + start
    {
      zip := start;
      var left := table;
      while left != map[]
        invariant left + zip == old(table) + start
        decreases |left|
      {
        var id :| id in left;
        MoveEntry(left, zip, id);
        OneFewer(left, id);
        zip := AddEntry(zip, id, left[id]);
        left := left - {id};
      }
      assert left + zip == zip;
      table := left;
    }

    method WriteToDisk(openFails: bool)
      modifies this
      ensures View() == Flush(old(View()), openFails)
      ensures old(Valid()) ==> Valid() && Contents() == old(Contents()) && (!openFails ==> table == map[])
      ensures armed == old(armed) && shutdownInitiated == old(shutdownInitiated)
    {
      if archive == disk && table.Keys !! Stored(disk).Keys { FlushKeeps(View(), openFails); }
      startupWriteInitiated := true;
      if table == map[] || openFails { return; }
      var zip := AddEntries(Stored(disk));
      archive := None;
      disk := Some(zip);
      archive := disk;
    }

    /** What is held is found, but for an entry still in the table when a write has been initiated. */
    method GetBuffer(id: Id, app: Entries, gre: Entries) returns (r: Option<Bytes>)
      ensures Valid() ==>
                r == if id in Contents() && !(startupWriteInitiated && id in table) then Some(Contents()[id])
                     else if id in app then Some(app[id])
                     else if id in gre then Some(gre[id])
                     else None
      ensures r == Answer(View(), id, app, gre)
    {
      if !startupWriteInitiated && id in table { return Some(table[id]); }
      if archive.Some? && id in archive.value { return Some(archive.value[id]); }
      if id in app { return Some(app[id]); }
      r := if id in gre then Some(gre[id]) else None;
    }

    /** Until shutdown the entry is held, found by the next get, and about to be written. Entries that were found before
        still are; one that a failed write had hidden is found again. */
    method PutBuffer(id: Id, data: Bytes) returns (ok: bool)
      modifies this
      ensures ok <==> !old(shutdownInitiated)
      ensures !ok ==> StateIn(Idle) == old(StateIn(Idle))
      ensures ok ==> Contents() == old(Contents())[id := data] && armed && !startupWriteInitiated
      ensures ok && old(Valid()) && id !in old(Contents()) ==> Valid()
      ensures ok ==> forall app, gre :: Answer(View(), id, app, gre) == Some(data)
      ensures ok ==> forall k, app, gre :: k != id && !(old(startupWriteInitiated) && k in old(table)) ==>
                       Answer(View(), k, app, gre) == Answer(old(View()), k, app, gre)
      ensures StateIn(Idle) == Finish(old(StateIn(Running(Put(id, data)))), Put(id, data), false)
    {
      if shutdownInitiated { return false; }
      ghost var before := Contents();
      table := table[id := data];
      startupWriteInitiated := false;
      armed := true;
      ok := true;
      assert Contents() == before[id := data];
    }

    /** Nothing is held any more, in the table, in the file or by the reader, so that every get goes to the omnijars. */
    method InvalidateCache()
      modifies this
      ensures Valid() && Contents() == map[]
      ensures forall id, app, gre :: Answer(View(), id, app, gre) == Fallback(id, app, gre)
      ensures StateIn(Idle) == Finish(old(StateIn(Running(Invalidate))), Invalidate, false)
    {
      table := map[];
      archive := None;
      disk := None;
    }
  }
}
