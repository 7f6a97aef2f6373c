/**
 What the processes of `KeyProtocol` leave behind: when the lock file stays, what each process returns or
 throws, and in which order it makes its calls.
 */
module KeyOutcomes {
  import opened KeyPair
  import opened KeyProtocol
  import opened Sequences

  // ---------- the lock ----------

  // A process that holds the lock crashes, or fails to remove it.
  predicate Abandons(s: System, e: Event)
    requires e.proc < |s.procs|
  {
    match e
    case Crash(i) => Critical(s.procs[i].at)
    case Call(i, a) => s.procs[i].at.Unlinking? && !a.Ok?
  }

  predicate Abandoned(s: System, es: seq<Event>, masking: bool)
    requires Run(s, es, masking)
    decreases |es|
  {
    es != [] && (Abandons(s, es[0]) || Abandoned(Apply(s, es[0]), es[1..], masking))
  }

  ghost predicate SomeCritical(s: System) { exists i :: 0 <= i < |s.procs| && Critical(s.procs[i].at) }

  ghost predicate Accounted(s: System, left: bool) {
    Exclusive(s) && (left ==> !SomeCritical(s)) && (s.locked <==> SomeCritical(s) || left)
  }

  lemma AccountedStep(s: System, e: Event, masking: bool, left: bool)
    requires Accounted(s, left) && Enabled(s, e, masking)
    ensures Accounted(Apply(s, e), left || Abandons(s, e))
  {
    ExclusiveStep(s, e, masking);
    var p, t := s.procs[e.proc], Apply(s, e);
    assert forall i :: 0 <= i < |s.procs| && i != e.proc ==> t.procs[i] == s.procs[i];
    if Critical(p.at) && Critical(t.procs[e.proc].at) {
      assert SomeCritical(s) && SomeCritical(t);
    } else if Critical(p.at) {
      assert SomeCritical(s) && !SomeCritical(t);
    } else if Critical(t.procs[e.proc].at) {
      assert !SomeCritical(s) && SomeCritical(t);
    } else {
      OthersCritical(s, t, e.proc);
    }
  }

  lemma OthersCritical(s: System, t: System, i: nat)
    requires |s.procs| == |t.procs| && i < |s.procs| && !Critical(s.procs[i].at) && !Critical(t.procs[i].at)
    requires forall j :: 0 <= j < |s.procs| && j != i ==> t.procs[j] == s.procs[j]
    ensures SomeCritical(s) <==> SomeCritical(t)
  {
    if j :| 0 <= j < |s.procs| && Critical(s.procs[j].at) {
      assert Critical(t.procs[j].at);
    }
  }

  lemma {:induction false} AccountedRun(s: System, es: seq<Event>, masking: bool, left: bool)
    requires Accounted(s, left) && Run(s, es, masking)
    ensures Accounted(Final(s, es, masking), left || Abandoned(s, es, masking))
    decreases |es|
  {
    if es != [] {
      AccountedStep(s, es[0], masking, left);
      AccountedRun(Apply(s, es[0]), es[1..], masking, left || Abandons(s, es[0]));
    }
  }

  // In every run the lock file is there if and only if a process is between creating and removing it, or
  // one crashed there, or one failed to remove it.
  lemma LockedIff(s: System, es: seq<Event>, masking: bool)
    requires Initial(s) && !s.locked && Run(s, es, masking)
    ensures Final(s, es, masking).locked <==> SomeCritical(Final(s, es, masking)) || Abandoned(s, es, masking)
  {
    AccountedRun(s, es, masking, false);
  }

  // Once every process has ended, none by crashing with the lock and none failing to remove it, the lock is
  // free, whatever else failed: the next process can have it.
  lemma LockReleased(s: System, es: seq<Event>, masking: bool)
    requires Initial(s) && !s.locked && Run(s, es, masking) && !Abandoned(s, es, masking)
    requires forall i :: 0 <= i < |Final(s, es, masking).procs| ==> Halted(Final(s, es, masking).procs[i].at)
    ensures !Final(s, es, masking).locked
  {
    LockedIff(s, es, masking);
  }

  // ---------- what a process did ----------

  // A call and its answer
  datatype Turn = Turn(at: Point, answer: Answer)

  // The calls process `i` made, in order
  function LogOf(s: System, es: seq<Event>, masking: bool, i: nat): seq<Turn>
    requires Run(s, es, masking) && i < |s.procs|
    decreases |es|
  {
    if es == [] then []
    else (if es[0].Call? && es[0].proc == i then [Turn(s.procs[i].at, es[0].answer)] else []) + LogOf(Apply(s, es[0]), es[1..], masking, i)
  }

  // A call that failed for good
  predicate Fails(t: Turn) {
    match t.at
    case Creating(_) => t.answer.Failed?
    case Minting => !t.answer.KeyRead?
    case OpeningTemp(_) => !t.answer.Ok?
    case FillingTemp(_) => !t.answer.Ok?
    case Restricting(_) => !t.answer.Ok?
    case Renaming(_, _) => !t.answer.Ok? && !t.answer.Transient?
    case _ => false
  }

  predicate Broke(log: seq<Turn>) { log != [] && (Fails(log[|log| - 1]) || Broke(log[..|log| - 1])) }

  // Renames that failed for the moment
  function Retried(log: seq<Turn>): nat {
    if log == [] then 0
    else Retried(log[..|log| - 1]) + if log[|log| - 1].at.Renaming? && log[|log| - 1].answer.Transient? then 1 else 0
  }

  predicate Threw(log: seq<Turn>) { Broke(log) || Retried(log) == RENAME_ATTEMPTS }

  // The call `back` places from the end
  predicate Ago(log: seq<Turn>, back: nat, t: Turn) { back < |log| && log[|log| - 1 - back] == t }

  function At(log: seq<Turn>, back: nat): Turn
    requires back < |log|
  {
    log[|log| - 1 - back]
  }

  predicate Opened(log: seq<Turn>) { log != [] && (log[|log| - 1].at.OpeningTemp? || Opened(log[..|log| - 1])) }

  predicate Acquired(log: seq<Turn>) { log != [] && (log[|log| - 1].answer.Created? || Acquired(log[..|log| - 1])) }

  // A key was minted for which the temporary file was opened, filled and restricted, all of it just before
  // the last `n` calls.
  predicate Prepared(log: seq<Turn>, k: Key, n: nat) {
    && Ago(log, n, Turn(Restricting(k), Ok)) && Ago(log, n + 1, Turn(FillingTemp(k), Ok))
    && Ago(log, n + 2, Turn(OpeningTemp(k), Ok)) && Ago(log, n + 3, Turn(Minting, KeyRead(k)))
  }

  // The call `back` places from the end renamed the file prepared for `k`.
  predicate Renamed(log: seq<Turn>, back: nat, k: Key) {
    back < |log| && At(log, back).at.Renaming? && At(log, back).at.key == k && At(log, back).answer.Ok?
    && Prepared(log, k, back + 1 + At(log, back).at.attempt)
  }

  // The last call was the removal of the temporary file, if one was opened; the file stays only if it failed.
  predicate Removed(log: seq<Turn>, back: nat, temp: Temp) {
    && (Opened(log) ==> back < |log| && At(log, back).at.RemovingTemp?)
    && (temp != NoTemp ==> back < |log| && At(log, back).at.RemovingTemp? && !At(log, back).answer.Ok?)
  }

  // Where a returned key comes from
  predicate Came(log: seq<Turn>, back: nat, o: Outcome) {
    o.Returned? ==> Ago(log, back, Turn(LockedReading, KeyRead(o.key))) || Renamed(log, back + 1, o.key)
  }

  // No read outside the lock found a key.
  predicate Keyless(log: seq<Turn>) {
    log == [] || (!(ReadsOutsideLock(log[|log| - 1].at) && log[|log| - 1].answer.KeyRead?) && Keyless(log[..|log| - 1]))
  }

  predicate ReadLast(log: seq<Turn>, o: Outcome) {
    log != [] && ReadsOutsideLock(At(log, 0).at) && o.Returned? && At(log, 0).answer == KeyRead(o.key)
  }

  // A key read outside the lock is returned at once.
  predicate Looked(p: Proc, log: seq<Turn>) {
    Halted(p.at) || Keyless(log)
  }

  // What the log says at each point
  predicate Traced(p: Proc, log: seq<Turn>) {
    Looked(p, log) && match p.at
    case Start => log == [] && p.temp.NoTemp?
    case Creating(_) => !Broke(log) && Retried(log) == 0 && !Opened(log) && !Acquired(log) && p.temp.NoTemp?
    case Rereading(_) => !Broke(log) && Retried(log) == 0 && !Opened(log) && !Acquired(log) && p.temp.NoTemp?
    case ReadingWinner => !Broke(log) && Retried(log) == 0 && !Opened(log) && !Acquired(log) && p.temp.NoTemp?
    case LockedReading => !Broke(log) && Retried(log) == 0 && !Opened(log) && Acquired(log) && p.temp.NoTemp?
    case Minting => !Broke(log) && Retried(log) == 0 && !Opened(log) && Acquired(log) && p.temp.NoTemp?
    case OpeningTemp(k) => !Broke(log) && Retried(log) == 0 && Acquired(log) && Ago(log, 0, Turn(Minting, KeyRead(k))) && p.temp.NoTemp?
    case FillingTemp(k) =>
      !Broke(log) && Retried(log) == 0 && Acquired(log) && Ago(log, 0, Turn(OpeningTemp(k), Ok)) && Ago(log, 1, Turn(Minting, KeyRead(k)))
    case Restricting(k) =>
      && !Broke(log) && Retried(log) == 0 && Acquired(log) && Ago(log, 0, Turn(FillingTemp(k), Ok))
      && Ago(log, 1, Turn(OpeningTemp(k), Ok)) && Ago(log, 2, Turn(Minting, KeyRead(k)))
    case Renaming(k, n) => !Broke(log) && Retried(log) == n < RENAME_ATTEMPTS && Acquired(log) && Prepared(log, k, n)
    case RemovingTemp(o) =>
      (o.ThrewError? <==> Threw(log)) && Acquired(log) && !o.ThrewBusy? && (o.Returned? ==> Renamed(log, 0, o.key) && p.temp.NoTemp?)
    case Closing(o) => (o.ThrewError? <==> Threw(log)) && Acquired(log) && Removed(log, 0, p.temp) && Came(log, 0, o)
    case Unlinking(o) =>
      (o.ThrewError? <==> Threw(log)) && Acquired(log) && log != [] && At(log, 0).at.Closing? && Removed(log, 1, p.temp) && Came(log, 1, o)
    case Done(o) =>
      && (o.ThrewError? <==> Threw(log))
      && (if Acquired(log) then |log| >= 2 && At(log, 0).at.Unlinking? && At(log, 1).at.Closing? && Removed(log, 2, p.temp) && Came(log, 2, o) && Keyless(log)
          else p.temp.NoTemp? && !Opened(log) && (if Keyless(log) then !o.Returned? else ReadLast(log, o)))
    case Crashed => true
  }

  lemma LogGrows(log: seq<Turn>, t: Turn)
    ensures var more := log + [t];
            && (Broke(more) <==> Fails(t) || Broke(log))
            && Retried(more) == Retried(log) + (if t.at.Renaming? && t.answer.Transient? then 1 else 0)
            && (Opened(more) <==> t.at.OpeningTemp? || Opened(log)) && (Acquired(more) <==> t.answer.Created? || Acquired(log))
            && Ago(more, 0, t)
            && (Keyless(more) <==> !(ReadsOutsideLock(t.at) && t.answer.KeyRead?) && Keyless(log))
  {
    var more := log + [t];
    assert more[..|log|] == log && more[|log|] == t;
  }

  lemma TracedLate(p: Proc, a: Answer, log: seq<Turn>, more: seq<Turn>)
    requires Traced(p, log) && (p.at.RemovingTemp? || p.at.Closing? || p.at.Unlinking?) && more == log + [Turn(p.at, a)]
    ensures Traced(ProcAfter(p, a), more)
  {
    LogGrows(log, Turn(p.at, a));
  }

  lemma TracedWriting(p: Proc, a: Answer, log: seq<Turn>, more: seq<Turn>)
    requires Traced(p, log) && Writing(p.at) && more == log + [Turn(p.at, a)]
    ensures Traced(ProcAfter(p, a), more)
  {
    LogGrows(log, Turn(p.at, a));
  }

  lemma TracedEarly(s: System, p: Proc, a: Answer, masking: bool, log: seq<Turn>, more: seq<Turn>)
    requires Traced(p, log) && LooksFirst(p.at) && Possible(s, p.at, a, masking) && more == log + [Turn(p.at, a)]
    ensures Traced(ProcAfter(p, a), more)
  {
    LogGrows(log, Turn(p.at, a));
  }

  lemma TracedStep(s: System, p: Proc, a: Answer, masking: bool, log: seq<Turn>)
    requires Traced(p, log) && !Halted(p.at) && Possible(s, p.at, a, masking)
    ensures Traced(ProcAfter(p, a), log + [Turn(p.at, a)])
  {
    if LooksFirst(p.at) {
      TracedEarly(s, p, a, masking, log, log + [Turn(p.at, a)]);
    } else if Writing(p.at) {
      TracedWriting(p, a, log, log + [Turn(p.at, a)]);
    } else {
      TracedLate(p, a, log, log + [Turn(p.at, a)]);
    }
  }

  lemma TracedEvent(s: System, e: Event, masking: bool, i: nat, log: seq<Turn>) returns (more: seq<Turn>)
    requires Enabled(s, e, masking) && i < |s.procs| && Traced(s.procs[i], log)
    ensures more == if e.Call? && e.proc == i then [Turn(s.procs[i].at, e.answer)] else []
    ensures Traced(Apply(s, e).procs[i], log + more)
  {
    if e.Call? && e.proc == i {
      more := [Turn(s.procs[i].at, e.answer)];
      TracedStep(s, s.procs[i], e.answer, masking, log);
    } else {
      more := [];
      assert log + more == log;
    }
  }

  lemma {:induction false} TracedRun(s: System, es: seq<Event>, masking: bool, i: nat, log: seq<Turn>)
    requires Run(s, es, masking) && i < |s.procs| && Traced(s.procs[i], log)
    ensures |Final(s, es, masking).procs| == |s.procs| && Traced(Final(s, es, masking).procs[i], log + LogOf(s, es, masking, i))
    decreases |es|
  {
    if es == [] {
      assert log + [] == log;
    } else {
      var more := TracedEvent(s, es[0], masking, i, log);
      TracedRun(Apply(s, es[0]), es[1..], masking, i, log + more);
      ConcatAssociates(log, more, LogOf(Apply(s, es[0]), es[1..], masking, i));
    }
  }

  lemma DoneSays(p: Proc, log: seq<Turn>)
    requires Traced(p, log) && p.at.Done?
    ensures var o := p.at.out;
            && (o.ThrewError? <==> Broke(log) || Retried(log) == 5)
            && (Acquired(log) ==> |log| >= 2 && At(log, 0).at.Unlinking? && At(log, 1).at.Closing?)
            && (Opened(log) ==> |log| >= 3 && At(log, 2).at.RemovingTemp?)
            && (p.temp != NoTemp ==> |log| >= 3 && At(log, 2).at.RemovingTemp? && !At(log, 2).answer.Ok?)
            && (!Keyless(log) ==> ReadLast(log, o))
            && (o.Returned? && Keyless(log) ==> Ago(log, 2, Turn(LockedReading, KeyRead(o.key))) || Renamed(log, 3, o.key))
  {
  }

  // How a process ends, said by its own calls and their answers: it throws an error exactly if a call failed
  // for good or five renames failed for the moment; it returns at once a key it reads outside the lock, and
  // otherwise one it read under the lock or minted, wrote, restricted and renamed; and if it got the lock,
  // its last calls close and remove the lock file and, if it opened a temporary file, remove that before,
  // which stays only if its removal failed.
  lemma Outcomes(s: System, es: seq<Event>, masking: bool, i: nat)
    requires Initial(s) && Run(s, es, masking) && i < |s.procs| && i < |Final(s, es, masking).procs| && Final(s, es, masking).procs[i].at.Done?
    ensures var p, log := Final(s, es, masking).procs[i], LogOf(s, es, masking, i);
            var o := p.at.out;
            && (o.ThrewError? <==> Broke(log) || Retried(log) == 5)
            && (Acquired(log) ==> |log| >= 2 && At(log, 0).at.Unlinking? && At(log, 1).at.Closing?)
            && (Opened(log) ==> |log| >= 3 && At(log, 2).at.RemovingTemp?)
            && (p.temp != NoTemp ==> |log| >= 3 && At(log, 2).at.RemovingTemp? && !At(log, 2).answer.Ok?)
            && (!Keyless(log) ==> ReadLast(log, o))
            && (o.Returned? && Keyless(log) ==> Ago(log, 2, Turn(LockedReading, KeyRead(o.key))) || Renamed(log, 3, o.key))
  {
    TracedRun(s, es, masking, i, []);
    var log := LogOf(s, es, masking, i);
    assert [] + log == log;
    DoneSays(Final(s, es, masking).procs[i], log);
  }

  // No key is published before its file has been opened, filled and restricted.
  lemma PublishedRestricted(s: System, es: seq<Event>, masking: bool, i: nat)
    requires Initial(s) && Run(s, es, masking) && i < |s.procs| && i < |Final(s, es, masking).procs| && Final(s, es, masking).procs[i].at.Renaming?
    ensures var p, log := Final(s, es, masking).procs[i], LogOf(s, es, masking, i);
            Prepared(log, p.at.key, Retried(log)) && Retried(log) < 5
  {
    TracedRun(s, es, masking, i, []);
    assert [] + LogOf(s, es, masking, i) == LogOf(s, es, masking, i);
  }

  // ---------- alone ----------

  predicate Succeeds(e: Event, i: nat) { e.Call? && e.proc == i && !e.answer.Failed? && !e.answer.Transient? }

  predicate OnItsWay(s: System, i: nat)
    requires i < |s.procs|
  {
    var p := s.procs[i];
    match p.at
    case Start => !s.locked
    case Creating(n) => n == 0 && !s.locked
    case LockedReading => true
    case Minting => true
    case OpeningTemp(k) => true
    case FillingTemp(k) => true
    case Restricting(k) => p.temp == Complete(k)
    case Renaming(k, n) => n == 0 && p.temp == Complete(k)
    case RemovingTemp(o) => o.Returned? && s.file == Holds(o.key)
    case Closing(o) => o.Returned? && s.file == Holds(o.key)
    case Unlinking(o) => o.Returned? && s.file == Holds(o.key)
    case Done(o) => o.Returned? && s.file == Holds(o.key)
    case _ => false
  }

  lemma {:induction false} StaysOnItsWay(s: System, es: seq<Event>, i: nat)
    requires i < |s.procs| && OnItsWay(s, i) && Run(s, es, false) && forall e :: e in es ==> Succeeds(e, i)
    ensures i < |Final(s, es, false).procs| && OnItsWay(Final(s, es, false), i)
    decreases |es|
  {
    if es != [] {
      assert es[0] in es && Succeeds(es[0], i);
      StaysOnItsWay(Apply(s, es[0]), es[1..], i);
    }
  }

  // A process that runs alone with the lock free and meets no failing call never throws: when it ends it
  // returns the key that is in the file.
  lemma AloneReturns(s: System, es: seq<Event>, i: nat)
    requires i < |s.procs| && s.procs[i] == NewProc && !s.locked && Run(s, es, false) && forall e :: e in es ==> Succeeds(e, i)
    ensures var t := Final(s, es, false);
            i < |t.procs| && (t.procs[i].at.Done? ==> t.procs[i].at.out.Returned? && t.file == Holds(t.procs[i].at.out.key))
  {
    StaysOnItsWay(s, es, i);
  }
}
