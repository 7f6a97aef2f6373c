/**
 Any number of `KeyPair` processes around one key file and one lock file: every interleaving, a crash
 of any process at any point, and any call failing whenever the system allows it to fail.
 */
module KeyProtocol {
  import opened KeyPair

  datatype Content = Missing | Unusable | Holds(key: Key)

  // A process's temporary file; it becomes usable only once completely written
  datatype Temp = NoTemp | Partial | Complete(key: Key)

  // `creates`, `busy` and `keyless` record what its creates and its reads outside the lock answered
  datatype Proc = Proc(at: Point, temp: Temp, calls: nat, creates: nat, busy: nat, lookups: nat, keyless: nat)

  const NewProc := Proc(Start, NoTemp, 0, 0, 0, 0, 0)

  datatype System = System(file: Content, locked: bool, procs: seq<Proc>)

  datatype Event = Call(proc: nat, answer: Answer) | Crash(proc: nat)

  ghost predicate Initial(s: System) {
    forall i :: 0 <= i < |s.procs| ==> s.procs[i] == NewProc
  }

  // Between lock creation and lock release
  predicate Critical(p: Point) {
    p.LockedReading? || p.Minting? || p.OpeningTemp? || p.FillingTemp? || p.Restricting? || p.Renaming?
    || p.RemovingTemp? || p.Closing? || p.Unlinking?
  }

  predicate ReadsOutsideLock(p: Point) { p.Start? || p.Rereading? || p.ReadingWinner? }

  // The answers the file system can give.  Outside the lock a read may fail at any time.  Under the
  // lock it may fail on a usable key file only when `masking` is allowed.
  predicate Possible(s: System, p: Point, a: Answer, masking: bool) {
    match p
    case Creating(_) => (a.Created? && !s.locked) || (a.Busy? && s.locked) || a.Failed?
    case LockedReading =>
      a == (if s.file.Holds? then KeyRead(s.file.key) else NoKey) || (masking && a.NoKey?)
    case Minting => a.KeyRead? || a.Failed?
    case _ =>
      if ReadsOutsideLock(p) then a.NoKey? || (s.file.Holds? && a == KeyRead(s.file.key))
      else a.Ok? || a.Transient? || a.Failed?
  }

  predicate Enabled(s: System, e: Event, masking: bool) {
    e.proc < |s.procs| && !Halted(s.procs[e.proc].at)
    && (e.Call? ==> Possible(s, s.procs[e.proc].at, e.answer, masking))
  }

  function TempAfter(p: Proc, a: Answer): Temp {
    if !a.Ok? then p.temp
    else match p.at
      case OpeningTemp(_) => Partial
      case FillingTemp(k) => Complete(k)
      case Renaming(_, _) => NoTemp
      case RemovingTemp(_) => NoTemp
      case _ => p.temp
  }

  function ProcAfter(p: Proc, a: Answer): Proc {
    Proc(Advance(p.at, a), TempAfter(p, a), p.calls + 1,
         p.creates + (if p.at.Creating? then 1 else 0),
         p.busy + (if p.at.Creating? && a.Busy? then 1 else 0),
         p.lookups + (if ReadsOutsideLock(p.at) then 1 else 0),
         p.keyless + (if ReadsOutsideLock(p.at) && a.NoKey? then 1 else 0))
  }

  // The rename moves whatever the temporary file contains.
  function FileAfter(file: Content, p: Proc, a: Answer): Content {
    if p.at.Renaming? && a.Ok? then (if p.temp.Complete? then Holds(p.temp.key) else Unusable) else file
  }

  function LockAfter(locked: bool, p: Proc, a: Answer): bool {
    (locked || (p.at.Creating? && a.Created?)) && !(p.at.Unlinking? && a.Ok?)
  }

  function Apply(s: System, e: Event): System
    requires e.proc < |s.procs|
  {
    var p := s.procs[e.proc];
    match e
    case Crash(i) => s.(procs := s.procs[i := p.(at := Crashed)])
    case Call(i, a) => System(FileAfter(s.file, p, a), LockAfter(s.locked, p, a), s.procs[i := ProcAfter(p, a)])
  }

  predicate Run(s: System, es: seq<Event>, masking: bool)
    decreases |es|
  {
    es == [] || (Enabled(s, es[0], masking) && Run(Apply(s, es[0]), es[1..], masking))
  }

  function Final(s: System, es: seq<Event>, masking: bool): System
    requires Run(s, es, masking)
    decreases |es|
  {
    if es == [] then s else Final(Apply(s, es[0]), es[1..], masking)
  }

  // ---------- mutual exclusion ----------

  ghost predicate Exclusive(s: System) {
    (forall i :: 0 <= i < |s.procs| && Critical(s.procs[i].at) ==> s.locked)
    && forall i, j :: 0 <= i < |s.procs| && 0 <= j < |s.procs| && Critical(s.procs[i].at) && Critical(s.procs[j].at) ==> i == j
  }

  lemma ExclusiveStep(s: System, e: Event, masking: bool)
    requires Exclusive(s) && Enabled(s, e, masking)
    ensures Exclusive(Apply(s, e))
  {
    var t := Apply(s, e);
    forall i | 0 <= i < |t.procs| && Critical(t.procs[i].at)
      ensures t.locked
    {
      assert Critical(s.procs[i].at) || !s.locked;
    }
  }

  // At most one process is ever between creating the lock and releasing it, whatever fails or crashes.
  lemma {:induction false} MutualExclusion(s: System, es: seq<Event>, masking: bool)
    requires Exclusive(s) && Run(s, es, masking)
    ensures Exclusive(Final(s, es, masking))
    decreases |es|
  {
    if es != [] {
      ExclusiveStep(s, es[0], masking);
      MutualExclusion(Apply(s, es[0]), es[1..], masking);
    }
  }

  // ---------- agreement ----------

  // Having looked under the lock and found no key
  predicate Writing(p: Point) {
    p.Minting? || p.OpeningTemp? || p.FillingTemp? || p.Restricting? || p.Renaming?
  }

  // The process has settled on key `k`
  predicate Settled(p: Point, k: Key) {
    (p.RemovingTemp? || p.Closing? || p.Unlinking? || p.Done?) && p.out == Returned(k)
  }

  ghost predicate Agreeing(s: System) {
    Exclusive(s)
    && (forall i :: 0 <= i < |s.procs| && Writing(s.procs[i].at) ==> !s.file.Holds?)
    && (forall i, k :: 0 <= i < |s.procs| && Settled(s.procs[i].at, k) ==> s.file == Holds(k))
    && TempsComplete(s)
  }

  ghost predicate TempsComplete(s: System) {
    forall i :: 0 <= i < |s.procs| && (s.procs[i].at.Restricting? || s.procs[i].at.Renaming?) ==>
      s.procs[i].temp == Complete(s.procs[i].at.key)
  }

  lemma AgreeingStep(s: System, e: Event)
    requires Agreeing(s) && Enabled(s, e, false)
    ensures Agreeing(Apply(s, e))
    ensures s.file.Holds? ==> Apply(s, e).file == s.file
  {
    ExclusiveStep(s, e, false);
    var p := s.procs[e.proc];
    var t := Apply(s, e);
    assert s.file.Holds? ==> t.file == s.file;
    forall i, k | 0 <= i < |t.procs| && Settled(t.procs[i].at, k)
      ensures t.file == Holds(k)
    {
      if i != e.proc {
        assert Settled(s.procs[i].at, k);
      } else if !Settled(p.at, k) {
        assert e.Call?;
      }
    }
  }

  // What the protocol is for: a usable key is never replaced, and everyone who returns, returns it.
  ghost predicate Agreed(before: System, after: System) {
    (before.file.Holds? ==> after.file == before.file)
    && forall i, k :: 0 <= i < |after.procs| && after.procs[i].at == Done(Returned(k)) ==> after.file == Holds(k)
  }

  lemma {:induction false} AgreeingRun(s: System, es: seq<Event>)
    requires Agreeing(s) && Run(s, es, false)
    ensures Agreeing(Final(s, es, false)) && (s.file.Holds? ==> Final(s, es, false).file == s.file)
    decreases |es|
  {
    if es != [] {
      AgreeingStep(s, es[0]);
      AgreeingRun(Apply(s, es[0]), es[1..]);
    }
  }

  // Any number of processes, any interleaving, crashes and failures: agreement, also between any two
  // moments of the same run.
  lemma Agreement(s: System, first: seq<Event>, rest: seq<Event>)
    requires Initial(s) && Run(s, first, false) && Run(Final(s, first, false), rest, false)
    ensures var mid := Final(s, first, false);
            Agreed(s, mid) && Agreed(mid, Final(mid, rest, false))
  {
    AgreeingRun(s, first);
    AgreeingRun(Final(s, first, false), rest);
    var mid := Final(s, first, false);
    var end := Final(mid, rest, false);
    assert forall i, k :: 0 <= i < |mid.procs| && mid.procs[i].at == Done(Returned(k)) ==> Settled(mid.procs[i].at, k);
    assert forall i, k :: 0 <= i < |end.procs| && end.procs[i].at == Done(Returned(k)) ==> Settled(end.procs[i].at, k);
  }

  // The run that goes wrong when a locked read may miss the key: one process mints over a key in place.
  lemma MaskedReadReplacesKey()
    ensures var s := System(Holds(1), false, [NewProc]);
            exists es :: Run(s, es, true) && Final(s, es, true).file == Holds(2)
  {
    var s0 := System(Holds(1), false, [NewProc]);
    var s1 := Apply(s0, Call(0, NoKey));
    var es := MintOver(Apply(s1, Call(0, Created)));
    PrependRun(s1, Call(0, Created), es, true);
    PrependRun(s0, Call(0, NoKey), [Call(0, Created)] + es, true);
  }

  // A process that misses the key under the lock mints another and publishes it.
  lemma MintOver(s: System) returns (es: seq<Event>)
    requires s == System(Holds(1), true, [Proc(LockedReading, NoTemp, 2, 1, 0, 1, 1)])
    ensures Run(s, es, true) && Final(s, es, true).file == Holds(2)
  {
    var minting := Apply(s, Call(0, NoKey));
    es := PublishOver(Apply(minting, Call(0, KeyRead(2))));
    PrependRun(minting, Call(0, KeyRead(2)), es, true);
    es := [Call(0, KeyRead(2))] + es;
    PrependRun(s, Call(0, NoKey), es, true);
    es := [Call(0, NoKey)] + es;
  }

  // A process that has minted a key replaces the file by four calls that succeed.
  lemma PublishOver(s: System) returns (es: seq<Event>)
    requires s.procs == [Proc(OpeningTemp(2), NoTemp, 4, 1, 0, 1, 1)]
    ensures Run(s, es, true) && Final(s, es, true).file == Holds(2)
  {
    var ok := Call(0, Ok);
    var s1 := Apply(s, ok);
    var s2 := Apply(s1, ok);
    var s3 := Apply(s2, ok);
    var s4 := Apply(s3, ok);
    assert s4.file == Holds(2);
    PrependRun(s3, ok, [], true);
    PrependRun(s2, ok, [ok], true);
    PrependRun(s1, ok, [ok] + [ok], true);
    PrependRun(s, ok, [ok] + ([ok] + [ok]), true);
    es := [ok] + ([ok] + ([ok] + [ok]));
  }

  lemma PrependRun(s: System, e: Event, es: seq<Event>, masking: bool)
    requires Enabled(s, e, masking) && Run(Apply(s, e), es, masking)
    ensures Run(s, [e] + es, masking) && Final(s, [e] + es, masking) == Final(Apply(s, e), es, masking)
  {
    assert ([e] + es)[1..] == es;
  }

  // Agreement holds over all runs exactly when a read under the lock never misses a usable key.  Reads
  // outside the lock may miss it at any time.
  lemma AgreementIffLockedReadsReliable(masking: bool)
    ensures (forall s, es :: Initial(s) && Run(s, es, masking) ==> Agreed(s, Final(s, es, masking))) <==> !masking
  {
    if masking {
      MaskedReadReplacesKey();
      var s := System(Holds(1), false, [NewProc]);
      var es :| Run(s, es, true) && Final(s, es, true).file == Holds(2);
      assert Initial(s) && !Agreed(s, Final(s, es, masking));
    } else {
      forall s, es | Initial(s) && Run(s, es, false)
        ensures Agreed(s, Final(s, es, false))
      {
        Agreement(s, es, []);
      }
    }
  }

  // ---------- which key is replaced ----------

  // A read under the lock that finds no key although the file holds one
  predicate Misses(s: System, e: Event)
    requires e.proc < |s.procs|
  {
    e.Call? && s.procs[e.proc].at.LockedReading? && e.answer.NoKey? && s.file.Holds?
  }

  // A rename that succeeds
  predicate Renames(s: System, e: Event)
    requires e.proc < |s.procs|
  {
    e.Call? && s.procs[e.proc].at.Renaming? && e.answer.Ok?
  }

  function MissedAfter(s: System, e: Event, missed: set<nat>): set<nat>
    requires e.proc < |s.procs|
  {
    if Misses(s, e) then missed + {e.proc} else missed
  }

  // The processes that missed a key in this run, or before it
  function MissedIn(s: System, es: seq<Event>, masking: bool, missed: set<nat>): set<nat>
    requires Run(s, es, masking)
    decreases |es|
  {
    if es == [] then missed else MissedIn(Apply(s, es[0]), es[1..], masking, MissedAfter(s, es[0], missed))
  }

  predicate LooksFirst(p: Point) { ReadsOutsideLock(p) || p.Creating? || p.LockedReading? }

  // Whoever is writing faces a usable key exactly if it missed one.
  ghost predicate Remembers(s: System, missed: set<nat>) {
    Exclusive(s) && TempsComplete(s)
    && (forall i :: 0 <= i < |s.procs| && LooksFirst(s.procs[i].at) ==> i !in missed)
    && forall i :: 0 <= i < |s.procs| && Writing(s.procs[i].at) ==> (s.file.Holds? <==> i in missed)
  }

  lemma RemembersStep(s: System, e: Event, masking: bool, missed: set<nat>)
    requires Remembers(s, missed) && Enabled(s, e, masking)
    ensures Remembers(Apply(s, e), MissedAfter(s, e, missed))
  {
    ExclusiveStep(s, e, masking);
    var p, t, after := s.procs[e.proc], Apply(s, e), MissedAfter(s, e, missed);
    forall i | 0 <= i < |t.procs| && Writing(t.procs[i].at)
      ensures t.file.Holds? <==> i in after
    {
      if i != e.proc {
        assert Critical(s.procs[i].at) && !Critical(p.at);
      } else {
        assert p.at.LockedReading? || Writing(p.at);
      }
    }
  }

  lemma {:induction false} RemembersRun(s: System, es: seq<Event>, masking: bool, missed: set<nat>)
    requires Remembers(s, missed) && Run(s, es, masking)
    ensures Remembers(Final(s, es, masking), MissedIn(s, es, masking, missed))
    decreases |es|
  {
    if es != [] {
      RemembersStep(s, es[0], masking, missed);
      RemembersRun(Apply(s, es[0]), es[1..], masking, MissedAfter(s, es[0], missed));
    }
  }

  // In every run, reads under the lock failing or not: a usable key is replaced by a rename and nothing
  // else, and a rename finds a usable key in place if and only if its own process missed one under the lock.
  lemma ReplacedIffMissed(s: System, es: seq<Event>, e: Event, masking: bool)
    requires Initial(s) && Run(s, es, masking) && Enabled(Final(s, es, masking), e, masking)
    ensures var t, missed := Final(s, es, masking), MissedIn(s, es, masking, {});
            && (Renames(t, e) ==> Apply(t, e).file == Holds(t.procs[e.proc].at.key))
            && (Renames(t, e) ==> (t.file.Holds? <==> e.proc in missed))
            && (Apply(t, e).file != t.file ==> Renames(t, e))
  {
    RemembersRun(s, es, masking, {});
  }

  // ---------- wait-freedom ----------

  // What the counters of a process must read at each point of the lock loop
  predicate Tallied(p: Proc) {
    p.calls + Fuel(p.at) <= MAX_CALLS
    && match p.at
       case Start => p.creates == p.busy == 0 && p.lookups == p.keyless == 0
       case Creating(n) => n <= LOCK_ATTEMPTS && p.creates == p.busy == n && p.lookups == p.keyless == (if n < LOCK_ATTEMPTS then n + 1 else n + 2)
       case Rereading(n) => n <= LOCK_ATTEMPTS && p.creates == p.busy == n + 1 && p.lookups == p.keyless == (if n < LOCK_ATTEMPTS then n + 1 else n + 2)
       case ReadingWinner => p.creates == p.busy == LOCK_ATTEMPTS && p.lookups == p.keyless == LOCK_ATTEMPTS + 1
       case Done(o) => o.ThrewBusy? ==> p.creates == p.busy == LOCK_ATTEMPTS + 1 && p.lookups == p.keyless == LOCK_ATTEMPTS + 3
       case RemovingTemp(o) => !o.ThrewBusy?
       case Closing(o) => !o.ThrewBusy?
       case Unlinking(o) => !o.ThrewBusy?
       case _ => true
  }

  lemma TalliedStep(s: System, p: Proc, a: Answer, masking: bool)
    requires Tallied(p) && !Halted(p.at) && Possible(s, p.at, a, masking)
    ensures Tallied(ProcAfter(p, a))
  {
    EveryCallSpendsFuel(p.at, a);
  }

  function CallsOf(es: seq<Event>, i: nat): nat {
    if es == [] then 0 else (if es[0].Call? && es[0].proc == i then 1 else 0) + CallsOf(es[1..], i)
  }

  lemma {:induction false} TalliedRun(s: System, es: seq<Event>, masking: bool, i: nat)
    requires Run(s, es, masking) && i < |s.procs| && Tallied(s.procs[i])
    ensures var t := Final(s, es, masking);
            |t.procs| == |s.procs| && Tallied(t.procs[i]) && t.procs[i].calls == s.procs[i].calls + CallsOf(es, i)
    decreases |es|
  {
    if es != [] {
      if es[0].Call? && es[0].proc == i {
        TalliedStep(s, s.procs[i], es[0].answer, masking);
      }
      TalliedRun(Apply(s, es[0]), es[1..], masking, i);
    }
  }

  // Whatever the others do, a process makes at most MAX_CALLS calls, has ended once it has made them,
  // and reports a busy lock only after 51 creates that found it and 53 reads that found no key.
  lemma WaitFree(s: System, es: seq<Event>, masking: bool, i: nat)
    requires Initial(s) && Run(s, es, masking) && i < |s.procs|
    ensures var t := Final(s, es, masking);
            && |t.procs| == |s.procs|
            && CallsOf(es, i) <= MAX_CALLS
            && (CallsOf(es, i) == MAX_CALLS ==> Halted(t.procs[i].at))
            && (t.procs[i].at == Done(ThrewBusy) ==>
                  t.procs[i].creates == t.procs[i].busy == 51 && t.procs[i].lookups == t.procs[i].keyless == 53)
  {
    TalliedRun(s, es, masking, i);
    var p := Final(s, es, masking).procs[i];
    if !Halted(p.at) {
      EveryCallSpendsFuel(p.at, Failed);
    }
  }

  // A process that has not ended can always make its next call, so no schedule blocks it.
  lemma NeverBlocked(s: System, i: nat)
    requires i < |s.procs| && !Halted(s.procs[i].at)
    ensures exists a :: Enabled(s, Call(i, a), false)
  {
    var p := s.procs[i].at;
    var a := if p.LockedReading? && s.file.Holds? then KeyRead(s.file.key)
             else if p.LockedReading? || ReadsOutsideLock(p) then NoKey else Failed;
    assert Enabled(s, Call(i, a), false);
  }
}
