/**
 The key-file publication protocol of mobile/scripts/mock-server-key-pair.ts.

 `Advance` is one process as an automaton that makes a system call, receives an answer and moves on;
 `Caller` is the same process written as the retry loops of the source, and is proved to follow the
 automaton.  `System` puts any number of such processes around one key file and one lock file, with
 every interleaving, crash and failing call allowed.
 */
module KeyPair {

  const LOCK_ATTEMPTS: nat := 50
  const RENAME_ATTEMPTS: nat := 5
  // System calls one process can make before it returns or throws
  const MAX_CALLS: nat := 116

  type Key = nat

  datatype Outcome = Returned(key: Key) | ThrewBusy | ThrewError

  // What one system call (or the key generator) answers
  datatype Answer = KeyRead(key: Key) | NoKey | Created | Busy | Transient | Failed | Ok

  // The call a process is about to make
  datatype Point =
    | Start
    | Creating(attempt: nat)      // exclusive create of the lock file; LOCK_ATTEMPTS is the late one
    | Rereading(attempt: nat)     // key file read after the create found the lock
    | ReadingWinner
    | LockedReading
    | Minting
    | OpeningTemp(key: Key)
    | FillingTemp(key: Key)
    | Restricting(key: Key)
    | Renaming(key: Key, attempt: nat)
    | RemovingTemp(out: Outcome)
    | Closing(out: Outcome)
    | Unlinking(out: Outcome)
    | Done(out: Outcome)
    | Crashed

  function Advance(p: Point, a: Answer): Point {
    match p
    case Start => if a.KeyRead? then Done(Returned(a.key)) else Creating(0)
    case Creating(n) =>
      if a.Created? then LockedReading else if a.Busy? then Rereading(n) else Done(ThrewError)
    case Rereading(n) =>
      if a.KeyRead? then Done(Returned(a.key))
      else if n + 1 < LOCK_ATTEMPTS then Creating(n + 1)
      else if n + 1 == LOCK_ATTEMPTS then ReadingWinner
      else Done(ThrewBusy)
    case ReadingWinner => if a.KeyRead? then Done(Returned(a.key)) else Creating(LOCK_ATTEMPTS)
    case LockedReading => if a.KeyRead? then Closing(Returned(a.key)) else Minting
    case Minting => if a.KeyRead? then OpeningTemp(a.key) else Closing(ThrewError)
    case OpeningTemp(k) => if a.Ok? then FillingTemp(k) else RemovingTemp(ThrewError)
    case FillingTemp(k) => if a.Ok? then Restricting(k) else RemovingTemp(ThrewError)
    case Restricting(k) => if a.Ok? then Renaming(k, 0) else RemovingTemp(ThrewError)
    case Renaming(k, n) =>
      if a.Ok? then RemovingTemp(Returned(k))
      else if a.Transient? && n + 1 < RENAME_ATTEMPTS then Renaming(k, n + 1)
      else RemovingTemp(ThrewError)
    case RemovingTemp(o) => Closing(o)
    case Closing(o) => Unlinking(o)
    case Unlinking(o) => Done(o)
    case Done(_) => p
    case Crashed => p
  }

  // The most calls still ahead of a process
  function Fuel(p: Point): nat {
    match p
    case Start => MAX_CALLS
    case Creating(n) => if n < LOCK_ATTEMPTS then 15 + 2 * (LOCK_ATTEMPTS - n) else 14
    case Rereading(n) => if n < LOCK_ATTEMPTS then 14 + 2 * (LOCK_ATTEMPTS - n) else 1
    case ReadingWinner => 15
    case LockedReading => 13
    case Minting => 12
    case OpeningTemp(_) => 11
    case FillingTemp(_) => 10
    case Restricting(_) => 9
    case Renaming(_, n) => if n < RENAME_ATTEMPTS then 3 + RENAME_ATTEMPTS - n else 4
    case RemovingTemp(_) => 3
    case Closing(_) => 2
    case Unlinking(_) => 1
    case Done(_) => 0
    case Crashed => 0
  }

  predicate Halted(p: Point) { p.Done? || p.Crashed? }

  // Every answer, however hostile, brings the process closer to its end.
  lemma EveryCallSpendsFuel(p: Point, a: Answer)
    requires !Halted(p)
    ensures Fuel(Advance(p, a)) < Fuel(p)
  {
  }

  // ---------- the source's loops follow the automaton ----------

  // The automaton after the first `calls` answers of `world`
  function Follow(world: nat -> Answer, calls: nat): Point {
    if calls == 0 then Start else Advance(Follow(world, calls - 1), world(calls - 1))
  }

  datatype LockResult = Locked | Winner(key: Key) | LockThrew(out: Outcome)

  // One process.  `world(n)` is the answer to its n-th call; `made` counts the calls made so far.
  class Caller {
    const world: nat -> Answer
    var made: nat

    constructor (world: nat -> Answer)
      ensures this.world == world && made == 0
    {
      this.world := world;
      made := 0;
    }

    // Where the automaton stands after the calls made so far
    ghost function At(): Point
      reads this
    {
      Follow(world, made)
    }

    ghost predicate InBudget()
      reads this
    {
      made + Fuel(At()) <= MAX_CALLS
    }

    method Ask() returns (a: Answer)
      requires !Halted(At()) && InBudget()
      modifies this`made
      ensures InBudget()
      ensures a == world(old(made)) && made == old(made) + 1
      ensures At() == Advance(old(At()), a)
    {
      a := world(made);
      made := made + 1;
    }

    method AcquireKeyLock() returns (r: LockResult)
      requires At() == Creating(0) && InBudget()
      modifies this`made
      ensures InBudget()
      ensures r.Locked? ==> At() == LockedReading
      ensures r.Winner? ==> At() == Done(Returned(r.key))
      ensures r.LockThrew? ==> At() == Done(r.out)
    {
      for attempt := 0 to LOCK_ATTEMPTS
        invariant InBudget()
        invariant At() == if attempt < LOCK_ATTEMPTS then Creating(attempt) else ReadingWinner
      {
        var created := Ask();
        if created.Created? {
          return Locked;
        }
        if !created.Busy? {
          return LockThrew(ThrewError);
        }
        var concurrent := Ask();
        if concurrent.KeyRead? {
          return Winner(concurrent.key);
        }
      }
      var winner := Ask();
      if winner.KeyRead? {
        return Winner(winner.key);
      }
      var created := Ask();
      if created.Created? {
        return Locked;
      }
      if !created.Busy? {
        return LockThrew(ThrewError);
      }
      var lateWinner := Ask();
      if lateWinner.KeyRead? {
        return Winner(lateWinner.key);
      }
      return LockThrew(ThrewBusy);
    }

    method RenameKeyFile(ghost key: Key) returns (ok: bool)
      requires At() == Renaming(key, 0) && InBudget()
      modifies this`made
      ensures InBudget()
      ensures At() == RemovingTemp(if ok then Returned(key) else ThrewError)
    {
      ok := false;
      for attempt := 0 to RENAME_ATTEMPTS
        invariant attempt < RENAME_ATTEMPTS ==> At() == Renaming(key, attempt)
        invariant InBudget() && attempt < RENAME_ATTEMPTS
      {
        var renamed := Ask();
        if renamed.Ok? {
          return true;
        }
        if !renamed.Transient? || attempt == RENAME_ATTEMPTS - 1 {
          return false;
        }
      }
      assert false;
    }

    method PersistKeyPair(key: Key) returns (ok: bool)
      requires At() == OpeningTemp(key) && InBudget()
      modifies this`made
      ensures InBudget()
      ensures At() == Closing(if ok then Returned(key) else ThrewError)
    {
      ok := false;
      var temp := Ask();
      if temp.Ok? {
        var filled := Ask();
        if filled.Ok? {
          var restricted := Ask();
          if restricted.Ok? {
            ok := RenameKeyFile(key);
          }
        }
      }
      var removed := Ask();
    }

    method ReleaseKeyLock(ghost out: Outcome)
      requires At() == Closing(out) && InBudget()
      modifies this`made
      ensures InBudget()
      ensures At() == Done(out)
    {
      var closed := Ask();
      var unlinked := Ask();
    }

    // The whole call: it makes at most MAX_CALLS calls and ends exactly where the automaton ends.
    method LoadOrCreate(keyFile: bool) returns (out: Outcome)
      requires made == 0
      modifies this`made
      ensures keyFile ==> At() == Done(out) && made <= MAX_CALLS
      // Without a key file the only call is to the generator.
      ensures !keyFile ==> made == 1 && out == if world(0).KeyRead? then Returned(world(0).key) else ThrewError
    {
      if !keyFile {
        var generated := Ask();
        return if generated.KeyRead? then Returned(generated.key) else ThrewError;
      }
      var existing := Ask();
      if existing.KeyRead? {
        out := Returned(existing.key);
        return;
      }
      var lock := AcquireKeyLock();
      if !lock.Locked? {
        out := if lock.Winner? then Returned(lock.key) else lock.out;
        return;
      }
      var current := Ask();
      if current.KeyRead? {
        out := Returned(current.key);
      } else {
        var minted := Ask();
        if minted.KeyRead? {
          var ok := PersistKeyPair(minted.key);
          out := if ok then Returned(minted.key) else ThrewError;
        } else {
          out := ThrewError;
        }
      }
      ReleaseKeyLock(out);
    }
  }
}
