/** The locking callback rust-openssl installs for OpenSSL 1.0.x (`ossl10x.rs`).
  *
  * All threads share a vector of mutexes and an unsynchronised vector of guard slots. A call is
  * split at every access to shared state, so the theorems cover every interleaving of any number of
  * threads:
  *
  *   lock n:    acquire mutex n | drop what slot n holds | write the guard to slot n
  *   unlock n:  read slot n     | clear slot n           | drop the guard read, or abort */
module LockingCallback {
  import opened Wrappers

  type Tid = nat

  const CRYPTO_LOCK: nat := 1

  /** `mode & CRYPTO_LOCK != 0`. */
  predicate Locks(mode: nat) {
    mode % 2 == CRYPTO_LOCK
  }

  /** Where a thread is inside a call. A guard is named after the thread that acquired the mutex. */
  datatype Pc =
    | Outside
    | Acquired(n: nat)
    | Dropped(n: nat, dropped: Option<Tid>)
    | Read(n: nat, found: Option<Tid>)
    | Cleared(n: nat, found: Option<Tid>)

  /** `held`: the locks this thread locked and has not begun to unlock. */
  datatype Thread = Thread(pc: Pc, held: set<nat>)

  datatype State = State(mutexes: seq<Option<Tid>>, guards: seq<Option<Tid>>, threads: map<Tid, Thread>, aborted: bool)
  {
    predicate Shape() {
      |mutexes| == |guards|
    }

    function At(t: Tid): Thread {
      if t in threads then threads[t] else Thread(Outside, {})
    }
  }

  function Initial(locks: nat): (s: State) {
    State(seq(locks, _ => None), seq(locks, _ => None), map[], false)
  }

  datatype Action = Enter(t: Tid, mode: nat, n: nat) | Go(t: Tid)

  /** Acquiring blocks while the mutex is taken; everything else inside a call just runs on. */
  predicate Enabled(s: State, a: Action) {
    && s.Shape() && !s.aborted
    && match a
       case Enter(t, mode, n) => s.At(t).pc.Outside? && n < |s.mutexes| && (Locks(mode) ==> s.mutexes[n].None?)
       case Go(t) => !s.At(t).pc.Outside? && s.At(t).pc.n < |s.mutexes|
  }

  /** OpenSSL's side of the bargain: a thread unlocks only locks it holds. */
  predicate Disciplined(s: State, a: Action) {
    a.Enter? && !Locks(a.mode) ==> a.n in s.At(a.t).held
  }

  function Next(s: State, a: Action): (r: State)
    requires Enabled(s, a)
    ensures r.Shape() && |r.mutexes| == |s.mutexes|
  {
    var me := s.At(a.t);
    match a
    case Enter(t, mode, n) =>
      if Locks(mode) then
        s.(mutexes := s.mutexes[n := Some(t)], threads := s.threads[t := me.(pc := Acquired(n))])
      else
        s.(threads := s.threads[t := Thread(Read(n, s.guards[n]), me.held - {n})])
    case Go(t) =>
      match me.pc
      case Acquired(n) =>
        s.(mutexes := if s.guards[n].Some? then s.mutexes[n := None] else s.mutexes,
           threads := s.threads[t := me.(pc := Dropped(n, s.guards[n]))])
      case Dropped(n, _) =>
        s.(guards := s.guards[n := Some(t)], threads := s.threads[t := Thread(Outside, me.held + {n})])
      case Read(n, found) =>
        s.(guards := s.guards[n := None], threads := s.threads[t := me.(pc := Cleared(n, found))])
      case Cleared(n, found) =>
        if found.None? then s.(aborted := true)
        else s.(mutexes := s.mutexes[n := None], threads := s.threads[t := me.(pc := Outside)])
  }

  // ---------------------------------------------------------------- the invariant

  /** The thread is somewhere between acquiring mutex `n` and releasing it. */
  predicate Involved(s: State, t: Tid, n: nat) {
    n in s.At(t).held || (!s.At(t).pc.Outside? && s.At(t).pc.n == n)
  }

  /** Slot `n` and its owner's position agree. */
  predicate OwnerAgrees(s: State, t: Tid, n: nat)
    requires s.Shape() && n < |s.guards|
  {
    var me := s.At(t);
    if !me.pc.Outside? && me.pc.n == n then
      && n !in me.held
      && match me.pc
         case Acquired(_) => s.guards[n].None?
         case Dropped(_, dropped) => dropped.None? && s.guards[n].None?
         case Read(_, found) => found == Some(t) && s.guards[n] == Some(t)
         case Cleared(_, found) => found == Some(t) && s.guards[n].None?
    else n in me.held && s.guards[n] == Some(t)
  }

  ghost predicate LockSound(s: State, n: nat)
    requires s.Shape() && n < |s.mutexes|
  {
    match s.mutexes[n]
    case None => s.guards[n].None? && forall t: Tid :: !Involved(s, t, n)
    case Some(t) => OwnerAgrees(s, t, n) && forall u: Tid :: u != t ==> !Involved(s, u, n)
  }

  ghost predicate Sound(s: State) {
    && s.Shape() && !s.aborted
    && (forall n :: 0 <= n < |s.mutexes| ==> LockSound(s, n))
    && (forall t: Tid, n: nat :: Involved(s, t, n) ==> n < |s.mutexes|)
  }

  /** The lock an action is about. */
  function Target(s: State, a: Action): nat
    requires Enabled(s, a)
  {
    match a case Enter(_, _, n) => n case Go(t) => s.At(t).pc.n
  }

  lemma OtherLocksKeepSound(s: State, a: Action, n: nat)
    requires Sound(s) && Enabled(s, a) && Disciplined(s, a)
    requires n < |s.mutexes| && n != Target(s, a)
    ensures LockSound(Next(s, a), n)
  {
    var r := Next(s, a);
    assert forall u: Tid :: u != a.t ==> r.At(u) == s.At(u);
    assert LockSound(s, n);
    assert forall u: Tid :: Involved(r, u, n) == Involved(s, u, n);
  }

  lemma TargetLockKeepsSound(s: State, a: Action)
    requires Sound(s) && Enabled(s, a) && Disciplined(s, a)
    ensures !Next(s, a).aborted && LockSound(Next(s, a), Target(s, a))
  {
    var r, n := Next(s, a), Target(s, a);
    assert forall u: Tid :: u != a.t ==> r.At(u) == s.At(u);
    assert LockSound(s, n);
    assert a.Enter? && Locks(a.mode) ==> !Involved(s, a.t, n);
    assert a.Go? || !Locks(a.mode) ==> Involved(s, a.t, n);
    assert forall u: Tid :: u != a.t ==> Involved(r, u, n) == Involved(s, u, n);
  }

  lemma StepKeepsSound(s: State, a: Action)
    requires Sound(s) && Enabled(s, a) && Disciplined(s, a)
    ensures Sound(Next(s, a))
  {
    var r := Next(s, a);
    TargetLockKeepsSound(s, a);
    forall n | 0 <= n < |r.mutexes|
      ensures LockSound(r, n)
    {
      if n != Target(s, a) {
        OtherLocksKeepSound(s, a, n);
      }
    }
    forall t: Tid, n: nat | Involved(r, t, n)
      ensures n < |r.mutexes|
    {
      assert t != a.t ==> r.At(t) == s.At(t);
      assert Involved(s, t, n) || n == Target(s, a);
    }
  }

  // ---------------------------------------------------------------- all interleavings

  predicate Schedule(s: State, actions: seq<Action>)
    decreases |actions|
  {
    actions != [] ==>
      && Enabled(s, actions[0])
      && Schedule(Next(s, actions[0]), actions[1..])
  }

  predicate DisciplinedSchedule(s: State, actions: seq<Action>)
    requires Schedule(s, actions)
    decreases |actions|
  {
    actions != [] ==>
      && Disciplined(s, actions[0])
      && DisciplinedSchedule(Next(s, actions[0]), actions[1..])
  }

  function Run(s: State, actions: seq<Action>): State
    requires Schedule(s, actions)
    decreases |actions|
  {
    if actions == [] then s else Run(Next(s, actions[0]), actions[1..])
  }

  lemma {:induction false} RunKeepsSound(s: State, actions: seq<Action>)
    requires Sound(s) && Schedule(s, actions) && DisciplinedSchedule(s, actions)
    ensures Sound(Run(s, actions))
    decreases |actions|
  {
    if actions != [] {
      StepKeepsSound(s, actions[0]);
      RunKeepsSound(Next(s, actions[0]), actions[1..]);
    }
  }

  /** The action reads or writes a guard slot. */
  predicate TouchesSlot(s: State, a: Action, n: nat)
    requires Enabled(s, a)
  {
    && Target(s, a) == n
    && match a
       case Enter(_, mode, _) => !Locks(mode)
       case Go(t) => !s.At(t).pc.Cleared?
  }

  /** Over all interleavings of disciplined threads: the abort is not reached; two threads are never
    * both between acquiring and releasing the same mutex; a slot is touched only by the thread that
    * holds its mutex; and storing a guard finds the slot empty, so no guard is dropped by it. */
  lemma InterleavingsAreSafe(locks: nat, actions: seq<Action>)
    requires Schedule(Initial(locks), actions) && DisciplinedSchedule(Initial(locks), actions)
    ensures var s := Run(Initial(locks), actions);
            && !s.aborted && s.Shape()
            && (forall t, u, n :: Involved(s, t, n) && Involved(s, u, n) ==> t == u)
            && (forall a: Action, n: nat :: Enabled(s, a) && Disciplined(s, a) && TouchesSlot(s, a, n) ==>
                  s.mutexes[n] == Some(a.t))
            && (forall t :: (s.At(t).pc.Acquired? || s.At(t).pc.Dropped?) && s.At(t).pc.n < |s.guards| ==>
                  s.guards[s.At(t).pc.n].None?)
            && (forall t :: s.At(t).pc.Dropped? ==> s.At(t).pc.dropped.None?)
  {
    var s := Run(Initial(locks), actions);
    assert Sound(Initial(locks));
    RunKeepsSound(Initial(locks), actions);
    forall t, u, n | Involved(s, t, n) && Involved(s, u, n)
      ensures t == u
    {
      assert LockSound(s, n);
    }
    forall a: Action, n: nat | Enabled(s, a) && Disciplined(s, a) && TouchesSlot(s, a, n)
      ensures s.mutexes[n] == Some(a.t)
    {
      assert Involved(s, a.t, n);
      assert LockSound(s, n);
    }
    forall t | !s.At(t).pc.Outside?
      ensures (s.At(t).pc.Acquired? || s.At(t).pc.Dropped?) && s.At(t).pc.n < |s.guards| ==>
                s.guards[s.At(t).pc.n].None?
      ensures s.At(t).pc.Dropped? ==> s.At(t).pc.dropped.None?
    {
      assert Involved(s, t, s.At(t).pc.n);
      assert LockSound(s, s.At(t).pc.n);
    }
  }

  // ---------------------------------------------------------------- why discipline is needed

  predicate Quiescent(s: State) {
    forall t :: t in s.threads ==> s.threads[t].pc.Outside?
  }

  /** An unlock call running on its own. */
  function UnlockAlone(s: State, t: Tid, mode: nat, n: nat): State
    requires mode % 2 == 0 && Enabled(s, Enter(t, mode, n))
  {
    Next(Next(Next(s, Enter(t, mode, n)), Go(t)), Go(t))
  }

  /** Between calls, a call with the low bit of the mode clear is an unlock. It keeps the invariant exactly
    * when the caller holds the lock, and aborts exactly when nobody does; when another thread does, it frees
    * that thread's mutex. */
  lemma UnlockNeedsTheHolder(s: State, t: Tid, mode: nat, n: nat)
    requires Sound(s) && Quiescent(s) && n < |s.mutexes| && mode % 2 == 0
    ensures var r := UnlockAlone(s, t, mode, n);
            && (Sound(r) <==> n in s.At(t).held)
            && (r.aborted <==> forall u: Tid :: n !in s.At(u).held)
            && (!r.aborted ==> r.mutexes[n].None?)
  {
    var a := Enter(t, mode, n);
    var r := UnlockAlone(s, t, mode, n);
    assert LockSound(s, n);
    if n in s.At(t).held {
      StepKeepsSound(s, a);
      StepKeepsSound(Next(s, a), Go(t));
      StepKeepsSound(Next(Next(s, a), Go(t)), Go(t));
    } else if s.mutexes[n].Some? {
      var u := s.mutexes[n].value;
      assert n in s.At(u).held && u != t;
      assert Involved(r, u, n);
      assert !LockSound(r, n);
    } else {
      forall u: Tid
        ensures n !in s.At(u).held
      {
        assert !Involved(s, u, n);
      }
    }
  }

  /** A lock call running on its own. */
  function LockAlone(s: State, t: Tid, mode: nat, n: nat): State
    requires mode % 2 == 1 && Enabled(s, Enter(t, mode, n))
  {
    Next(Next(Next(s, Enter(t, mode, n)), Go(t)), Go(t))
  }

  /** A call with the low bit of the mode set, whatever the other bits, locks: from a free mutex it ends with
    * mutex, slot and lock in the caller's hands and everything else as it was. Unlocking gives all of it
    * back. */
  lemma LockThenUnlock(s: State, t: Tid, mode: nat, n: nat)
    requires Sound(s) && s.At(t).pc.Outside? && n < |s.mutexes| && s.mutexes[n].None?
    requires mode % 2 == 1
    ensures var r := LockAlone(s, t, mode, n);
            && r.mutexes == s.mutexes[n := Some(t)] && r.guards == s.guards[n := Some(t)] && !r.aborted
            && r.At(t) == Thread(Outside, s.At(t).held + {n})
            && (forall u: Tid :: u != t ==> r.At(u) == s.At(u))
            && var back := UnlockAlone(r, t, mode - 1, n);
            && back.mutexes == s.mutexes && back.guards == s.guards && !back.aborted
            && (forall u: Tid :: back.At(u) == s.At(u))
  {
    assert LockSound(s, n);
    assert !Involved(s, t, n);
    assert s.At(t).held + {n} - {n} == s.At(t).held;
  }

  // ---------------------------------------------------------------- the two global vectors

  class Library {
    var mutexes: array<Option<Tid>>
    var guards: array<Option<Tid>>
    var threads: map<Tid, Thread>
    var aborted: bool

    predicate Valid()
      reads this
    {
      mutexes != guards && mutexes.Length == guards.Length
    }

    function Snapshot(): State
      reads this, mutexes, guards
    {
      State(mutexes[..], guards[..], threads, aborted)
    }

    /** `init`: one mutex and one empty slot per lock. */
    constructor (numLocks: nat)
      ensures Valid() && fresh(mutexes) && fresh(guards)
      ensures Snapshot() == Initial(numLocks)
    {
      mutexes := new Option<Tid>[numLocks](_ => None);
      guards := new Option<Tid>[numLocks](_ => None);
      threads := map[];
      aborted := false;
    }

    /** One atomic piece of `locking_function`. */
    method Perform(a: Action)
      requires Valid() && Enabled(Snapshot(), a)
      modifies this`threads, this`aborted, mutexes, guards
      ensures Valid()
      ensures Snapshot() == Next(old(Snapshot()), a)
    {
      var t := a.t;
      var me := if t in threads then threads[t] else Thread(Outside, {});
      match a {
        case Enter(_, mode, n) =>
          if Locks(mode) {
            mutexes[n] := Some(t);
            threads := threads[t := me.(pc := Acquired(n))];
          } else {
            threads := threads[t := Thread(Read(n, guards[n]), me.held - {n})];
          }
        case Go(_) =>
          match me.pc {
            case Acquired(n) =>
              if guards[n].Some? {
                mutexes[n] := None;
              }
              threads := threads[t := me.(pc := Dropped(n, guards[n]))];
            case Dropped(n, _) =>
              guards[n] := Some(t);
              threads := threads[t := Thread(Outside, me.held + {n})];
            case Read(n, found) =>
              guards[n] := None;
              threads := threads[t := me.(pc := Cleared(n, found))];
            case Cleared(n, found) =>
              if found.None? {
                aborted := true;
              } else {
                mutexes[n] := None;
                threads := threads[t := me.(pc := Outside)];
              }
          }
      }
    }
  }
}
