/** Where rust-openssl keeps closures handed to OpenSSL (`ssl/mod.rs`, `ssl/callbacks.rs`).
  *
  * Every closure type gets one extra-data index, remembered in a global map; the NPN and ALPN protocol
  * lists have an index each, allocated at first use; callers may allocate more. A setter stores a box
  * under its index on one context, and the C trampoline, generic in the closure type, looks the index
  * up again and trusts that the pointer there is of its own type. */
module CallbackRegistry {
  import opened Wrappers

  type TypeId = nat
  type CtxId = nat
  type Index = nat

  /** What an index is for. An `Extra` index is handed to a caller, who names it by itself. */
  datatype Purpose = Closure(f: TypeId) | NpnProtos | AlpnProtos | Extra(idx: Index)

  /** A box on the heap behind an untyped pointer; `purpose` is the type it really has. */
  datatype Boxed = Boxed(purpose: Purpose, value: nat)

  type Slots = map<Index, Boxed>

  /** `indexes`: the three places indices are kept, seen as one map. `issued`: what the allocator gave
    * out so far. */
  datatype State = State(indexes: map<Purpose, Index>, issued: set<Index>, contexts: map<CtxId, Slots>) {

    function SlotsOf(c: CtxId): Slots {
      if c in contexts then contexts[c] else map[]
    }
  }

  /** `get_callback_idx` and the lazy statics: the first lookup allocates, later ones remember. */
  function Lookup(s: State, purpose: Purpose, next: Index): (State, Index) {
    if purpose in s.indexes then (s, s.indexes[purpose])
    else (s.(indexes := s.indexes[purpose := next], issued := s.issued + {next}), next)
  }

  datatype Op =
    | Store(c: CtxId, purpose: Purpose, value: nat, next: Index, stored: bool)  // any setter
    | NewExIndex(next: Index)
    | Trampoline(c: CtxId, f: TypeId, next: Index)

  /** The allocator's contract, and what the types demand: a caller has an extra index only if it was
    * allocated. */
  predicate Allowed(s: State, op: Op) {
    && op.next !in s.issued
    && (op.Store? && op.purpose.Extra? ==> op.purpose in s.indexes)
  }

  /** `stored` is false when the foreign store fails; the callback setters ignore that. */
  function Step(s: State, op: Op): State {
    match op
    case Store(c, purpose, value, next, stored) =>
      var (s1, idx) := Lookup(s, purpose, next);
      if stored then s1.(contexts := s1.contexts[c := s1.SlotsOf(c)[idx := Boxed(purpose, value)]]) else s1
    case NewExIndex(next) => Lookup(s, Extra(next), next).0
    case Trampoline(_, f, next) => Lookup(s, Closure(f), next).0
  }

  /** The pointer a reader for this purpose would find on this context; `None` is a null pointer. */
  function Peek(s: State, c: CtxId, purpose: Purpose): Option<Boxed> {
    if purpose in s.indexes && s.indexes[purpose] in s.SlotsOf(c)
    then Some(s.SlotsOf(c)[s.indexes[purpose]])
    else None
  }

  const FRESH: State := State(map[], {}, map[])

  predicate AllowedRun(ops: seq<Op>) {
    ops != [] ==>
      var n := |ops| - 1;
      AllowedRun(ops[..n]) && Allowed(Run(ops[..n]), ops[n])
  }

  function Run(ops: seq<Op>): State {
    if ops == [] then FRESH else Step(Run(ops[..|ops| - 1]), ops[|ops| - 1])
  }

  // ---------------------------------------------------------------- the invariant

  ghost predicate Sound(s: State) {
    && (forall p, q :: p in s.indexes && q in s.indexes && s.indexes[p] == s.indexes[q] ==> p == q)
    && (forall p :: p in s.indexes ==> s.indexes[p] in s.issued)
    && (forall p :: p in s.indexes && p.Extra? ==> s.indexes[p] == p.idx)
    && (forall c, i :: c in s.contexts && i in s.contexts[c] ==>
          s.contexts[c][i].purpose in s.indexes && s.indexes[s.contexts[c][i].purpose] == i)
  }

  lemma LookupKeepsSound(s: State, purpose: Purpose, next: Index)
    requires Sound(s) && next !in s.issued && (purpose.Extra? ==> purpose in s.indexes || purpose.idx == next)
    ensures var (r, idx) := Lookup(s, purpose, next);
            && Sound(r)
            && purpose in r.indexes && r.indexes[purpose] == idx
            && (forall p :: p in s.indexes ==> p in r.indexes && r.indexes[p] == s.indexes[p])
            && r.contexts == s.contexts
  {
  }

  lemma StepKeepsSound(s: State, op: Op)
    requires Sound(s) && Allowed(s, op)
    ensures Sound(Step(s, op))
    ensures forall p :: p in s.indexes ==> p in Step(s, op).indexes && Step(s, op).indexes[p] == s.indexes[p]
  {
    match op {
      case Store(c, purpose, value, next, stored) => LookupKeepsSound(s, purpose, next);
      case NewExIndex(next) => LookupKeepsSound(s, Extra(next), next);
      case Trampoline(_, f, next) => LookupKeepsSound(s, Closure(f), next);
    }
  }

  /** Every operation leaves its purpose with an index: the one it had, or else the allocator's. In particular
    * an index a caller asked for can be stored under from then on. */
  lemma StepAssigns(s: State, op: Op)
    requires Sound(s) && Allowed(s, op)
    ensures var p := match op
              case Store(_, purpose, _, _, _) => purpose
              case NewExIndex(next) => Extra(next)
              case Trampoline(_, f, _) => Closure(f);
            p in Step(s, op).indexes
            && Step(s, op).indexes[p] == if p in s.indexes then s.indexes[p] else op.next
  {
  }

  lemma {:induction false} RunIsSound(ops: seq<Op>)
    requires AllowedRun(ops)
    ensures Sound(Run(ops))
  {
    if ops != [] {
      RunIsSound(ops[..|ops| - 1]);
      StepKeepsSound(Run(ops[..|ops| - 1]), ops[|ops| - 1]);
    }
  }

  /** An index, once assigned, never changes, and no two purposes ever share one. */
  lemma {:induction false} IndexesAreForever(ops: seq<Op>, k: nat, p: Purpose, q: Purpose)
    requires AllowedRun(ops) && k <= |ops|
    requires p in Run(ops[..k]).indexes
    ensures p in Run(ops).indexes && Run(ops).indexes[p] == Run(ops[..k]).indexes[p]
    ensures q in Run(ops).indexes && Run(ops).indexes[q] == Run(ops).indexes[p] ==> q == p
    decreases |ops|
  {
    RunIsSound(ops);
    if k == |ops| {
      assert ops[..k] == ops;
    } else {
      var init := ops[..|ops| - 1];
      assert init[..k] == ops[..k];
      IndexesAreForever(init, k, p, p);
      RunIsSound(init);
      StepKeepsSound(Run(init), ops[|ops| - 1]);
    }
  }

  // ---------------------------------------------------------------- reading back

  /** The last value stored for this purpose on this context, read off the operations alone. */
  function LastStored(ops: seq<Op>, c: CtxId, purpose: Purpose): Option<nat> {
    if ops == [] then None
    else
      var op := ops[|ops| - 1];
      if op.Store? && op.c == c && op.purpose == purpose && op.stored then Some(op.value)
      else LastStored(ops[..|ops| - 1], c, purpose)
  }

  /** Looking an index up changes no pointer anybody finds. */
  lemma PeekAfterLookup(s: State, looked: Purpose, next: Index, c: CtxId, purpose: Purpose)
    requires Sound(s) && next !in s.issued
    ensures Peek(Lookup(s, looked, next).0, c, purpose) == Peek(s, c, purpose)
  {
  }

  /** Storing under an index reaches the reader for that purpose on that context, and no other. */
  lemma PeekAfterPut(s: State, d: CtxId, put: Purpose, value: nat, c: CtxId, purpose: Purpose)
    requires Sound(s) && put in s.indexes
    ensures var slots := s.SlotsOf(d)[s.indexes[put] := Boxed(put, value)];
            Peek(s.(contexts := s.contexts[d := slots]), c, purpose)
            == if d == c && put == purpose then Some(Boxed(purpose, value)) else Peek(s, c, purpose)
  {
  }

  lemma PeekAfterStep(s: State, op: Op, c: CtxId, purpose: Purpose)
    requires Sound(s) && Allowed(s, op)
    ensures Peek(Step(s, op), c, purpose)
            == if op.Store? && op.c == c && op.purpose == purpose && op.stored then Some(Boxed(purpose, op.value))
               else Peek(s, c, purpose)
  {
    match op {
      case Store(d, put, value, next, _) =>
        LookupKeepsSound(s, put, next);
        PeekAfterLookup(s, put, next, c, purpose);
        PeekAfterPut(Lookup(s, put, next).0, d, put, value, c, purpose);
      case NewExIndex(next) => PeekAfterLookup(s, Extra(next), next, c, purpose);
      case Trampoline(_, f, next) => PeekAfterLookup(s, Closure(f), next, c, purpose);
    }
  }

  /** After any sequence of setters, index allocations and trampolines, on any number of contexts: the
    * reader for a purpose finds the last value stored for it on that context, of its own type, and a
    * null pointer exactly if nothing was. */
  lemma {:induction false} ReadersFindTheLastValue(ops: seq<Op>, c: CtxId, purpose: Purpose)
    requires AllowedRun(ops)
    ensures Peek(Run(ops), c, purpose)
            == match LastStored(ops, c, purpose) case None => None case Some(v) => Some(Boxed(purpose, v))
  {
    if ops != [] {
      var init := ops[..|ops| - 1];
      ReadersFindTheLastValue(init, c, purpose);
      RunIsSound(init);
      PeekAfterStep(Run(init), ops[|ops| - 1], c, purpose);
    }
  }

  // ---------------------------------------------------------------- the global state

  class Registry {
    var indexes: map<Purpose, Index>
    var issued: set<Index>
    var contexts: map<CtxId, Slots>

    function Value(): State
      reads this
    {
      State(indexes, issued, contexts)
    }

    constructor ()
      ensures Value() == FRESH
    {
      indexes, issued, contexts := map[], {}, map[];
    }

    /** `entry(..).or_insert_with(..)`; `next` is what the allocator would return. */
    method GetIdx(purpose: Purpose, next: Index) returns (idx: Index)
      modifies this`indexes, this`issued
      ensures (Value(), idx) == Lookup(old(Value()), purpose, next)
    {
      if purpose !in indexes {
        issued := issued + {next};
        indexes := indexes[purpose := next];
      }
      return indexes[purpose];
    }

    method SetExData(c: CtxId, idx: Index, boxed: Boxed, stored: bool)
      modifies this`contexts
      ensures contexts
              == if stored then old(contexts)[c := old(Value()).SlotsOf(c)[idx := boxed]] else old(contexts)
    {
      if stored {
        contexts := contexts[c := (if c in contexts then contexts[c] else map[])[idx := boxed]];
      }
    }

    method Set(c: CtxId, purpose: Purpose, value: nat, next: Index, stored: bool)
      modifies this
      ensures Value() == Step(old(Value()), Store(c, purpose, value, next, stored))
    {
      var idx := GetIdx(purpose, next);
      SetExData(c, idx, Boxed(purpose, value), stored);
    }

    /** What the trampoline for closure type `f` dereferences. */
    method CallTrampoline(c: CtxId, f: TypeId, next: Index) returns (found: Option<Boxed>)
      modifies this
      ensures Value() == Step(old(Value()), Trampoline(c, f, next))
      ensures found == Peek(Value(), c, Closure(f))
    {
      var idx := GetIdx(Closure(f), next);
      found := if c in contexts && idx in contexts[c] then Some(contexts[c][idx]) else None;
    }
  }
}
