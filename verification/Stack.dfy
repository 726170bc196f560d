/** Ownership in the wrapper of OpenSSL's stacks (`stack.rs`).
  *
  * The C stack stores raw pointers. Pushing forgets the Rust value, popping makes one again, and the
  * consuming iterator leaves the pointers it has handed out in the C array behind its cursor. Who owns
  * an element is therefore a matter of bookkeeping, which this file makes explicit. */
module Stack {
  import opened Wrappers

  type Elem = nat

  /** A stack's shell: a `Stack` value, an `IntoIter` over the same C array, or freed memory. */
  datatype Shell = Live(items: seq<Elem>) | Draining(items: seq<Elem>, idx: nat) | Freed {

    predicate Sound() {
      Draining? ==> idx <= |items|
    }

    /** The elements this shell owns. */
    function Owned(): multiset<Elem>
      requires Sound()
    {
      match this
      case Live(items) => multiset(items)
      case Draining(items, idx) => multiset(items[idx..])
      case Freed => multiset{}
    }
  }

  /** `caller`: elements held as Rust values. `dropped`: elements freed, with multiplicity.
    * `shellFrees[i]`: how often the memory of shell `i` was freed. */
  datatype World = World(shells: seq<Shell>, caller: multiset<Elem>, dropped: multiset<Elem>, shellFrees: seq<nat>)

  datatype Op =
    | New
    | DropElem(e: Elem)
    | Use(s: nat, use: Use)

  datatype Use = Push(e: Elem, ok: bool) | Pop | IntoIter | Next | DropShell

  /** What using a shell does: its new value, and the elements passed to and from the caller and freed. */
  datatype Effect = Effect(
    shell: Shell,
    given: multiset<Elem>,
    taken: multiset<Elem>,
    buried: multiset<Elem>,
    frees: nat)

  predicate Usable(sh: Shell, use: Use) {
    && sh.Sound()
    && match use
       case Push(_, _) => sh.Live?
       case Pop => sh.Live?
       case IntoIter => sh.Live?
       case Next => sh.Draining?
       case DropShell => !sh.Freed?
  }

  function Apply(sh: Shell, use: Use): Effect
    requires Usable(sh, use)
  {
    match use
    case Push(e, ok) =>
      if ok then Effect(Live(sh.items + [e]), multiset{}, multiset{e}, multiset{}, 0)
      else Effect(sh, multiset{}, multiset{e}, multiset{e}, 0)
    case Pop =>
      if sh.items == [] then Effect(sh, multiset{}, multiset{}, multiset{}, 0)
      else
        var n := |sh.items| - 1;
        Effect(Live(sh.items[..n]), multiset{sh.items[n]}, multiset{}, multiset{}, 0)
    case IntoIter => Effect(Draining(sh.items, 0), multiset{}, multiset{}, multiset{}, 0)
    case Next =>
      if sh.idx == |sh.items| then Effect(sh, multiset{}, multiset{}, multiset{}, 0)
      else Effect(sh.(idx := sh.idx + 1), multiset{sh.items[sh.idx]}, multiset{}, multiset{}, 0)
    case DropShell => Effect(Freed, multiset{}, multiset{}, sh.Owned(), 1)
  }

  /** What Rust's ownership rules let a caller write. */
  predicate Allowed(w: World, op: Op) {
    && |w.shellFrees| == |w.shells|
    && match op
       case New => true
       case DropElem(e) => e in w.caller
       case Use(s, use) => s < |w.shells| && Usable(w.shells[s], use) && (use.Push? ==> use.e in w.caller)
  }

  function Step(w: World, op: Op): World
    requires Allowed(w, op)
  {
    match op
    case New => w.(shells := w.shells + [Live([])], shellFrees := w.shellFrees + [0])
    case DropElem(e) => w.(caller := w.caller - multiset{e}, dropped := w.dropped + multiset{e})
    case Use(s, use) => Absorb(w, s, Apply(w.shells[s], use))
  }

  function Absorb(w: World, s: nat, effect: Effect): World
    requires s < |w.shells| == |w.shellFrees|
  {
    World(w.shells[s := effect.shell], w.caller - effect.taken + effect.given, w.dropped + effect.buried,
          w.shellFrees[s := w.shellFrees[s] + effect.frees])
  }

  predicate SoundShells(shells: seq<Shell>) {
    forall i :: 0 <= i < |shells| ==> shells[i].Sound()
  }

  /** How often `e` is owned by these shells. */
  function OwnedBy(shells: seq<Shell>, e: Elem): nat
    requires SoundShells(shells)
  {
    if shells == [] then 0 else shells[0].Owned()[e] + OwnedBy(shells[1..], e)
  }

  lemma {:induction false} OwnedByUpdate(shells: seq<Shell>, s: nat, sh: Shell, e: Elem)
    requires SoundShells(shells) && s < |shells| && sh.Sound()
    ensures SoundShells(shells[s := sh])
    ensures OwnedBy(shells[s := sh], e) + shells[s].Owned()[e] == OwnedBy(shells, e) + sh.Owned()[e]
  {
    if s == 0 {
      assert shells[0 := sh][1..] == shells[1..];
    } else {
      assert shells[s := sh][1..] == shells[1..][s - 1 := sh];
      OwnedByUpdate(shells[1..], s - 1, sh, e);
    }
  }

  lemma {:induction false} OwnedByAppend(shells: seq<Shell>, sh: Shell, e: Elem)
    requires SoundShells(shells) && sh.Sound()
    ensures OwnedBy(shells + [sh], e) == OwnedBy(shells, e) + sh.Owned()[e]
  {
    if shells == [] {
      assert (shells + [sh])[1..] == [];
    } else {
      assert (shells + [sh])[1..] == shells[1..] + [sh];
      OwnedByAppend(shells[1..], sh, e);
    }
  }

  /** All owners of `e` there are: the caller, the shells, and the graveyard. */
  function Total(w: World, e: Elem): nat
    requires SoundShells(w.shells)
  {
    w.caller[e] + OwnedBy(w.shells, e) + w.dropped[e]
  }

  predicate Sound(w: World) {
    && SoundShells(w.shells)
    && |w.shellFrees| == |w.shells|
    && forall i :: 0 <= i < |w.shells| ==> w.shellFrees[i] == if w.shells[i].Freed? then 1 else 0
  }

  lemma MovesOne(items: seq<Elem>, idx: nat)
    ensures idx < |items| ==> multiset(items[idx..]) == multiset{items[idx]} + multiset(items[idx + 1..])
    ensures items != [] ==> multiset(items) == multiset(items[..|items| - 1]) + multiset{items[|items| - 1]}
  {
    if idx < |items| {
      assert items[idx..] == [items[idx]] + items[idx + 1..];
    }
    if items != [] {
      assert items == items[..|items| - 1] + [items[|items| - 1]];
    }
  }

  /** What a use takes from the shell and the caller it leaves with the shell, the caller or the dead. */
  predicate Balanced(sh: Shell, effect: Effect, e: Elem)
    requires sh.Sound()
  {
    && effect.shell.Sound()
    && sh.Owned()[e] + effect.taken[e] == effect.shell.Owned()[e] + effect.given[e] + effect.buried[e]
    && effect.frees == (if effect.shell.Freed? then 1 else 0)
  }

  lemma LiveUseMoves(sh: Shell, use: Use, e: Elem)
    requires Usable(sh, use) && sh.Live?
    ensures Balanced(sh, Apply(sh, use), e)
  {
    MovesOne(sh.items, 0);
    assert sh.items[0..] == sh.items;
  }

  lemma DrainingUseMoves(sh: Shell, use: Use, e: Elem)
    requires Usable(sh, use) && sh.Draining?
    ensures Balanced(sh, Apply(sh, use), e)
  {
    MovesOne(sh.items, sh.idx);
  }

  /** The shell gives up exactly what the rest of the world gains. */
  lemma UseMoves(sh: Shell, use: Use, e: Elem)
    requires Usable(sh, use)
    ensures Balanced(sh, Apply(sh, use), e)
  {
    if sh.Live? {
      LiveUseMoves(sh, use, e);
    } else {
      DrainingUseMoves(sh, use, e);
    }
  }

  lemma AbsorbConserves(w: World, s: nat, effect: Effect, e: Elem)
    requires Sound(w) && s < |w.shells| && !w.shells[s].Freed?
    requires effect.taken <= w.caller
    requires Balanced(w.shells[s], effect, e)
    ensures Sound(Absorb(w, s, effect)) && Total(Absorb(w, s, effect), e) == Total(w, e)
  {
    OwnedByUpdate(w.shells, s, effect.shell, e);
    assert (w.caller - effect.taken + effect.given)[e] == w.caller[e] - effect.taken[e] + effect.given[e];
  }

  lemma UseConserves(w: World, s: nat, use: Use, e: Elem)
    requires Sound(w) && Allowed(w, Use(s, use))
    ensures Sound(Step(w, Use(s, use))) && Total(Step(w, Use(s, use)), e) == Total(w, e)
  {
    UseMoves(w.shells[s], use, e);
    var effect := Apply(w.shells[s], use);
    assert effect.taken <= w.caller && !w.shells[s].Freed?;
    AbsorbConserves(w, s, effect, e);
  }

  lemma NewConserves(w: World, e: Elem)
    requires Sound(w)
    ensures Sound(Step(w, New)) && Total(Step(w, New), e) == Total(w, e)
  {
    OwnedByAppend(w.shells, Live([]), e);
    assert Live([]).Owned() == multiset{};
  }

  lemma StepConserves(w: World, op: Op, e: Elem)
    requires Sound(w) && Allowed(w, op)
    ensures Sound(Step(w, op)) && Total(Step(w, op), e) == Total(w, e)
  {
    match op {
      case New => NewConserves(w, e);
      case DropElem(_) =>
      case Use(s, use) => UseConserves(w, s, use, e);
    }
  }

  predicate AllowedRun(w: World, ops: seq<Op>)
    decreases |ops|
  {
    ops != [] ==> Allowed(w, ops[0]) && AllowedRun(Step(w, ops[0]), ops[1..])
  }

  function Run(w: World, ops: seq<Op>): World
    requires AllowedRun(w, ops)
    decreases |ops|
  {
    if ops == [] then w else Run(Step(w, ops[0]), ops[1..])
  }

  lemma {:induction false} RunConserves(w: World, ops: seq<Op>, e: Elem)
    requires Sound(w) && AllowedRun(w, ops)
    ensures Sound(Run(w, ops)) && Total(Run(w, ops), e) == Total(w, e)
    decreases |ops|
  {
    if ops != [] {
      StepConserves(w, ops[0], e);
      RunConserves(Step(w, ops[0]), ops[1..], e);
    }
  }

  /** Start with distinct elements in the caller's hands. Whatever happens, each of them is in exactly
    * one place, and nothing is freed twice: neither an element nor a shell. */
  lemma EveryElementHasOneOwner(elems: multiset<Elem>, ops: seq<Op>, e: Elem)
    requires elems[e] == 1
    requires AllowedRun(World([], elems, multiset{}, []), ops)
    ensures var w := Run(World([], elems, multiset{}, []), ops);
            && SoundShells(w.shells) && |w.shellFrees| == |w.shells|
            && w.caller[e] + OwnedBy(w.shells, e) + w.dropped[e] == 1
            && forall i :: 0 <= i < |w.shells| ==> w.shellFrees[i] == if w.shells[i].Freed? then 1 else 0
  {
    RunConserves(World([], elems, multiset{}, []), ops, e);
  }

  // ---------------------------------------------------------------- the order of the elements

  /** Pushing and popping work on the same end: a pop takes back what was pushed last and leaves the others
    * as they were. A failing push leaves the stack alone. */
  lemma PushAndPop(items: seq<Elem>, e: Elem)
    ensures Apply(Live(items), Push(e, true)).shell == Live(items + [e])
    ensures Apply(Live(items + [e]), Pop) == Effect(Live(items), multiset{e}, multiset{}, multiset{}, 0)
    ensures Apply(Live(items), Push(e, false)) == Effect(Live(items), multiset{}, multiset{e}, multiset{e}, 0)
    ensures Apply(Live([]), Pop) == Effect(Live([]), multiset{}, multiset{}, multiset{}, 0)
  {
    assert (items + [e])[..|items|] == items;
  }

  /** The same use, `n` times over. */
  function Again(sh: Shell, use: Use, n: nat): (r: Shell)
    requires (use.Pop? && sh.Live?) || (use.Next? && sh.Draining? && sh.Sound())
    ensures r.Sound() && (if use.Pop? then r.Live? else r.Draining?)
  {
    if n == 0 then sh else Apply(Again(sh, use, n - 1), use).shell
  }

  /** The items the first `n` pops leave. */
  function Rest(items: seq<Elem>, n: nat): seq<Elem> {
    if n <= |items| then items[..|items| - n] else []
  }

  lemma {:induction false} PopsLeave(items: seq<Elem>, n: nat)
    ensures Again(Live(items), Pop, n) == Live(Rest(items, n))
  {
    if n == 0 {
      assert Rest(items, 0) == items;
    } else {
      PopsLeave(items, n - 1);
      var before := Rest(items, n - 1);
      assert before != [] ==> before[..|before| - 1] == Rest(items, n);
    }
  }

  /** Pops give the elements back in the reverse order of the pushes, and after them nothing. */
  lemma PopsRunBackwards(items: seq<Elem>, n: nat)
    ensures Apply(Again(Live(items), Pop, n), Pop).given
            == if n < |items| then multiset{items[|items| - 1 - n]} else multiset{}
  {
    PopsLeave(items, n);
  }

  lemma {:induction false} NextsAdvance(items: seq<Elem>, n: nat)
    ensures Again(Draining(items, 0), Next, n) == Draining(items, if n <= |items| then n else |items|)
  {
    if n > 0 {
      NextsAdvance(items, n - 1);
    }
  }

  /** A consuming iterator gives the elements in the order of the pushes, and after them nothing. */
  lemma NextsRunForwards(items: seq<Elem>, n: nat)
    ensures Apply(Live(items), IntoIter).shell == Draining(items, 0)
    ensures Apply(Again(Draining(items, 0), Next, n), Next).given
            == if n < |items| then multiset{items[n]} else multiset{}
  {
    NextsAdvance(items, n);
  }

  // ---------------------------------------------------------------- the objects

  function Given(e: Option<Elem>): multiset<Elem> {
    if e.Some? then multiset{e.value} else multiset{}
  }

  class StackObject {
    var shell: Shell

    constructor ()
      ensures shell == Live([])
    {
      shell := Live([]);
    }

    /** A failing push drops the value it was given; its only other trace is the error. */
    method Push(e: Elem, ok: bool) returns (buried: multiset<Elem>)
      requires shell.Live?
      modifies this
      ensures Effect(shell, multiset{}, multiset{e}, buried, 0) == Apply(old(shell), Use.Push(e, ok))
      ensures shell == Live(if ok then old(shell.items) + [e] else old(shell.items))
    {
      if !ok {
        return multiset{e};
      }
      shell := Live(shell.items + [e]);
      return multiset{};
    }

    method Pop() returns (e: Option<Elem>)
      requires shell.Live?
      modifies this
      ensures Effect(shell, Given(e), multiset{}, multiset{}, 0) == Apply(old(shell), Use.Pop)
      ensures e.None? <==> old(shell.items) == []
      ensures shell.Live? && old(shell.items) == shell.items + (if e.Some? then [e.value] else [])
    {
      var n := |shell.items|;
      if n == 0 {
        return None;
      }
      e := Some(shell.items[n - 1]);
      shell := Live(shell.items[..n - 1]);
    }

    method Get(idx: nat) returns (e: Option<Elem>)
      requires shell.Live?
      ensures e == if idx < |shell.items| then Some(shell.items[idx]) else None
    {
      if idx >= |shell.items| {
        return None;
      }
      return Some(shell.items[idx]);
    }

    method IntoIter()
      requires shell.Live?
      modifies this
      ensures shell == Apply(old(shell), Use.IntoIter).shell
    {
      shell := Draining(shell.items, 0);
    }

    method Next() returns (e: Option<Elem>)
      requires shell.Draining? && shell.Sound()
      modifies this
      ensures Effect(shell, Given(e), multiset{}, multiset{}, 0) == Apply(old(shell), Use.Next)
      ensures e.None? <==> old(shell.items[shell.idx..]) == []
      ensures shell.Draining? && shell.Sound()
      ensures old(shell.items[shell.idx..]) == (if e.Some? then [e.value] else []) + shell.items[shell.idx..]
    {
      if shell.idx == |shell.items| {
        return None;
      }
      e := Some(shell.items[shell.idx]);
      shell := shell.(idx := shell.idx + 1);
    }

    /** `(len - idx) as usize`: never negative, and exactly what is left to yield. */
    method SizeHint() returns (n: int)
      requires shell.Draining? && shell.Sound()
      ensures 0 <= n == |shell.Owned()|
    {
      n := |shell.items| - shell.idx;
    }

    /** Dropping a stack pops until nothing is left, dropping what comes out, and frees the shell. */
    method DropStack() returns (buried: multiset<Elem>)
      requires shell.Live?
      modifies this
      ensures Effect(shell, multiset{}, multiset{}, buried, 1) == Apply(old(shell), DropShell)
    {
      buried := multiset{};
      while shell.items != []
        invariant shell.Live? && buried + multiset(shell.items) == multiset(old(shell.items))
        decreases |shell.items|
      {
        MovesOne(shell.items, 0);
        var e := Pop();
        buried := buried + multiset{e.value};
      }
      shell := Freed;
    }

    /** Dropping a consuming iterator drops what it has not yielded, and frees the shell. */
    method DropIntoIter() returns (buried: multiset<Elem>)
      requires shell.Draining? && shell.Sound()
      modifies this
      ensures Effect(shell, multiset{}, multiset{}, buried, 1) == Apply(old(shell), DropShell)
    {
      buried := multiset{};
      while shell.idx != |shell.items|
        invariant shell.Draining? && shell.Sound()
        invariant buried + multiset(shell.items[shell.idx..]) == multiset(old(shell.items[shell.idx..]))
        decreases |shell.items| - shell.idx
      {
        MovesOne(shell.items, shell.idx);
        var e := Next();
        buried := buried + multiset{e.value};
      }
      shell := Freed;
    }
  }

  /** The borrowing iterator: the stack cannot change while it exists. */
  class Iter {
    const items: seq<Elem>
    var pos: nat

    predicate Valid()
      reads this
    {
      pos <= |items|
    }

    constructor (items: seq<Elem>)
      ensures Valid() && this.items == items && pos == 0
    {
      this.items := items;
      pos := 0;
    }

    method Next() returns (e: Option<Elem>)
      requires Valid()
      modifies this
      ensures Valid()
      ensures e == (if old(pos) < |items| then Some(items[old(pos)]) else None)
      ensures pos == (if e.Some? then old(pos) + 1 else old(pos))
    {
      e := if pos >= |items| then None else Some(items[pos]);
      if e.Some? {
        pos := pos + 1;
      }
    }

    method SizeHint() returns (rem: int)
      requires Valid()
      ensures 0 <= rem == |items[pos..]|
    {
      rem := |items| - pos;
    }
  }

  /** A loop that pushes the elements of a list one after the other. */
  method FromElements(elems: seq<Elem>) returns (s: StackObject)
    ensures fresh(s) && s.shell == Live(elems)
  {
    s := new StackObject();
    for i := 0 to |elems|
      invariant fresh(s) && s.shell == Live(elems[..i])
    {
      var _ := s.Push(elems[i], true);
      assert elems[..i + 1] == elems[..i] + [elems[i]];
    }
    assert elems[..|elems|] == elems;
  }

  /** The element at an index is the one pushed at that turn. */
  method PushedThenRead(elems: seq<Elem>, i: nat) returns (e: Option<Elem>)
    ensures e == if i < |elems| then Some(elems[i]) else None
  {
    var s := FromElements(elems);
    e := s.Get(i);
  }

  /** A loop over a consuming iterator sees what was pushed, in that order. */
  method PushedThenIterated(elems: seq<Elem>) returns (seen: seq<Elem>)
    ensures seen == elems
  {
    var s := FromElements(elems);
    s.IntoIter();
    seen := [];
    var e := s.Next();
    while e.Some?
      invariant fresh(s) && s.shell.Draining? && s.shell.Sound()
      invariant elems == seen + (if e.Some? then [e.value] else []) + s.shell.items[s.shell.idx..]
      invariant e.None? ==> s.shell.items[s.shell.idx..] == []
      decreases |elems| - |seen|
    {
      seen := seen + [e.value];
      e := s.Next();
    }
  }
}
