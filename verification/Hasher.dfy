/** Streaming message digests (`hash.rs`): a three-state wrapper around a digest context that must be
  * initialised before it is fed and never be used between being finished and being initialised
  * again. The digest itself is any function `md` on byte strings. */
module Hasher {
  import opened Wrappers

  type Bytes = seq<bv8>

  // ---------------------------------------------------------------- the foreign context

  /** `Misused`: the context was updated or finalised outside its absorbing phase. */
  datatype Context = Blank | Absorbing(data: Bytes) | Finished | Misused {

    function Init(): Context {
      if Misused? then this else Absorbing([])
    }

    function Update(more: Bytes, ok: bool): Context {
      if !Absorbing? then Misused else if ok then Absorbing(data + more) else this
    }

    function Final(ok: bool): Context {
      if !Absorbing? then Misused else if ok then Finished else this
    }
  }

  /** Which of the foreign calls made by one operation succeed. */
  datatype Fates = Fates(init: bool, update: bool, final: bool)

  // ---------------------------------------------------------------- the wrapper's state machine

  datatype State = Reset | Updated | Finalized

  datatype Digester = Digester(state: State, ctx: Context) {

    predicate Sound() {
      match state
      case Reset => ctx == Absorbing([])
      case Updated => ctx.Absorbing?
      case Finalized => ctx.Blank? || ctx.Finished?
    }

    /** What has been fed since the last finish. */
    function Fed(): Bytes {
      if ctx.Absorbing? then ctx.data else []
    }
  }

  function Start(d: Digester, f: Fates): (Digester, bool) {
    if f.init then (Digester(Reset, d.ctx.Init()), true) else (d, false)
  }

  /** `init` and `finish2` call each other; the state decides, so the recursion ends. */
  function Init(md: Bytes -> Bytes, d: Digester, f: Fates): (Digester, bool)
    decreases if d.state.Updated? then 2 else 0
  {
    match d.state
    case Reset => (d, true)
    case Updated =>
      var (d1, digest) := Finish(md, d, f);
      if digest.None? then (d1, false) else Start(d1, f)
    case Finalized => Start(d, f)
  }

  function Finish(md: Bytes -> Bytes, d: Digester, f: Fates): (Digester, Option<Bytes>)
    decreases 1
  {
    var (d1, ready) := if d.state.Finalized? then Init(md, d, f) else (d, true);
    if !ready then (d1, None)
    else if !f.final then (d1.(ctx := d1.ctx.Final(false)), None)
    else (Digester(Finalized, d1.ctx.Final(true)), Some(md(d1.Fed())))
  }

  function Update(md: Bytes -> Bytes, d: Digester, data: Bytes, f: Fates): (Digester, bool) {
    var (d1, ready) := if d.state.Finalized? then Init(md, d, f) else (d, true);
    if !ready then (d1, false)
    else if !f.update then (d1.(ctx := d1.ctx.Update(data, false)), false)
    else (Digester(Updated, d1.ctx.Update(data, true)), true)
  }

  lemma UpdateFeeds(md: Bytes -> Bytes, d: Digester, data: Bytes, f: Fates)
    requires d.Sound()
    ensures var (r, ok) := Update(md, d, data, f);
            && r.Sound()
            && r.Fed() == (if ok then d.Fed() + data else d.Fed())
            && (ok <==> f.update && (d.state.Finalized? ==> f.init))
            && (ok ==> r.state == Updated)
  {
  }

  lemma FinishDigests(md: Bytes -> Bytes, d: Digester, f: Fates)
    requires d.Sound()
    ensures var (r, digest) := Finish(md, d, f);
            && r.Sound()
            && digest == (if f.final && (d.state.Finalized? ==> f.init) then Some(md(d.Fed())) else None)
            && r.Fed() == (if digest.Some? then [] else d.Fed())
            && (digest.Some? ==> r.state == Finalized)
  {
  }

  /** Initialising ends with a context that has absorbed nothing; data not yet finished is finished first. */
  lemma InitStartsOver(md: Bytes -> Bytes, d: Digester, f: Fates)
    requires d.Sound()
    ensures var (r, ok) := Init(md, d, f);
            && r.Sound()
            && (ok <==> d.state == Reset || (f.init && (d.state == Updated ==> f.final)))
            && (ok ==> r == Digester(Reset, Absorbing([])))
            && (!ok && !f.final ==> r.Fed() == d.Fed())
  {
  }

  /** Why the state is kept: on a finalised hasher, a foreign call made without initialising first would be a
    * misuse. */
  lemma FinalizedNeedsInit(d: Digester, more: Bytes, ok: bool)
    requires d.Sound()
    ensures d.ctx.Update(more, ok).Misused? <==> d.state == Finalized
    ensures d.ctx.Final(ok).Misused? <==> d.state == Finalized
  {
  }

  // ---------------------------------------------------------------- any number of hashers

  datatype Op =
    | New(fates: Fates)
    | Feed(h: nat, data: Bytes, fates: Fates)
    | Take(h: nat, fates: Fates)
    | Clone(h: nat)

  /** All hashers after a sequence of operations, in order of creation. Operations on a hasher that
    * does not exist do nothing. */
  function Run(md: Bytes -> Bytes, ops: seq<Op>): seq<Digester> {
    if ops == [] then [] else Step(md, Run(md, ops[..|ops| - 1]), ops[|ops| - 1])
  }

  function Step(md: Bytes -> Bytes, w: seq<Digester>, op: Op): seq<Digester> {
    match op
    case New(f) =>
      var (d, ok) := Init(md, Digester(Finalized, Blank), f);
      if ok then w + [d] else w
    case Feed(h, data, f) => if h < |w| then w[h := Update(md, w[h], data, f).0] else w
    case Take(h, f) => if h < |w| then w[h := Finish(md, w[h], f).0] else w
    case Clone(h) => if h < |w| then w + [w[h]] else w
  }

  /** Creating succeeds exactly if initialising does, cloning always: the new hasher comes last, a clone in the
    * state of its original. The other operations make none, and none loses any. */
  lemma WhatMakesHashers(md: Bytes -> Bytes, w: seq<Digester>, op: Op)
    ensures |Step(md, w, op)| == |w| + (if (op.New? && op.fates.init) || (op.Clone? && op.h < |w|) then 1 else 0)
    ensures op.New? && op.fates.init ==> Step(md, w, op) == w + [Digester(Reset, Absorbing([]))]
    ensures op.Clone? && op.h < |w| ==> Step(md, w, op) == w + [w[op.h]]
  {
  }

  /** The data a hasher stands for, read off the operations and the answers the caller saw: what was fed
    * to it, or to the hasher it was cloned from before it was cloned, since the last digest was taken. */
  function Log(md: Bytes -> Bytes, ops: seq<Op>, h: nat): Bytes {
    if ops == [] then []
    else
      var earlier := ops[..|ops| - 1];
      var w := Run(md, earlier);
      match ops[|ops| - 1]
      case New(_) => if h < |w| then Log(md, earlier, h) else []
      case Feed(k, data, f) =>
        if k == h < |w| && Update(md, w[h], data, f).1 then Log(md, earlier, h) + data else Log(md, earlier, h)
      case Take(k, f) =>
        if k == h < |w| && Finish(md, w[h], f).1.Some? then [] else Log(md, earlier, h)
      case Clone(k) =>
        if h < |w| then Log(md, earlier, h) else Log(md, earlier, k)
  }

  /** A hasher that stands for its log. */
  predicate Faithful(md: Bytes -> Bytes, ops: seq<Op>, h: nat)
    requires h < |Run(md, ops)|
  {
    Run(md, ops)[h].Sound() && Run(md, ops)[h].Fed() == Log(md, ops, h)
  }

  lemma OldHasherStaysFaithful(md: Bytes -> Bytes, ops: seq<Op>, h: nat)
    requires ops != [] && h < |Run(md, ops[..|ops| - 1])| && Faithful(md, ops[..|ops| - 1], h)
    ensures h < |Run(md, ops)| && Faithful(md, ops, h)
  {
    var w := Run(md, ops[..|ops| - 1]);
    match ops[|ops| - 1] {
      case Feed(_, data, f) => UpdateFeeds(md, w[h], data, f);
      case Take(_, f) => FinishDigests(md, w[h], f);
      case _ =>
    }
  }

  lemma {:induction false} AllFaithful(md: Bytes -> Bytes, ops: seq<Op>, h: nat)
    requires h < |Run(md, ops)|
    ensures Faithful(md, ops, h)
    decreases |ops|
  {
    var earlier, op := ops[..|ops| - 1], ops[|ops| - 1];
    if h < |Run(md, earlier)| {
      AllFaithful(md, earlier, h);
      OldHasherStaysFaithful(md, ops, h);
    } else if op.Clone? {
      AllFaithful(md, earlier, op.h);
    }
  }

  /** Over every run no context is ever misused, every hasher, clone or not, stands for its own log,
    * and taking its digest yields the one-shot digest of that log. */
  lemma HashersKeepTheirLogs(md: Bytes -> Bytes, ops: seq<Op>, h: nat, f: Fates)
    requires h < |Run(md, ops)|
    ensures var d := Run(md, ops)[h];
            && d.Sound() && !d.ctx.Misused?
            && d.Fed() == Log(md, ops, h)
            && (Finish(md, d, f).1.Some? ==> Finish(md, d, f).1.value == md(Log(md, ops, h)))
  {
    AllFaithful(md, ops, h);
    FinishDigests(md, Run(md, ops)[h], f);
  }

  const FINE: Fates := Fates(true, true, true)

  function Concat(chunks: seq<Bytes>): Bytes {
    if chunks == [] then [] else Concat(chunks[..|chunks| - 1]) + chunks[|chunks| - 1]
  }

  function FeedAll(md: Bytes -> Bytes, d: Digester, chunks: seq<Bytes>): Digester {
    if chunks == [] then d
    else Update(md, FeedAll(md, d, chunks[..|chunks| - 1]), chunks[|chunks| - 1], FINE).0
  }

  lemma {:induction false} FeedAllFeeds(md: Bytes -> Bytes, d: Digester, chunks: seq<Bytes>)
    requires d.Sound()
    ensures FeedAll(md, d, chunks).Sound()
    ensures FeedAll(md, d, chunks).Fed() == d.Fed() + Concat(chunks)
  {
    if chunks != [] {
      var init := chunks[..|chunks| - 1];
      FeedAllFeeds(md, d, init);
      UpdateFeeds(md, FeedAll(md, d, init), chunks[|chunks| - 1], FINE);
    }
  }

  /** Streaming in any chunks is the one-shot digest of the whole. */
  lemma StreamingEqualsOneShot(md: Bytes -> Bytes, chunks: seq<Bytes>)
    ensures var start := Init(md, Digester(Finalized, Blank), FINE).0;
            Finish(md, FeedAll(md, start, chunks), FINE).1 == Some(md(Concat(chunks)))
  {
    var start := Init(md, Digester(Finalized, Blank), FINE).0;
    assert start == Digester(Reset, Absorbing([]));
    FeedAllFeeds(md, start, chunks);
    assert [] + Concat(chunks) == Concat(chunks);
    FinishDigests(md, FeedAll(md, start, chunks), FINE);
  }

  // ---------------------------------------------------------------- the object

  class Hasher {
    const md: Bytes -> Bytes
    var state: State
    var ctx: Context
    var freed: bool

    function Value(): Digester
      reads this
    {
      Digester(state, ctx)
    }

    constructor (md: Bytes -> Bytes, state: State, ctx: Context)
      ensures this.md == md && Value() == Digester(state, ctx) && !freed
    {
      this.md := md;
      this.state, this.ctx, freed := state, ctx, false;
    }

    static method Create(md: Bytes -> Bytes, f: Fates) returns (h: Hasher, ok: bool)
      ensures fresh(h) && h.md == md
      ensures (h.Value(), ok) == Init(md, Digester(Finalized, Blank), f)
    {
      h := new Hasher(md, Finalized, Blank);
      ok := h.Initialise(f);
    }

    method Initialise(f: Fates) returns (ok: bool)
      modifies this
      ensures (Value(), ok) == Init(md, old(Value()), f)
      decreases if state.Updated? then 2 else 0
    {
      match state {
        case Reset => return true;
        case Updated =>
          var digest := Finish2(f);
          if digest.None? {
            return false;
          }
        case Finalized =>
      }
      if !f.init {
        return false;
      }
      ctx := ctx.Init();
      state := Reset;
      return true;
    }

    method Feed(data: Bytes, f: Fates) returns (ok: bool)
      modifies this
      ensures (Value(), ok) == Update(md, old(Value()), data, f)
    {
      if state == Finalized {
        ok := Initialise(f);
        if !ok {
          return;
        }
      }
      ctx := ctx.Update(data, f.update);
      if !f.update {
        return false;
      }
      state := Updated;
      return true;
    }

    method Finish2(f: Fates) returns (digest: Option<Bytes>)
      modifies this
      ensures (Value(), digest) == Finish(md, old(Value()), f)
      decreases 1
    {
      if state == Finalized {
        var ok := Initialise(f);
        if !ok {
          return None;
        }
      }
      var fed := Value().Fed();
      ctx := ctx.Final(f.final);
      if !f.final {
        return None;
      }
      state := Finalized;
      return Some(md(fed));
    }

    /** The copy is a new object: nothing done to either reaches the other. */
    method Duplicate() returns (h: Hasher)
      ensures fresh(h) && h.md == md && h.Value() == Value()
    {
      h := new Hasher(md, state, ctx);
    }

    /** Leaving scope finishes a running digest, if that works, and frees the context. */
    method Drop(f: Fates)
      requires Value().Sound() && !freed
      modifies this
      ensures freed && Value().Sound()
      ensures f.final ==> state == Finalized
    {
      FinishDigests(md, Value(), f);
      if state != Finalized {
        var _ := Finish2(f);
      }
      freed := true;
    }
  }

  /** The one-shot function. */
  method Hash2(md: Bytes -> Bytes, data: Bytes, f: Fates) returns (digest: Option<Bytes>)
    ensures digest == if f == FINE then Some(md(data)) else None
  {
    var h, ok := Hasher.Create(md, f);
    if !ok {
      return None;
    }
    UpdateFeeds(md, h.Value(), data, f);
    assert [] + data == data;
    ok := h.Feed(data, f);
    if !ok {
      return None;
    }
    FinishDigests(md, h.Value(), f);
    digest := h.Finish2(f);
  }
}
