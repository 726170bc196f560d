/** Output buffers of the symmetric ciphers (`symm.rs`): the wrapper asserts sizes and casts them to C
  * integers before a foreign call writes through a bare pointer. */
module Crypter {
  import opened Casts

  type byte = n: nat | n < 256

  type Bytes = seq<byte>

  // ---------------------------------------------------------------- the foreign contract

  /** What one foreign call does: what it writes, how much it holds back, whether it succeeds. */
  datatype Call = Call(produced: Bytes, heldAfter: nat, ok: bool)

  /** Updating writes at most what it held plus what it is given, and holds back at most a block. */
  predicate UpdateContract(call: Call, held: nat, input: nat, blockSize: nat) {
    && |call.produced| + call.heldAfter <= held + input
    && call.heldAfter <= blockSize
  }

  /** Finishing writes at most one block. */
  predicate FinalContract(call: Call, blockSize: nat) {
    |call.produced| <= blockSize
  }

  /** The C side: writes at `out[from..]`, trusting that there is room and that the lengths are right. */
  method ForeignWrite(out: array<byte>, from: nat, outl: int, call: Call) returns (written: nat)
    requires from <= out.Length
    requires |call.produced| <= out.Length - from
    requires 0 <= outl <= out.Length - from
    modifies out
    ensures written == |call.produced|
    ensures out[..from + written] == old(out[..from]) + call.produced
    ensures out[from + written..] == old(out[from + written..])
  {
    written := |call.produced|;
    for i := 0 to written
      invariant out[..from + i] == old(out[..from]) + call.produced[..i]
      invariant out[from + i..] == old(out[from + i..])
    {
      out[from + i] := call.produced[i];
    }
    assert call.produced[..written] == call.produced;
  }

  // ---------------------------------------------------------------- the wrapper

  datatype Outcome = Wrote(n: nat) | EvpError | AssertionFailed

  class Crypter {
    const blockSize: nat
    var held: nat

    predicate Valid()
      reads this
    {
      held <= blockSize
    }

    constructor (blockSize: nat)
      ensures Valid() && this.blockSize == blockSize && held == 0
    {
      this.blockSize := blockSize;
      held := 0;
    }

    /** `output[from..]` is the slice the caller passes. */
    method Update(input: Bytes, output: array<byte>, from: nat, call: Call) returns (r: Outcome)
      requires Valid() && from <= output.Length
      requires UpdateContract(call, held, |input|, blockSize)
      modifies this, output
      ensures Valid()
      ensures var room := output.Length - from;
              && (r.AssertionFailed? <==> room < |input| + blockSize || room > C_INT_MAX)
              && (r.Wrote? ==>
                    && call.ok && r.n == |call.produced| <= room && held == call.heldAfter
                    && output[..from + r.n] == old(output[..from]) + call.produced
                    && output[from + r.n..] == old(output[from + r.n..]))
              && (r.EvpError? ==> !call.ok)
    {
      var room := output.Length - from;
      if room < |input| + blockSize || room > C_INT_MAX {
        return AssertionFailed;
      }
      var outl, inl := AsCInt(room), AsCInt(|input|);
      assert outl == room && inl == |input|;
      var written := ForeignWrite(output, from, outl, call);
      if !call.ok {
        return EvpError;
      }
      held := call.heldAfter;
      return Wrote(written);
    }

    method Finalize(output: array<byte>, from: nat, call: Call) returns (r: Outcome)
      requires Valid() && from <= output.Length
      requires FinalContract(call, blockSize)
      modifies this, output
      ensures Valid()
      ensures var room := output.Length - from;
              && (r.AssertionFailed? <==> room < blockSize)
              && (r.Wrote? ==>
                    && call.ok && r.n == |call.produced| <= room && held == 0
                    && output[..from + r.n] == old(output[..from]) + call.produced
                    && output[from + r.n..] == old(output[from + r.n..]))
              && (r.EvpError? ==> !call.ok)
    {
      var room := output.Length - from;
      if room < blockSize {
        return AssertionFailed;
      }
      var outl := AsCInt(if room <= C_INT_MAX then room else C_INT_MAX);
      assert outl == if room <= C_INT_MAX then room else C_INT_MAX;
      var written := ForeignWrite(output, from, outl, call);
      if !call.ok {
        return EvpError;
      }
      held := 0;
      return Wrote(written);
    }
  }

  datatype CipherResult = Output(bytes: Bytes) | Failed | Panicked

  /** The one-shot `cipher`. For every input and every behaviour of the foreign calls within their
    * contracts: it panics exactly when data and one block do not fit a C integer, and otherwise
    * returns exactly the bytes the two calls wrote. */
  method Cipher(data: Bytes, blockSize: nat, update: Call, final: Call) returns (r: CipherResult)
    requires UpdateContract(update, 0, |data|, blockSize)
    requires FinalContract(final, blockSize)
    ensures r.Panicked? <==> |data| + blockSize > C_INT_MAX
    ensures !r.Panicked? ==>
              r == if update.ok && final.ok then Output(update.produced + final.produced) else Failed
  {
    var c := new Crypter(blockSize);
    var out := new byte[|data| + blockSize](_ => 0);
    var count := c.Update(data, out, 0, update);
    match count {
      case AssertionFailed => return Panicked;
      case EvpError => return Failed;
      case Wrote(n) =>
        assert out[..n] == update.produced;
        var rest := c.Finalize(out, n, final);
        match rest {
          case AssertionFailed => return Panicked;
          case EvpError => return Failed;
          case Wrote(m) => return Output(out[..n + m]);
        }
    }
  }

  // ---------------------------------------------------------------- any chunking

  datatype Chunk = Chunk(input: Bytes, call: Call)

  predicate Follows(chunks: seq<Chunk>, held: nat, blockSize: nat) {
    chunks != [] ==>
      && UpdateContract(chunks[0].call, held, |chunks[0].input|, blockSize)
      && Follows(chunks[1..], chunks[0].call.heldAfter, blockSize)
  }

  function Consumed(chunks: seq<Chunk>): nat {
    if chunks == [] then 0 else |chunks[0].input| + Consumed(chunks[1..])
  }

  function Written(chunks: seq<Chunk>): nat {
    if chunks == [] then 0 else |chunks[0].call.produced| + Written(chunks[1..])
  }

  lemma {:induction false} WrittenNeverExceedsConsumed(chunks: seq<Chunk>, held: nat, blockSize: nat)
    requires Follows(chunks, held, blockSize)
    ensures Written(chunks) <= held + Consumed(chunks)
  {
    if chunks != [] {
      WrittenNeverExceedsConsumed(chunks[1..], chunks[0].call.heldAfter, blockSize);
    }
  }

  function Produced(chunks: seq<Chunk>): Bytes {
    if chunks == [] then [] else chunks[0].call.produced + Produced(chunks[1..])
  }

  predicate AllOk(chunks: seq<Chunk>) {
    chunks == [] || (chunks[0].call.ok && AllOk(chunks[1..]))
  }

  /** A caller's updates, chunk by chunk, each into what the earlier ones left of the buffer. */
  method UpdateAll(c: Crypter, chunks: seq<Chunk>, out: array<byte>, from: nat) returns (r: Outcome)
    requires c.Valid() && Follows(chunks, c.held, c.blockSize)
    requires from + c.held + Consumed(chunks) + c.blockSize <= out.Length
    modifies c, out
    ensures c.Valid()
    ensures r.AssertionFailed? <==> chunks != [] && out.Length - from > C_INT_MAX
    ensures r.EvpError? <==> !r.AssertionFailed? && !AllOk(chunks)
    ensures r.Wrote? ==>
              && r.n == |Produced(chunks)| && from + r.n + c.blockSize <= out.Length
              && out[..from + r.n] == old(out[..from]) + Produced(chunks)
    decreases |chunks|
  {
    if chunks == [] {
      return Wrote(0);
    }
    r := c.Update(chunks[0].input, out, from, chunks[0].call);
    if r.Wrote? {
      var n := r.n;
      var rest := UpdateAll(c, chunks[1..], out, from + n);
      r := if rest.Wrote? then Wrote(n + rest.n) else rest;
    }
  }

  /** However the data is cut into chunks: one crypter, updated chunk by chunk into what is left of a buffer
    * of the data's length plus one block and then finished into the rest, panics exactly when there is a
    * chunk and the buffer does not fit a C integer. Otherwise it fails if a call does, and if none does the
    * buffer ends up with exactly what the calls wrote, in order. */
  method RunChunks(chunks: seq<Chunk>, blockSize: nat, final: Call) returns (r: CipherResult)
    requires Follows(chunks, 0, blockSize) && FinalContract(final, blockSize)
    ensures r.Panicked? <==> chunks != [] && Consumed(chunks) + blockSize > C_INT_MAX
    ensures !r.Panicked? ==>
              r == if AllOk(chunks) && final.ok then Output(Produced(chunks) + final.produced) else Failed
  {
    var c := new Crypter(blockSize);
    var out := new byte[Consumed(chunks) + blockSize](_ => 0);
    var count := UpdateAll(c, chunks, out, 0);
    match count {
      case AssertionFailed => return Panicked;
      case EvpError => return Failed;
      case Wrote(n) =>
        var rest := c.Finalize(out, n, final);
        match rest {
          case AssertionFailed => return Panicked;
          case EvpError => return Failed;
          case Wrote(m) => return Output(out[..n + m]);
        }
    }
  }
}
