/** The length-prefixed protocol lists of NPN and ALPN (`ssl/mod.rs`), the ProtocolNameList of
  * section 3.1 of RFC 7301. */
module ProtocolList {
  import opened Wrappers

  type byte = n: nat | n < 256

  type Bytes = seq<byte>

  /** Rust's `as u8`. */
  function AsU8(n: nat): byte {
    n % 256
  }

  predicate Fits(s: Bytes) {
    |s| <= 255
  }

  function Kept(strings: seq<Bytes>): (r: seq<Bytes>)
    ensures forall s :: s in r ==> Fits(s)
  {
    if strings == [] then []
    else (if Fits(strings[0]) then [strings[0]] else []) + Kept(strings[1..])
  }

  /** Keeping works string by string, in order, and keeps those of at most 255 bytes. */
  lemma {:induction false} KeptMeaning(a: seq<Bytes>, b: seq<Bytes>, s: Bytes)
    ensures Kept([]) == []
    ensures Kept([s]) == if |s| <= 255 then [s] else []
    ensures Kept(a + b) == Kept(a) + Kept(b)
  {
    if a == [] {
      assert a + b == b;
    } else {
      assert (a + b)[1..] == a[1..] + b;
      KeptMeaning(a[1..], b, s);
    }
  }

  /** One entry; a string that does not fit contributes nothing. */
  function Entry(s: Bytes): Bytes {
    if Fits(s) then [|s|] + s else []
  }

  function Encode(strings: seq<Bytes>): Bytes {
    if strings == [] then [] else Entry(strings[0]) + Encode(strings[1..])
  }

  /** The reader on the other side: a length, that many bytes, and so on to the very end. */
  function Read(wire: Bytes): Option<seq<Bytes>> {
    if wire == [] then Some([])
    else
      var n: nat := wire[0];
      if |wire| < 1 + n then None
      else
        match Read(wire[1 + n..])
        case None => None
        case Some(rest) => Some([wire[1..1 + n]] + rest)
  }

  /** Reading what was encoded consumes every byte and gives back the strings that fit, in order. */
  lemma {:induction false} ReadAfterEncode(strings: seq<Bytes>)
    ensures Read(Encode(strings)) == Some(Kept(strings))
  {
    if strings != [] {
      ReadAfterEncode(strings[1..]);
      var s, rest := strings[0], Encode(strings[1..]);
      if Fits(s) {
        var wire := [|s|] + s + rest;
        assert Encode(strings) == wire;
        assert wire[1..1 + |s|] == s;
        assert wire[1 + |s|..] == rest;
      } else {
        assert Encode(strings) == rest;
        assert Kept(strings) == Kept(strings[1..]);
      }
    }
  }

  /** The other way round: encoding what was read gives back the bytes, so the two formats are in
    * bijection. */
  lemma {:induction false} EncodeAfterRead(wire: Bytes)
    requires Read(wire).Some?
    ensures Encode(Read(wire).value) == wire
    ensures Kept(Read(wire).value) == Read(wire).value
    decreases |wire|
  {
    if wire != [] {
      var n: nat := wire[0];
      EncodeAfterRead(wire[1 + n..]);
      var strings := Read(wire).value;
      assert strings[0] == wire[1..1 + n] && strings[1..] == Read(wire[1 + n..]).value;
      assert wire == [n] + wire[1..1 + n] + wire[1 + n..];
    }
  }

  lemma {:induction false} EncodeDistributes(a: seq<Bytes>, b: seq<Bytes>)
    ensures Encode(a + b) == Encode(a) + Encode(b)
  {
    if a == [] {
      assert a + b == b;
    } else {
      assert (a + b)[1..] == a[1..] + b;
      EncodeDistributes(a[1..], b);
      assert Entry(a[0]) + (Encode(a[1..]) + Encode(b)) == Entry(a[0]) + Encode(a[1..]) + Encode(b);
    }
  }

  function TotalLength(strings: seq<Bytes>): nat {
    if strings == [] then 0 else 1 + |strings[0]| + TotalLength(strings[1..])
  }

  lemma {:induction false} EncodedLength(strings: seq<Bytes>)
    ensures |Encode(strings)| == TotalLength(Kept(strings))
  {
    if strings != [] {
      EncodedLength(strings[1..]);
      if Fits(strings[0]) {
        assert Kept(strings)[1..] == Kept(strings[1..]);
      } else {
        assert Kept(strings) == Kept(strings[1..]);
      }
    }
  }

  lemma EncodeLast(strings: seq<Bytes>, last: Bytes)
    ensures Encode(strings + [last]) == Encode(strings) + Entry(last)
  {
    EncodeDistributes(strings, [last]);
    assert Encode([last]) == Entry(last) + Encode([]);
  }

  method SslEncodeByteStrings(strings: seq<Bytes>) returns (enc: Bytes)
    ensures enc == Encode(strings)
  {
    enc := [];
    for i := 0 to |strings|
      invariant enc == Encode(strings[..i])
    {
      EncodeLast(strings[..i], strings[i]);
      assert strings[..i + 1] == strings[..i] + [strings[i]];
      var len := AsU8(|strings[i]|);
      if len != |strings[i]| {
        continue;
      }
      ghost var before := enc;
      enc := enc + [len];
      enc := enc + strings[i][..len];
      assert strings[i][..len] == strings[i];
      assert enc == before + Entry(strings[i]);
    }
    assert strings[..|strings|] == strings;
  }
}
