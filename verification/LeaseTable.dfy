/** The lease table of the tenant's TLS proxy (`proxy/main.go`).
  *
  * A proxy remembers, for ten seconds, that a client certificate was granted access. The table is
  * a Go slice: a backing array with a length, shifted in place while an older slice header over
  * the same array is being ranged over. This file models that loop exactly, panics included, and
  * proves that it refines a map from certificates to lease start times. */
module LeaseTable {
  import opened Wrappers

  /** Nanoseconds on the proxy's monotonic clock. */
  type Time = nat

  const LEASE_TIMEOUT: nat := 10 * 1_000_000_000

  /** An X.509 extension. `intent` is what decoding its value yields; `None` is a decoding error. */
  datatype Extension = Extension(id: seq<nat>, intent: Option<string>)

  /** A certificate; `raw` stands for the bytes that are not extensions. */
  datatype Certificate = Certificate(raw: nat, extensions: seq<Extension>)

  datatype Lease = Lease(certificate: Certificate, leaseStart: Time) {
    predicate Expired(now: Time) {
      now - leaseStart > LEASE_TIMEOUT
    }
  }

  datatype Verdict = Accepted | NoIntent | Malformed | Denied

  // ---------------------------------------------------------------- certificate selection

  const SUBJECT_ALT_NAME: seq<nat> := [2, 5, 29, 17]

  predicate Carries(cert: Certificate) {
    exists i :: 0 <= i < |cert.extensions| && cert.extensions[i].id == SUBJECT_ALT_NAME
  }

  /** The position of the first subject alternative name at or after `from`. */
  function FirstAt(exts: seq<Extension>, from: nat): (i: nat)
    requires exists k :: from <= k < |exts| && exts[k].id == SUBJECT_ALT_NAME
    ensures from <= i < |exts| && exts[i].id == SUBJECT_ALT_NAME
    ensures forall k :: from <= k < i ==> exts[k].id != SUBJECT_ALT_NAME
    decreases |exts| - from
  {
    if exts[from].id == SUBJECT_ALT_NAME then from else FirstAt(exts, from + 1)
  }

  function IntentExtension(cert: Certificate): Extension
    requires Carries(cert)
  {
    cert.extensions[FirstAt(cert.extensions, 0)]
  }

  /** The intent a client certificate declares, if it declares a readable one. */
  function IntentOf(cert: Certificate): Option<string> {
    if Carries(cert) then IntentExtension(cert).intent else None
  }

  function Flatten(chains: seq<seq<Certificate>>): seq<Certificate> {
    if chains == [] then [] else Flatten(chains[..|chains| - 1]) + chains[|chains| - 1]
  }

  datatype Choice = Choice(cert: Certificate, ext: Extension)

  /** The last certificate with an intent, paired with that certificate's first such extension. */
  function LastCarrier(certs: seq<Certificate>): Option<Choice> {
    if certs == [] then None
    else
      var cert := certs[|certs| - 1];
      if Carries(cert) then Some(Choice(cert, IntentExtension(cert)))
      else LastCarrier(certs[..|certs| - 1])
  }

  predicate ChosenAt(certs: seq<Certificate>, choice: Choice, k: nat) {
    && k < |certs|
    && certs[k] == choice.cert
    && Carries(certs[k])
    && choice.ext == IntentExtension(certs[k])
    && forall j :: k < j < |certs| ==> !Carries(certs[j])
  }

  lemma {:induction false} LastCarrierIsCoherent(certs: seq<Certificate>)
    ensures LastCarrier(certs).None? <==> forall c :: c in certs ==> !Carries(c)
    ensures LastCarrier(certs).Some? ==> exists k: nat :: ChosenAt(certs, LastCarrier(certs).value, k)
  {
    if certs != [] {
      var init := certs[..|certs| - 1];
      assert certs == init + [certs[|certs| - 1]];
      if Carries(certs[|certs| - 1]) {
        assert ChosenAt(certs, LastCarrier(certs).value, |certs| - 1);
      } else {
        LastCarrierIsCoherent(init);
        if k: nat :| LastCarrier(init).Some? && ChosenAt(init, LastCarrier(init).value, k) {
          assert ChosenAt(certs, LastCarrier(certs).value, k);
        }
      }
    }
  }

  lemma {:induction false} LastCarrierOfConcat(a: seq<Certificate>, b: seq<Certificate>)
    ensures LastCarrier(a + b) == if LastCarrier(b).Some? then LastCarrier(b) else LastCarrier(a)
  {
    if b == [] {
      assert a + b == a;
    } else {
      var init := b[..|b| - 1];
      assert (a + b)[..|a + b| - 1] == a + init;
      LastCarrierOfConcat(a, init);
    }
  }

  /** Extension `k` of certificate `j` of this chain is a subject alternative name, 2.5.29.17. */
  predicate NamesAt(chain: seq<Certificate>, j: int, k: int) {
    && 0 <= j < |chain| && 0 <= k < |chain[j].extensions|
    && chain[j].extensions[k].id == [2, 5, 29, 17]
  }

  ghost predicate NamesNobody(chain: seq<Certificate>) {
    forall j, k :: !NamesAt(chain, j, k)
  }

  /** It is that certificate's first, and no certificate further on in the chain has any. */
  ghost predicate ChosenInChain(chain: seq<Certificate>, choice: Choice, j: int, k: int) {
    && NamesAt(chain, j, k)
    && choice == Choice(chain[j], chain[j].extensions[k])
    && (forall k' :: 0 <= k' < k ==> !NamesAt(chain, j, k'))
    && (forall j', k' :: j' > j ==> !NamesAt(chain, j', k'))
  }

  /** Nor does any certificate of a later chain. */
  ghost predicate ChosenFrom(chains: seq<seq<Certificate>>, choice: Choice, i: int, j: int, k: int) {
    && 0 <= i < |chains|
    && ChosenInChain(chains[i], choice, j, k)
    && (forall i' :: i < i' < |chains| ==> NamesNobody(chains[i']))
  }

  lemma CarriersAreNamed(chain: seq<Certificate>, j: nat)
    requires j < |chain|
    ensures Carries(chain[j]) <==> exists k :: NamesAt(chain, j, k)
    ensures Carries(chain[j]) ==> NamesAt(chain, j, FirstAt(chain[j].extensions, 0))
  {
    if k :| NamesAt(chain, j, k) {
      assert chain[j].extensions[k].id == SUBJECT_ALT_NAME;
    }
    if Carries(chain[j]) {
      assert NamesAt(chain, j, FirstAt(chain[j].extensions, 0));
    }
  }

  lemma ChoiceInChain(chain: seq<Certificate>)
    ensures LastCarrier(chain).None? <==> NamesNobody(chain)
    ensures LastCarrier(chain).Some? ==> exists j, k :: ChosenInChain(chain, LastCarrier(chain).value, j, k)
  {
    LastCarrierIsCoherent(chain);
    forall j | 0 <= j < |chain|
      ensures Carries(chain[j]) <==> exists k :: NamesAt(chain, j, k)
    {
      CarriersAreNamed(chain, j);
    }
    if LastCarrier(chain).Some? {
      var j: nat :| ChosenAt(chain, LastCarrier(chain).value, j);
      CarriersAreNamed(chain, j);
      assert ChosenInChain(chain, LastCarrier(chain).value, j, FirstAt(chain[j].extensions, 0));
    } else {
      assert forall j :: 0 <= j < |chain| ==> !Carries(chain[j]);
    }
  }

  /** The choice, read off the chains themselves: the last certificate, by chain and then by position, that
    * has a subject alternative name, with its first such extension; none exactly if none has one. */
  lemma {:induction false} ChoiceOnChains(chains: seq<seq<Certificate>>)
    ensures LastCarrier(Flatten(chains)).None? <==> forall i :: 0 <= i < |chains| ==> NamesNobody(chains[i])
    ensures LastCarrier(Flatten(chains)).Some? ==>
              exists i, j, k :: ChosenFrom(chains, LastCarrier(Flatten(chains)).value, i, j, k)
  {
    if chains != [] {
      var n := |chains| - 1;
      var init := chains[..n];
      ChoiceOnChains(init);
      LastCarrierOfConcat(Flatten(init), chains[n]);
      ChoiceInChain(chains[n]);
      assert forall i :: 0 <= i < n ==> init[i] == chains[i];
      if LastCarrier(chains[n]).Some? {
        var choice := LastCarrier(chains[n]).value;
        var j, k :| ChosenInChain(chains[n], choice, j, k);
        assert ChosenFrom(chains, choice, n, j, k);
      } else if LastCarrier(Flatten(init)).Some? {
        var choice := LastCarrier(Flatten(init)).value;
        var i, j, k :| ChosenFrom(init, choice, i, j, k);
        assert ChosenFrom(chains, choice, i, j, k);
      }
    }
  }

  /** The innermost selection loop, with its `break`. */
  method FindIntent(cert: Certificate) returns (ext: Option<Extension>)
    ensures ext == if Carries(cert) then Some(IntentExtension(cert)) else None
  {
    for k := 0 to |cert.extensions|
      invariant forall e :: 0 <= e < k ==> cert.extensions[e].id != SUBJECT_ALT_NAME
    {
      if cert.extensions[k].id == SUBJECT_ALT_NAME {
        return Some(cert.extensions[k]);
      }
    }
    return None;
  }

  lemma LastCarrierStep(certs: seq<Certificate>, cert: Certificate)
    ensures LastCarrier(certs + [cert])
            == if Carries(cert) then Some(Choice(cert, IntentExtension(cert))) else LastCarrier(certs)
  {
    assert (certs + [cert])[..|certs|] == certs;
  }

  method SelectIntent(chains: seq<seq<Certificate>>) returns (choice: Option<Choice>)
    ensures choice == LastCarrier(Flatten(chains))
  {
    choice := None;
    for i := 0 to |chains|
      invariant choice == LastCarrier(Flatten(chains[..i]))
    {
      var chain := chains[i];
      ghost var before := Flatten(chains[..i]);
      assert before + chain[..0] == before;
      for j := 0 to |chain|
        invariant choice == LastCarrier(before + chain[..j])
      {
        LastCarrierStep(before + chain[..j], chain[j]);
        assert before + chain[..j + 1] == before + chain[..j] + [chain[j]];
        var ext := FindIntent(chain[j]);
        if ext.Some? {
          choice := Some(Choice(chain[j], ext.value));
        }
      }
      assert chain[..|chain|] == chain;
      assert chains[..i + 1][..i] == chains[..i];
    }
    assert chains[..|chains|] == chains;
  }

  // ---------------------------------------------------------------- the expiry sweep

  predicate Distinct(leases: seq<Lease>) {
    forall i, j :: 0 <= i < j < |leases| ==> leases[i].certificate != leases[j].certificate
  }

  function Table(leases: seq<Lease>): map<Certificate, Time>
    requires Distinct(leases)
  {
    map i | 0 <= i < |leases| :: leases[i].certificate := leases[i].leaseStart
  }

  datatype Sweep = Live(backing: seq<Lease>, len: nat) | Cleared(backing: seq<Lease>, len: nat) | Panicked

  /** `append(s[:i], s[i+1:]...)` on a slice of length `len`: the backing array keeps its size and
    * its last used cell keeps its old value. */
  function ShiftLeft(backing: seq<Lease>, i: nat, len: nat): (r: seq<Lease>)
    requires i < len <= |backing|
    ensures |r| == |backing|
    ensures r[..len - 1] == backing[..i] + backing[i + 1..len]
    ensures r[len - 1..] == backing[len - 1..]
  {
    backing[..i] + backing[i + 1..len] + backing[len - 1..]
  }

  /** The range loop from index `i` on. `n` is the length in the slice header the loop took at its
    * start, `len` the length of the slice as it is now. */
  function SweepFrom(backing: seq<Lease>, len: nat, n: nat, i: nat, cert: Certificate, now: Time): (s: Sweep)
    requires len <= n <= |backing| && i <= n
    ensures !s.Panicked? ==> s.len <= len && |s.backing| == |backing|
    decreases n - i
  {
    if i == n then Cleared(backing, len)
    else if backing[i].certificate != cert then SweepFrom(backing, len, n, i + 1, cert, now)
    else if !backing[i].Expired(now) then Live(backing, len)
    else if i + 1 > len then Panicked
    else SweepFrom(ShiftLeft(backing, i, len), len - 1, n, i + 1, cert, now)
  }

  predicate Has(leases: seq<Lease>, cert: Certificate) {
    exists i :: 0 <= i < |leases| && leases[i].certificate == cert
  }

  predicate HasLive(leases: seq<Lease>, cert: Certificate, now: Time) {
    exists i :: 0 <= i < |leases| && leases[i].certificate == cert && !leases[i].Expired(now)
  }

  /** Nothing at or after `i` concerns `cert`: the loop runs to its end without effect. */
  lemma {:induction false} SweepNothingLeft(backing: seq<Lease>, len: nat, n: nat, i: nat, cert: Certificate, now: Time)
    requires len <= n <= |backing| && i <= n
    requires forall k :: i <= k < n ==> backing[k].certificate != cert
    ensures SweepFrom(backing, len, n, i, cert, now) == Cleared(backing, len)
    decreases n - i
  {
    if i < n {
      SweepNothingLeft(backing, len, n, i + 1, cert, now);
    }
  }

  /** The loop deletes its certificate's only lease and then finds nothing more, the stale last cell
    * included. */
  lemma SweepDeletesTheOne(backing: seq<Lease>, n: nat, i: nat, cert: Certificate, now: Time)
    requires i < n <= |backing| && Distinct(backing[..n])
    requires backing[i].certificate == cert && backing[i].Expired(now)
    ensures SweepFrom(backing, n, n, i, cert, now) == Cleared(ShiftLeft(backing, i, n), n - 1)
    ensures ShiftLeft(backing, i, n)[..n - 1] == backing[..n][..i] + backing[..n][i + 1..]
  {
    var leases, shifted := backing[..n], ShiftLeft(backing, i, n);
    assert leases[i].certificate == cert;
    forall k | i + 1 <= k < n
      ensures shifted[k].certificate != cert
    {
      if k < n - 1 {
        assert shifted[k] == shifted[..n - 1][k] == leases[k + 1];
      } else {
        assert shifted[k] == shifted[n - 1..][0] == leases[n - 1];
      }
    }
    SweepNothingLeft(shifted, n - 1, n, i + 1, cert, now);
  }

  /** With one lease per certificate the loop stays in bounds, and leaves the table minus `cert`
    * unless it finds a live lease, in which case it leaves the table alone. */
  lemma {:induction false} SweepOfDistinct(backing: seq<Lease>, n: nat, i: nat, cert: Certificate, now: Time)
    requires i <= n <= |backing| && Distinct(backing[..n])
    requires forall k :: 0 <= k < i ==> backing[k].certificate != cert
    ensures var s := SweepFrom(backing, n, n, i, cert, now);
            var table := Table(backing[..n]);
            if cert in table && now - table[cert] <= LEASE_TIMEOUT then s == Live(backing, n)
            else
              && s.Cleared?
              && Distinct(s.backing[..s.len])
              && Table(s.backing[..s.len]) == table - {cert}
              && s.len == (if cert in table then n - 1 else n)
    decreases n - i
  {
    var leases := backing[..n];
    var table := Table(leases);
    if i == n {
      assert cert !in table;
      assert table - {cert} == table;
    } else if backing[i].certificate != cert {
      SweepOfDistinct(backing, n, i + 1, cert, now);
    } else {
      assert leases[i].certificate in table && table[leases[i].certificate] == leases[i].leaseStart;
      if backing[i].Expired(now) {
        SweepDeletesTheOne(backing, n, i, cert, now);
        RemovalIsMapRemoval(leases, i);
      }
    }
  }

  lemma RemovalKeepsDistinct(leases: seq<Lease>, i: nat)
    requires i < |leases| && Distinct(leases)
    ensures Distinct(leases[..i] + leases[i + 1..])
  {
    var rest := leases[..i] + leases[i + 1..];
    assert forall m :: 0 <= m < |rest| ==> rest[m] == leases[if m < i then m else m + 1];
  }

  /** One key of the map after entry `i` is gone. */
  lemma RemovalAt(leases: seq<Lease>, i: nat, c: Certificate)
    requires i < |leases| && Distinct(leases)
    requires Distinct(leases[..i] + leases[i + 1..])
    ensures var was, now := Table(leases), Table(leases[..i] + leases[i + 1..]);
            && (c in now <==> c in was && c != leases[i].certificate)
            && (c in now ==> now[c] == was[c])
  {
    var rest := leases[..i] + leases[i + 1..];
    if k :| 0 <= k < |leases| && leases[k].certificate == c {
      if k != i {
        assert rest[if k < i then k else k - 1] == leases[k];
      }
    }
    if m :| 0 <= m < |rest| && rest[m].certificate == c {
      assert rest[m] == leases[if m < i then m else m + 1];
    }
  }

  lemma RemovalIsMapRemoval(leases: seq<Lease>, i: nat)
    requires i < |leases| && Distinct(leases)
    ensures Distinct(leases[..i] + leases[i + 1..])
    ensures Table(leases[..i] + leases[i + 1..]) == Table(leases) - {leases[i].certificate}
  {
    RemovalKeepsDistinct(leases, i);
    var now, expected := Table(leases[..i] + leases[i + 1..]), Table(leases) - {leases[i].certificate};
    forall c
      ensures c in now <==> c in expected
      ensures c in now ==> now[c] == expected[c]
    {
      RemovalAt(leases, i, c);
    }
  }

  /** Does the loop come across a live lease of `cert` in the table? It skips the lease after each one it
    * deletes. */
  predicate MeetsLive(leases: seq<Lease>, i: nat, cert: Certificate, now: Time)
    decreases |leases| - i
  {
    && i < |leases|
    && if leases[i].certificate != cert then MeetsLive(leases, i + 1, cert, now)
       else !leases[i].Expired(now) || MeetsLive(leases, i + 2, cert, now)
  }

  /** The loop at index `i` of a table that began as `orig` and has lost `|orig| - len` leases: what it
    * has not looked at has moved down by as many cells, and the cells given up hold the last lease. */
  predicate Shifted(orig: seq<Lease>, backing: seq<Lease>, len: nat, i: nat) {
    && len <= |orig| <= |backing| && i <= |orig|
    && (forall j :: i <= j < len ==> backing[j] == orig[j + |orig| - len])
    && (forall j :: len <= j < |orig| ==> backing[j] == orig[|orig| - 1])
  }

  lemma ShiftLeftShifts(orig: seq<Lease>, backing: seq<Lease>, len: nat, i: nat)
    requires Shifted(orig, backing, len, i) && i < len
    ensures Shifted(orig, ShiftLeft(backing, i, len), len - 1, i + 1)
  {
    var r := ShiftLeft(backing, i, len);
    forall j | i <= j < len - 1
      ensures r[j] == backing[j + 1]
    {
      assert r[j] == r[..len - 1][j];
    }
    forall j | len - 1 <= j < |orig|
      ensures r[j] == backing[j]
    {
      assert r[j] == r[len - 1..][j - (len - 1)];
    }
  }

  /** How the loop ends from any point on, in terms of the table it began with. */
  lemma {:induction false} SweepEnds(orig: seq<Lease>, backing: seq<Lease>, len: nat, i: nat, cert: Certificate,
                                     now: Time)
    requires Shifted(orig, backing, len, i)
    ensures var n := |orig|;
            var s := SweepFrom(backing, len, n, i, cert, now);
            var again := i < n && orig[n - 1].certificate == cert && (len < n || Has(orig[i..n - 1], cert));
            var live := MeetsLive(orig, i + n - len, cert, now);
            && (s.Panicked? <==> again && orig[n - 1].Expired(now) && !live)
            && (s.Live? <==> live || (again && !orig[n - 1].Expired(now)))
    decreases |orig| - i
  {
    var n := |orig|;
    if i < n {
      assert i < n - 1 ==> orig[i..n - 1] == [orig[i]] + orig[i + 1..n - 1];
      if backing[i].certificate != cert {
        SweepEnds(orig, backing, len, i + 1, cert, now);
      } else if backing[i].Expired(now) && i < len {
        ShiftLeftShifts(orig, backing, len, i);
        SweepEnds(orig, ShiftLeft(backing, i, len), len - 1, i + 1, cert, now);
      }
    }
  }

  lemma {:induction false} WhatIsMetIsThere(leases: seq<Lease>, i: nat, cert: Certificate, now: Time)
    ensures MeetsLive(leases, i, cert, now) ==> HasLive(leases, cert, now)
    decreases |leases| - i
  {
    if i < |leases| {
      WhatIsMetIsThere(leases, i + 1, cert, now);
      WhatIsMetIsThere(leases, i + 2, cert, now);
    }
  }

  /** Why the invariant is needed. Over every table, distinct or not, the loop slices out of bounds exactly
    * when the last lease is an expired one of `cert` with another of `cert` before it, and the loop comes
    * across no live one; without a live lease of `cert`, two leases of `cert`, one of them last, suffice. */
  lemma SweepPanicsExactlyOnDuplicates(backing: seq<Lease>, n: nat, cert: Certificate, now: Time)
    requires n <= |backing|
    ensures SweepFrom(backing, n, n, 0, cert, now).Panicked?
            <==> && 0 < n && backing[n - 1].certificate == cert && backing[n - 1].Expired(now)
                 && Has(backing[..n - 1], cert)
                 && !MeetsLive(backing[..n], 0, cert, now)
    ensures !HasLive(backing[..n], cert, now) ==>
              (SweepFrom(backing, n, n, 0, cert, now).Panicked?
               <==> 0 < n && backing[n - 1].certificate == cert && Has(backing[..n - 1], cert))
  {
    WhatIsMetIsThere(backing[..n], 0, cert, now);
    assert 0 < n ==> backing[..n][n - 1] == backing[n - 1];
    SweepEnds(backing[..n], backing, n, 0, cert, now);
    assert n > 0 ==> backing[..n][0..n - 1] == backing[..n - 1];
  }

  // ---------------------------------------------------------------- the handshake callback

  /** What one handshake does to the table, what it answers, and the intent it asked about. */
  datatype Reply = Reply(table: map<Certificate, Time>, verdict: Verdict, asked: Option<string>)

  function Handshake(table: map<Certificate, Time>, chains: seq<seq<Certificate>>, now: Time,
                     permits: string -> bool): Reply
  {
    match LastCarrier(Flatten(chains))
    case None => Reply(table, NoIntent, None)
    case Some(Choice(cert, ext)) =>
      if cert in table && now - table[cert] <= LEASE_TIMEOUT then Reply(table, Accepted, None)
      else
        var rest := table - {cert};
        match ext.intent
        case None => Reply(rest, Malformed, None)
        case Some(intent) =>
          if permits(intent) then Reply(rest[cert := now], Accepted, Some(intent))
          else Reply(rest, Denied, Some(intent))
  }

  /** What a handshake answers about the certificate it chose, and what becomes of that certificate's lease;
    * the ten seconds are written in nanoseconds. */
  lemma HandshakeAnswers(table: map<Certificate, Time>, chains: seq<seq<Certificate>>, now: Time,
                         permits: string -> bool, cert: Certificate, ext: Extension)
    requires LastCarrier(Flatten(chains)) == Some(Choice(cert, ext))
    ensures var r := Handshake(table, chains, now, permits);
            var live := cert in table && now <= table[cert] + 10_000_000_000;
            && (r.verdict == Accepted <==> live || (ext.intent.Some? && permits(ext.intent.value)))
            && (r.verdict == Malformed <==> !live && ext.intent.None?)
            && (r.verdict == Denied <==> !live && ext.intent.Some? && !permits(ext.intent.value))
            && (cert in r.table <==> r.verdict == Accepted)
            && (cert in r.table ==> r.table[cert] == if live then table[cert] else now)
            && r.asked == if live then None else ext.intent
  {
  }

  /** A handshake is accepted exactly when it leaves a live lease for the certificate it chose; it never
    * touches the lease of any other certificate. */
  lemma HandshakeConcernsOneCertificate(table: map<Certificate, Time>, chains: seq<seq<Certificate>>, now: Time,
                                        permits: string -> bool, other: Certificate)
    ensures var r := Handshake(table, chains, now, permits);
            match LastCarrier(Flatten(chains))
            case None => r.verdict == NoIntent && r.table == table && r.asked == None
            case Some(choice) =>
              && (r.verdict == Accepted <==> choice.cert in r.table && now - r.table[choice.cert] <= LEASE_TIMEOUT)
              && (r.verdict == Accepted && r.asked.Some? ==> permits(r.asked.value) && IntentOf(choice.cert) == r.asked)
              && (other != choice.cert ==>
                    && (other in r.table <==> other in table)
                    && (other in table ==> r.table[other] == table[other]))
  {
    LastCarrierIsCoherent(Flatten(chains));
  }

  datatype SweepEnd = FoundLive | SweptAll | OutOfBounds

  class Proxy {
    const serialNumber: nat
    var leases: array<Lease>  // the backing array of the slice
    var len: nat              // the length of the slice

    predicate InBounds()
      reads this
    {
      len <= leases.Length
    }

    predicate Valid()
      reads this, leases
    {
      InBounds() && Distinct(leases[..len])
    }

    ghost function Granted(): map<Certificate, Time>
      requires Valid()
      reads this, leases
    {
      Table(leases[..len])
    }

    constructor (serialNumber: nat)
      ensures Valid() && fresh(leases)
      ensures Granted() == map[]
      ensures this.serialNumber == serialNumber
    {
      this.serialNumber := serialNumber;
      leases := new Lease[0];
      len := 0;
    }

    /** The range loop of the callback, on any table. */
    method DropExpired(cert: Certificate, now: Time) returns (end: SweepEnd)
      requires InBounds()
      modifies this`len, leases
      ensures InBounds()
      ensures var s := SweepFrom(old(leases[..]), old(len), old(len), 0, cert, now);
              && (end == OutOfBounds <==> s.Panicked?)
              && (end == FoundLive <==> s.Live?)
              && (!s.Panicked? ==> leases[..] == s.backing && len == s.len)
    {
      var n := len;  // the header the range loop evaluated
      ghost var spec := SweepFrom(leases[..], len, n, 0, cert, now);
      var i := 0;
      while i < n
        invariant i <= n <= leases.Length && len <= n
        invariant spec == SweepFrom(leases[..], len, n, i, cert, now)
      {
        if leases[i].certificate == cert {
          if !leases[i].Expired(now) {
            return FoundLive;
          }
          if i + 1 > len {
            return OutOfBounds;
          }
          ShiftDown(i);
        }
        i := i + 1;
      }
      return SweptAll;
    }

    /** Deletes entry `i` by copying the tail over it. */
    method ShiftDown(i: nat)
      requires i < len <= leases.Length
      modifies this`len, leases
      ensures len == old(len) - 1
      ensures leases[..] == ShiftLeft(old(leases[..]), i, old(len))
    {
      var j := i;
      while j + 1 < len
        invariant leases == old(leases) && len == old(len)
        invariant i <= j < len
        invariant forall k :: i <= k < j ==> leases[k] == old(leases[..])[k + 1]
        invariant forall k :: 0 <= k < i || j <= k < leases.Length ==> leases[k] == old(leases[..])[k]
      {
        leases[j] := leases[j + 1];
        j := j + 1;
      }
      assert leases[..] == ShiftLeft(old(leases[..]), i, len);
      len := len - 1;
    }

    /** Appends a lease, moving to a larger backing array when this one is full. */
    method Append(lease: Lease)
      requires InBounds()
      modifies this, leases
      ensures InBounds() && (leases == old(leases) || fresh(leases))
      ensures leases[..len] == old(leases[..len]) + [lease]
    {
      if len == leases.Length {
        var larger := new Lease[2 * len + 1](_ => lease);
        for i := 0 to len
          invariant leases == old(leases) && len == old(len) && leases[..] == old(leases[..])
          invariant forall k :: 0 <= k < i ==> larger[k] == leases[k]
        {
          larger[i] := leases[i];
        }
        leases := larger;
      }
      leases[len] := lease;
      len := len + 1;
    }

    method VerifyPeerCertificate(chains: seq<seq<Certificate>>, now: Time, permits: string -> bool)
        returns (verdict: Verdict, asked: Option<string>)
      requires Valid()
      modifies this, leases
      ensures Valid() && (leases == old(leases) || fresh(leases))
      ensures Reply(Granted(), verdict, asked) == Handshake(old(Granted()), chains, now, permits)
    {
      asked := None;
      var choice := SelectIntent(chains);
      if choice.None? {
        return NoIntent, None;
      }
      var cert, ext := choice.value.cert, choice.value.ext;

      SweepOfDistinct(leases[..], len, 0, cert, now);
      assert leases[..][..len] == leases[..len];
      var end := DropExpired(cert, now);
      assert leases[..][..len] == leases[..len];
      if end == FoundLive {
        return Accepted, None;
      }

      if ext.intent.None? {
        return Malformed, None;
      }
      asked := ext.intent;
      if !permits(ext.intent.value) {
        return Denied, asked;
      }

      ghost var rest := leases[..len];
      Append(Lease(cert, now));
      AppendIsMapUpdate(rest, Lease(cert, now));
      return Accepted, asked;
    }
  }

  /** One key of the map after an append. */
  lemma AppendAt(leases: seq<Lease>, lease: Lease, c: Certificate)
    requires Distinct(leases) && Distinct(leases + [lease])
    ensures var was, now := Table(leases), Table(leases + [lease]);
            && (c in now <==> c in was || c == lease.certificate)
            && (c in now ==> now[c] == if c == lease.certificate then lease.leaseStart else was[c])
  {
    var more := leases + [lease];
    assert more[|leases|] == lease;
    if k :| 0 <= k < |leases| && leases[k].certificate == c {
      assert more[k] == leases[k];
    }
    if m :| 0 <= m < |leases| && more[m].certificate == c {
      assert more[m] == leases[m];
    }
  }

  lemma AppendIsMapUpdate(leases: seq<Lease>, lease: Lease)
    requires Distinct(leases) && lease.certificate !in Table(leases)
    ensures Distinct(leases + [lease])
    ensures Table(leases + [lease]) == Table(leases)[lease.certificate := lease.leaseStart]
  {
    var more := leases + [lease];
    assert Distinct(more) by {
      assert forall i :: 0 <= i < |leases| ==> more[i] == leases[i] && more[i].certificate in Table(leases);
    }
    var now, expected := Table(more), Table(leases)[lease.certificate := lease.leaseStart];
    forall c
      ensures c in now <==> c in expected
      ensures c in now ==> now[c] == expected[c]
    {
      AppendAt(leases, lease, c);
    }
  }
}
