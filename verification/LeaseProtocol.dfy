/** Store, endpoint, proxies and clock as one transition system.
  *
  * A run is a list of steps; every choice the outside world makes is part of its step, so a theorem
  * about all lists of steps is a theorem about all interleavings. A handshake is one step: the
  * proxy performs handshakes one after the other in its accept loop, and the time between the
  * answer of the endpoint and the recording of the lease is not modelled. */
module LeaseProtocol {
  import opened Casts
  import opened Collection
  import opened ConsentEngine
  import opened LeaseEndpoint
  import opened LeaseTable
  import opened Wrappers

  type ProxyId = nat

  datatype ProxyState = ProxyState(serial: nat, table: map<Certificate, Time>)

  /** `poisoned`: a handler crashed while holding the engine's mutex; every later `lock().unwrap()`
    * crashes as well. */
  datatype State = State(clock: Time, db: Database, poisoned: bool, proxies: map<ProxyId, ProxyState>)

  datatype Step =
    | Tick(elapsed: nat)
    | Administer(op: Operation)
    | Message(id: string, purposes: seq<string>, fate: Fate)  // the direct consent message, serial number 0
    | Launch(p: ProxyId, serial: nat)  // a tenant container starts, or starts again
    | Query(user: Option<string>, intent: Option<string>, readable: bool)  // any other lease request
    | Connect(p: ProxyId, chains: seq<seq<Certificate>>, reachable: bool, readable: bool)

  /** The answer the endpoint gives to a proxy right now. */
  function Ask(s: State, serial: nat, intent: string, readable: bool): Response {
    if s.poisoned then Crash else Handle(s.db, Some(Format(serial)), Some(intent), readable)
  }

  function Shake(s: State, p: ProxyId, chains: seq<seq<Certificate>>, reachable: bool, readable: bool): LeaseTable.Reply
    requires p in s.proxies
  {
    var proxy := s.proxies[p];
    Handshake(proxy.table, chains, s.clock, intent => reachable && Ask(s, proxy.serial, intent, readable) == Answer(Ok))
  }

  function Next(s: State, step: Step): State {
    match step
    case Tick(elapsed) => s.(clock := s.clock + elapsed)
    case Administer(op) => if s.poisoned then s else s.(db := Apply(s.db, op).db)
    case Message(id, purposes, fate) =>
      if s.poisoned then s else s.(db := StoreConsent(s.db, Doc(id, ConsentBody(AsI32(0), purposes)), fate).db)
    case Launch(p, serial) => s.(proxies := s.proxies[p := ProxyState(serial, map[])])
    case Query(user, intent, readable) =>
      s.(poisoned := s.poisoned || Handle(s.db, user, intent, readable).Crash?)
    case Connect(p, chains, reachable, readable) =>
      if p !in s.proxies then s
      else
        var proxy := s.proxies[p];
        var reply := Shake(s, p, chains, reachable, readable);
        var crashed := reply.asked.Some? && reachable && Ask(s, proxy.serial, reply.asked.value, readable).Crash?;
        s.(poisoned := s.poisoned || crashed,
           proxies := s.proxies[p := proxy.(table := reply.table)])
  }

  /** The certificate a connection presents as its intent's carrier. */
  predicate Presents(chains: seq<seq<Certificate>>, cert: Certificate) {
    var choice := LastCarrier(Flatten(chains));
    choice.Some? && choice.value.cert == cert
  }

  /** This step is a handshake that proxy `p` accepts for `cert`. */
  predicate Accepts(s: State, step: Step, p: ProxyId, cert: Certificate) {
    && step.Connect? && step.p == p && p in s.proxies
    && Presents(step.chains, cert)
    && Shake(s, p, step.chains, step.reachable, step.readable).verdict == Accepted
  }

  function StateAt(s: State, steps: seq<Step>, k: nat): State
    requires k <= |steps|
  {
    if k == 0 then s else Next(StateAt(s, steps, k - 1), steps[k - 1])
  }

  // ---------------------------------------------------------------- why a lease exists

  /** The endpoint would let a proxy with this serial number in for this certificate. */
  predicate WouldGrant(s: State, serial: nat, cert: Certificate) {
    !s.poisoned && IntentOf(cert).Some? && ConsentHeld(s.db, serial, IntentOf(cert).value)
  }

  /** At step `j` a proxy with this serial number accepted `cert` after asking, with a consent held. */
  predicate GrantedAt(s: State, steps: seq<Step>, j: nat, p: ProxyId, serial: nat, cert: Certificate)
    requires j < |steps|
  {
    var at := StateAt(s, steps, j);
    && Accepts(at, steps[j], p, cert)
    && at.proxies[p].serial == serial
    && WouldGrant(at, serial, cert)
  }

  predicate Justified(s: State, steps: seq<Step>, k: nat, p: ProxyId, serial: nat, cert: Certificate, start: Time)
    requires k <= |steps|
  {
    exists j :: 0 <= j < k && GrantedAt(s, steps, j, p, serial, cert) && StateAt(s, steps, j).clock == start
  }

  predicate AllJustified(s: State, steps: seq<Step>, k: nat)
    requires k <= |steps|
  {
    var at := StateAt(s, steps, k);
    forall p, cert :: p in at.proxies && cert in at.proxies[p].table ==>
      Justified(s, steps, k, p, at.proxies[p].serial, cert, at.proxies[p].table[cert])
  }

  predicate Initial(s: State) {
    forall p :: p in s.proxies ==> s.proxies[p].table == map[]
  }

  /** What a handshake can have done to the lease of any one certificate. */
  lemma HandshakeEffect(s: State, step: Step, cert: Certificate)
    requires step.Connect? && step.p in s.proxies
    ensures var proxy := s.proxies[step.p];
            var reply := Shake(s, step.p, step.chains, step.reachable, step.readable);
            && (cert in reply.table ==>
                  || (cert in proxy.table && reply.table[cert] == proxy.table[cert])
                  || (&& reply.table[cert] == s.clock && Accepts(s, step, step.p, cert)
                      && WouldGrant(s, proxy.serial, cert)))
            && (Accepts(s, step, step.p, cert) ==>
                  || (cert in proxy.table && s.clock - proxy.table[cert] <= LEASE_TIMEOUT)
                  || WouldGrant(s, proxy.serial, cert))
  {
    var proxy := s.proxies[step.p];
    var certs := Flatten(step.chains);
    LastCarrierIsCoherent(certs);
    var choice := LastCarrier(certs);
    if choice.Some? {
      var k: nat :| ChosenAt(certs, choice.value, k);
      assert IntentOf(choice.value.cert) == choice.value.ext.intent;
      if choice.value.ext.intent.Some? {
        OkMeansConsent(s.db, proxy.serial, choice.value.ext.intent.value, step.readable);
      }
    }
  }

  /** The other direction, too: with distinct serial numbers, who presents a certificate is accepted exactly
    * if its lease is at most ten seconds old, or the endpoint can be reached, the store can be read and the
    * certificate would be granted. */
  lemma AcceptsExactly(s: State, step: Step, p: ProxyId, cert: Certificate)
    requires step.Connect? && step.p == p && p in s.proxies && Presents(step.chains, cert)
    requires UniqueSerials(s.db)
    ensures var proxy := s.proxies[p];
            Accepts(s, step, p, cert)
            <==> || (cert in proxy.table && s.clock <= proxy.table[cert] + 10_000_000_000)
                 || (step.reachable && step.readable && WouldGrant(s, proxy.serial, cert))
  {
    var proxy := s.proxies[p];
    var choice := LastCarrier(Flatten(step.chains)).value;
    LastCarrierIsCoherent(Flatten(step.chains));
    var k: nat :| ChosenAt(Flatten(step.chains), choice, k);
    assert IntentOf(cert) == choice.ext.intent;
    var permits := intent => step.reachable && Ask(s, proxy.serial, intent, step.readable) == Answer(Ok);
    HandshakeAnswers(proxy.table, step.chains, s.clock, permits, cert, choice.ext);
    if choice.ext.intent.Some? {
      SerialsSurviveTheQueryString(proxy.serial);
      HandlerAnswers(s.db, Some(Format(proxy.serial)), choice.ext.intent, step.readable);
      OkMeansConsent(s.db, proxy.serial, choice.ext.intent.value, step.readable);
    }
  }

  /** A container that starts again has forgotten its leases: its next handshake has to be granted anew. */
  lemma RestartForgetsLeases(s: State, p: ProxyId, serial: nat, step: Step, cert: Certificate)
    requires Accepts(Next(s, Launch(p, serial)), step, p, cert)
    ensures WouldGrant(s, serial, cert)
  {
    HandshakeEffect(Next(s, Launch(p, serial)), step, cert);
  }

  predicate HadLease(s: State, p: ProxyId, serial: nat, cert: Certificate, start: Time) {
    p in s.proxies && s.proxies[p].serial == serial && cert in s.proxies[p].table && s.proxies[p].table[cert] == start
  }

  /** A lease after a step was there before, or this step is the handshake that granted it. */
  lemma LeaseOrigin(s: State, step: Step, p: ProxyId, serial: nat, cert: Certificate, start: Time)
    requires HadLease(Next(s, step), p, serial, cert, start)
    ensures || HadLease(s, p, serial, cert, start)
            || (&& Accepts(s, step, p, cert) && s.proxies[p].serial == serial
                && WouldGrant(s, serial, cert) && start == s.clock)
  {
    if step.Connect? && step.p in s.proxies {
      HandshakeEffect(s, step, cert);
    }
  }

  lemma LeaseIsJustified(s: State, steps: seq<Step>, k: nat, p: ProxyId, cert: Certificate)
    requires 0 < k <= |steps| && AllJustified(s, steps, k - 1)
    requires var now := StateAt(s, steps, k); p in now.proxies && cert in now.proxies[p].table
    ensures var proxy := StateAt(s, steps, k).proxies[p];
            Justified(s, steps, k, p, proxy.serial, cert, proxy.table[cert])
  {
    var before, now := StateAt(s, steps, k - 1), StateAt(s, steps, k);
    var start, serial := now.proxies[p].table[cert], now.proxies[p].serial;
    assert now == Next(before, steps[k - 1]);
    LeaseOrigin(before, steps[k - 1], p, serial, cert, start);
    if HadLease(before, p, serial, cert, start) {
      assert Justified(s, steps, k - 1, p, serial, cert, start);
    } else {
      assert GrantedAt(s, steps, k - 1, p, serial, cert);
    }
  }

  lemma {:induction false} LeasesAreJustified(s: State, steps: seq<Step>, k: nat)
    requires k <= |steps| && Initial(s)
    ensures AllJustified(s, steps, k)
  {
    if k > 0 {
      LeasesAreJustified(s, steps, k - 1);
      var now := StateAt(s, steps, k);
      forall p, cert | p in now.proxies && cert in now.proxies[p].table
        ensures Justified(s, steps, k, p, now.proxies[p].serial, cert, now.proxies[p].table[cert])
      {
        LeaseIsJustified(s, steps, k, p, cert);
      }
    }
  }

  lemma {:induction false} ClockNeverGoesBack(s: State, steps: seq<Step>, j: nat, k: nat)
    requires j <= k <= |steps|
    ensures StateAt(s, steps, j).clock <= StateAt(s, steps, k).clock
    decreases k
  {
    if j < k {
      ClockNeverGoesBack(s, steps, j, k - 1);
    }
  }

  /** Bounded staleness. In every run, an accepted handshake goes back to a handshake of the same
    * proxy for the same certificate, at most ten seconds earlier, at which the store held a consent
    * with the proxy's serial number for the certificate's intent. */
  lemma AcceptedHandshakesAreBacked(s: State, steps: seq<Step>, k: nat, p: ProxyId, cert: Certificate)
    returns (j: nat)
    requires Initial(s) && k < |steps|
    requires Accepts(StateAt(s, steps, k), steps[k], p, cert)
    ensures j <= k
    ensures GrantedAt(s, steps, j, p, StateAt(s, steps, k).proxies[p].serial, cert)
    ensures StateAt(s, steps, j).clock <= StateAt(s, steps, k).clock <= StateAt(s, steps, j).clock + LEASE_TIMEOUT
  {
    var at := StateAt(s, steps, k);
    var proxy := at.proxies[p];
    HandshakeEffect(at, steps[k], cert);
    if cert in proxy.table && at.clock - proxy.table[cert] <= LEASE_TIMEOUT {
      LeasesAreJustified(s, steps, k);
      var start := proxy.table[cert];
      assert Justified(s, steps, k, p, proxy.serial, cert, start);
      j :| 0 <= j < k && GrantedAt(s, steps, j, p, proxy.serial, cert) && StateAt(s, steps, j).clock == start;
      ClockNeverGoesBack(s, steps, j, k);
    } else {
      j := k;
    }
  }

  /** Once nothing would be granted any more, nothing is accepted ten seconds later. */
  lemma NoGrantsMeansNoAccessSoon(s: State, steps: seq<Step>, i: nat, k: nat, p: ProxyId, cert: Certificate)
    requires Initial(s) && i <= k < |steps|
    requires Accepts(StateAt(s, steps, k), steps[k], p, cert)
    requires forall j :: i <= j <= k ==>
               !WouldGrant(StateAt(s, steps, j), StateAt(s, steps, k).proxies[p].serial, cert)
    ensures StateAt(s, steps, k).clock <= StateAt(s, steps, i).clock + LEASE_TIMEOUT
  {
    var j := AcceptedHandshakesAreBacked(s, steps, k, p, cert);
    assert WouldGrant(StateAt(s, steps, j), StateAt(s, steps, k).proxies[p].serial, cert);
    ClockNeverGoesBack(s, steps, j, i);
  }

  // ---------------------------------------------------------------- revocation

  /** The step may bring this serial number into the store. */
  predicate Issues(step: Step, serial: u32) {
    || (step.Administer? && step.op.OnboardUser? && step.op.onboard.serial == Some(serial))
    || (step.Message? && serial == 0)
  }

  lemma StepReusesNoSerial(s: State, step: Step, serial: u32)
    requires !SerialInUse(s.db, serial) && !Issues(step, serial)
    ensures !SerialInUse(Next(s, step).db, serial)
  {
    if step.Administer? {
      match step.op {
        case OnboardUser(id, purposes, world) =>
          if world.serial.Some? {
            AsI32IsInjective(world.serial.value, serial);
          }
        case DeboardUser(id, world) =>
          WithoutTakesAway(s.db.consents, id);
      }
    } else if step.Message? {
      AsI32IsInjective(0, serial);
    }
  }

  /** An insert by the direct message brings serial number 0 into use, unless the engine is poisoned, the
    * insert is lost or the id is taken. */
  lemma MessageIssuesZero(s: State, id: string, purposes: seq<string>, fate: Fate)
    ensures SerialInUse(Next(s, Message(id, purposes, fate)).db, 0)
            <==> SerialInUse(s.db, 0) || (!s.poisoned && fate != Lost && !HasId(s.db.consents, id))
  {
    var consent := Doc(id, ConsentBody(AsI32(0), purposes));
    var after := InsertOne(s.db.consents, consent, fate);
    assert forall c :: c in after <==> c in s.db.consents || (c == consent && after != s.db.consents);
    if !s.poisoned && fate != Lost && !HasId(s.db.consents, id) {
      assert after[|s.db.consents|] == consent;
    }
  }

  lemma {:induction false} WithoutTakesAway<T>(docs: seq<Doc<T>>, id: string)
    ensures forall d :: d in Without(docs, id) ==> d in docs
  {
    if docs != [] && docs[0].id != id {
      WithoutTakesAway(docs[1..], id);
    }
  }

  lemma {:induction false} WithdrawnSerialStaysAway(s: State, steps: seq<Step>, i: nat, k: nat, serial: u32)
    requires i <= k <= |steps|
    requires !SerialInUse(StateAt(s, steps, i).db, serial)
    requires forall j :: i <= j < k ==> !Issues(steps[j], serial)
    ensures !SerialInUse(StateAt(s, steps, k).db, serial)
    decreases k
  {
    if i < k {
      WithdrawnSerialStaysAway(s, steps, i, k - 1, serial);
      StepReusesNoSerial(StateAt(s, steps, k - 1), steps[k - 1], serial);
    }
  }

  /** Ten seconds after a serial number is gone from the store, nobody gets in under it. */
  lemma GoneSerialMeansNoAccessSoon(s: State, steps: seq<Step>, i: nat, k: nat, p: ProxyId, cert: Certificate,
                                    serial: u32)
    requires Initial(s) && i <= k < |steps|
    requires !SerialInUse(StateAt(s, steps, i).db, serial)
    requires forall j :: i <= j < k ==> !Issues(steps[j], serial)
    requires Accepts(StateAt(s, steps, k), steps[k], p, cert)
    requires StateAt(s, steps, k).proxies[p].serial == serial
    ensures StateAt(s, steps, k).clock <= StateAt(s, steps, i).clock + LEASE_TIMEOUT
  {
    forall j | i <= j <= k
      ensures !WouldGrant(StateAt(s, steps, j), serial, cert)
    {
      WithdrawnSerialStaysAway(s, steps, i, j, serial);
    }
    NoGrantsMeansNoAccessSoon(s, steps, i, k, p, cert);
  }

  lemma {:induction false} IdsStayUnique(s: State, steps: seq<Step>, k: nat)
    requires k <= |steps| && Keyed(s.db)
    ensures Keyed(StateAt(s, steps, k).db)
  {
    if k > 0 {
      IdsStayUnique(s, steps, k - 1);
      var before := StateAt(s, steps, k - 1);
      match steps[k - 1] {
        case Administer(op) => ApplyKeepsKeyed(before.db, op);
        case Message(id, purposes, fate) =>
          InsertIsExact(before.db.consents, Doc(id, ConsentBody(AsI32(0), purposes)), fate);
        case _ =>
      }
    }
  }

  /** The step is a deboard that succeeds in withdrawing this consent. */
  predicate Withdraws(s: State, step: Step, consent: Consent) {
    && !s.poisoned
    && consent in s.db.consents
    && step.Administer? && step.op.DeboardUser? && step.op.id == consent.id
    && Apply(s.db, step.op).ok
  }

  /** Nobody else's consent in the store has the serial number of this one. */
  predicate AloneWithItsSerial(s: State, consent: Consent) {
    forall c :: c in s.db.consents && c.body.serialNumber == consent.body.serialNumber ==> c.id == consent.id
  }

  /** Withdrawing a consent frees its serial number exactly when nobody else's consent has it too. */
  lemma WithdrawingFreesTheSerial(s: State, step: Step, consent: Consent, serial: u32)
    requires Keyed(s.db)
    requires Withdraws(s, step, consent) && consent.body.serialNumber == AsI32(serial)
    ensures !SerialInUse(Next(s, step).db, serial) <==> AloneWithItsSerial(s, consent)
    ensures Next(s, step).clock == s.clock
  {
    DeboardIsExact(s.db, consent.id, step.op.deboard);
  }

  /** Revocation. A user's consent, the only one with its serial number, is withdrawn by a deboard at
    * step `i` that succeeds. If that serial number is not issued again, no proxy with that serial
    * number accepts anybody more than ten seconds after the deboard. */
  lemma DeboardEndsAccessInTenSeconds(s: State, steps: seq<Step>, i: nat, k: nat, p: ProxyId, cert: Certificate,
                                      consent: Consent, serial: u32)
    requires Initial(s) && Keyed(s.db) && i < k < |steps|
    requires Withdraws(StateAt(s, steps, i), steps[i], consent) && consent.body.serialNumber == AsI32(serial)
    requires AloneWithItsSerial(StateAt(s, steps, i), consent)
    requires forall j :: i < j < k ==> !Issues(steps[j], serial)
    requires Accepts(StateAt(s, steps, k), steps[k], p, cert)
    requires StateAt(s, steps, k).proxies[p].serial == serial
    ensures StateAt(s, steps, k).clock <= StateAt(s, steps, i).clock + LEASE_TIMEOUT
  {
    assert StateAt(s, steps, i + 1) == Next(StateAt(s, steps, i), steps[i]);
    IdsStayUnique(s, steps, i);
    WithdrawingFreesTheSerial(StateAt(s, steps, i), steps[i], consent, serial);
    GoneSerialMeansNoAccessSoon(s, steps, i + 1, k, p, cert, serial);
  }

  // ---------------------------------------------------------------- the poisoned engine

  lemma {:induction false} PoisonIsForever(s: State, steps: seq<Step>, i: nat, k: nat)
    requires i <= k <= |steps| && StateAt(s, steps, i).poisoned
    ensures StateAt(s, steps, k).poisoned && StateAt(s, steps, k).db == StateAt(s, steps, i).db
    decreases k
  {
    if i < k {
      PoisonIsForever(s, steps, i, k - 1);
    }
  }

  /** A lease request, from a proxy or anybody else, for a serial number no consent has. */
  predicate AsksUnknownSerial(s: State, step: Step) {
    match step
    case Query(user, intent, readable) =>
      && user.Some? && intent.Some? && readable
      && ParseU32(user.value).Some? && !SerialInUse(s.db, ParseU32(user.value).value)
    case Connect(p, chains, reachable, readable) =>
      && p in s.proxies && reachable && readable
      && Shake(s, p, chains, reachable, readable).asked.Some?
      && s.proxies[p].serial < 0x1_0000_0000 && !SerialInUse(s.db, s.proxies[p].serial)
    case _ => false
  }

  lemma PoisonedExactlyByUnknownSerials(s: State, step: Step)
    requires !s.poisoned
    ensures Next(s, step).poisoned <==> AsksUnknownSerial(s, step)
  {
    match step {
      case Query(user, intent, readable) => CrashMeansNoSuchSerial(s.db, user, intent, readable);
      case Connect(p, chains, reachable, readable) =>
        if p in s.proxies {
          var proxy := s.proxies[p];
          var asked := Shake(s, p, chains, reachable, readable).asked;
          SerialsSurviveTheQueryString(proxy.serial);
          CrashMeansNoSuchSerial(s.db, Some(Format(proxy.serial)), asked, readable);
        }
      case _ =>
    }
  }

  /** One lease request for a serial number without a consent, by anybody, stops the service: the
    * store never changes again, and after ten seconds no proxy accepts anybody. */
  lemma UnknownSerialStopsTheService(s: State, steps: seq<Step>, i: nat, k: nat, p: ProxyId, cert: Certificate)
    requires Initial(s) && i < k < |steps|
    requires AsksUnknownSerial(StateAt(s, steps, i), steps[i])
    ensures StateAt(s, steps, k).db == StateAt(s, steps, i).db
    ensures Accepts(StateAt(s, steps, k), steps[k], p, cert)
            ==> StateAt(s, steps, k).clock <= StateAt(s, steps, i).clock + LEASE_TIMEOUT
  {
    var at := StateAt(s, steps, i);
    if !at.poisoned {
      PoisonedExactlyByUnknownSerials(at, steps[i]);
    }
    assert StateAt(s, steps, i + 1) == Next(at, steps[i]);
    forall j | i + 1 <= j <= k
      ensures StateAt(s, steps, j).poisoned && StateAt(s, steps, j).db == at.db
    {
      PoisonIsForever(s, steps, i + 1, j);
    }
    if Accepts(StateAt(s, steps, k), steps[k], p, cert) {
      NoGrantsMeansNoAccessSoon(s, steps, i + 1, k, p, cert);
    }
  }

  // ---------------------------------------------------------------- how it comes to that

  /** The handshakes that get as far as asking, on a new tenant: some certificate declares a readable intent. */
  predicate DeclaresIntent(chains: seq<seq<Certificate>>) {
    var choice := LastCarrier(Flatten(chains));
    choice.Some? && choice.value.ext.intent.Some?
  }

  /** The tenant's proxy starts with its certificate's serial number and gets a first client. */
  function FirstClient(s: State, p: ProxyId, serial: u32, chains: seq<seq<Certificate>>): State {
    Next(Next(s, Launch(p, serial)), Connect(p, chains, true, true))
  }

  /** An onboarding issues a certificate with a new serial number and starts the tenant with it. The
    * tenant's first client poisons the engine exactly when that onboarding stored no consent, whatever
    * it answered. */
  lemma TenantWithoutConsentPoisons(s: State, op: Operation, serial: u32, p: ProxyId, chains: seq<seq<Certificate>>)
    requires !s.poisoned && !SerialInUse(s.db, serial)
    requires op.OnboardUser? && op.onboard.serial == Some(serial)
    requires DeclaresIntent(chains)
    ensures FirstClient(Next(s, Administer(op)), p, serial, chains).poisoned
            <==> Apply(s.db, op).db.consents == s.db.consents
  {
    var onboarded := Next(s, Administer(op));
    var launched := Next(onboarded, Launch(p, serial));
    PoisonedExactlyByUnknownSerials(launched, Connect(p, chains, true, true));
    OnboardIsExact(s.db, op.id, op.purposes, op.onboard);
    if onboarded.db.consents != s.db.consents {
      var added := onboarded.db.consents[|s.db.consents|];
      assert added in onboarded.db.consents && added.body.serialNumber == AsI32(serial);
    }
  }

  const START: State := State(0, EMPTY, false, map[])

  /** A run from the empty store: an onboarding whose view does not get into the store has started the
    * tenant by then, and the tenant's first client poisons the engine. */
  lemma LostViewLeadsToPoison(id: string, purposes: seq<string>, world: OnboardWorld, p: ProxyId,
                              chains: seq<seq<Certificate>>)
    requires Smooth(world) && DeclaresIntent(chains)
    ensures var onboard := Administer(OnboardUser(id, purposes, world.(viewFate := Lost)));
            var run := [onboard, Launch(p, world.serial.value), Connect(p, chains, true, true)];
            StateAt(START, run, 3).poisoned
  {
    var op := OnboardUser(id, purposes, world.(viewFate := Lost));
    var run := [Administer(op), Launch(p, world.serial.value), Connect(p, chains, true, true)];
    TenantWithoutConsentPoisons(START, op, world.serial.value, p, chains);
    assert StateAt(START, run, 1) == Next(START, run[0]);
    assert StateAt(START, run, 2) == Next(Next(START, run[0]), run[1]);
  }

  /** Another, in which every answer but that of the deboard is a success: a user is onboarded, a deboard
    * loses the container and fails at the store, and the user is onboarded again. The store keeps the old
    * consent, and the new tenant's first client poisons the engine unless the two certificates happen to
    * have the same serial number. */
  lemma StaleConsentLeadsToPoison(id: string, purposes: seq<string>, world: OnboardWorld, newPurposes: seq<string>,
                                  newWorld: OnboardWorld, p: ProxyId, chains: seq<seq<Certificate>>)
    requires Smooth(world) && Smooth(newWorld) && DeclaresIntent(chains)
    ensures var onboard := Administer(OnboardUser(id, purposes, world));
            var deboard := Administer(DeboardUser(id, DeboardWorld(Done, Lost, Lost)));
            var again := OnboardUser(id, newPurposes, newWorld);
            var run := [onboard, deboard, Administer(again), Launch(p, newWorld.serial.value),
                        Connect(p, chains, true, true)];
            && Apply(StateAt(START, run, 2).db, again).ok
            && (StateAt(START, run, 5).poisoned <==> newWorld.serial != world.serial)
  {
    var ops := [OnboardUser(id, purposes, world), DeboardUser(id, DeboardWorld(Done, Lost, Lost))];
    var again := OnboardUser(id, newPurposes, newWorld);
    var run := [Administer(ops[0]), Administer(ops[1]), Administer(again), Launch(p, newWorld.serial.value),
                Connect(p, chains, true, true)];
    SuccessCanLeaveAStaleConsent(id, purposes, world, newPurposes, newWorld);
    var stale := StateAt(START, run, 2);
    assert stale == START.(db := Run(EMPTY, ops)) by {
      assert StateAt(START, run, 1) == Next(START, run[0]);
      assert StateAt(START, run, 2) == Next(Next(START, run[0]), run[1]);
      assert ops[1..] == [ops[1]] && [ops[1]][1..] == [];
      var onboarded := Apply(EMPTY, ops[0]).db;
      assert Run(EMPTY, ops) == Run(onboarded, [ops[1]]) == Run(Apply(onboarded, ops[1]).db, []);
    }
    assert StateAt(START, run, 3) == Next(stale, run[2]);
    var launched := StateAt(START, run, 4);
    assert launched.db.consents == [Doc(id, ConsentBody(AsI32(world.serial.value), purposes))];
    AsI32IsInjective(world.serial.value, newWorld.serial.value);
    assert launched.db.consents[0] in launched.db.consents;
    PoisonedExactlyByUnknownSerials(launched, run[4]);
  }

  /** The ten seconds are really used: after a grant, whatever is done to the store, the same handshake
    * is accepted without reaching the endpoint up to and including ten seconds later, and not a
    * nanosecond longer. */
  lemma TheBoundIsTight(s: State, step: Step, p: ProxyId, cert: Certificate, op: Operation, wait: nat)
    requires Accepts(s, step, p, cert)
    requires Shake(s, p, step.chains, step.reachable, step.readable).asked.Some?
    ensures var later := Next(Next(Next(s, step), Administer(op)), Tick(wait));
            Accepts(later, step.(reachable := false), p, cert) <==> wait <= LEASE_TIMEOUT
  {
    var granted := Next(s, step);
    assert granted.proxies[p].table[cert] == s.clock;
  }
}
