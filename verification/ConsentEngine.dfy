/** Onboarding, deboarding and the queries of the consent engine (`consent.rs`).
  *
  * Nothing here is transactional: each operation is a fixed order of container and store calls,
  * each of which may fail. The specification is a set of functions on `Database`; the class at the
  * end has the engine's own statement order and is proved to follow them. */
module ConsentEngine {
  import opened Casts
  import opened Collection
  import opened Wrappers

  datatype ConsentBody = ConsentBody(serialNumber: int, purpose: seq<string>)

  type Consent = Doc<ConsentBody>

  /** A view's body is the tenant's address. */
  type View = Doc<string>

  /** `view` is the collection that is written; `views`, a different one, is only ever read. */
  datatype Database = Database(containers: set<string>, consents: seq<Consent>, view: seq<View>, views: seq<View>)

  datatype Launch = NotCreated | CreatedOnly | Started(ip: string)

  /** What the outside world answers during one onboarding. */
  datatype OnboardWorld = OnboardWorld(
    listed: Option<bool>,     // is there a container of that name? `None`: the daemon failed
    viewsReadable: bool,      // does reading the collection `views` get as far as a match?
    serial: Option<u32>,      // the serial of the new certificate; `None`: signing failed
    mounted: bool,            // were the certificate files written?
    launch: Launch,
    viewFate: Fate,
    consentFate: Fate)

  datatype DeboardWorld = DeboardWorld(containerFate: Fate, consentFate: Fate, viewFate: Fate)

  /** A database after a call, and whether the caller saw success. */
  datatype Reply = Reply(db: Database, ok: bool)

  function NewContainer(db: Database, id: string, launch: Launch): Reply {
    if launch.NotCreated? || id in db.containers then Reply(db, false)
    else Reply(db.(containers := db.containers + {id}), launch.Started?)
  }

  function RemoveContainer(db: Database, id: string, fate: Fate): Reply {
    if fate.Lost? || id !in db.containers then Reply(db, false)
    else Reply(db.(containers := db.containers - {id}), fate.Done?)
  }

  function StoreView(db: Database, view: View, fate: Fate): Reply {
    Reply(db.(view := InsertOne(db.view, view, fate)), fate.Done?)
  }

  function StoreConsent(db: Database, consent: Consent, fate: Fate): Reply {
    Reply(db.(consents := InsertOne(db.consents, consent, fate)), fate.Done?)
  }

  function DropUser(db: Database, id: string, world: DeboardWorld): Reply {
    var db1 := db.(consents := DeleteOne(db.consents, id, world.consentFate));
    if !world.consentFate.Done? then Reply(db1, false)
    else Reply(db1.(view := DeleteOne(db.view, id, world.viewFate)), world.viewFate.Done?)
  }

  function Deboard(db: Database, id: string, world: DeboardWorld): Reply {
    var removal := RemoveContainer(db, id, world.containerFate);
    if removal.ok then DropUser(removal.db, id, world) else removal
  }

  function Onboard(db: Database, id: string, purposes: seq<string>, world: OnboardWorld): Reply {
    if world.listed != Some(false) then Reply(db, false)
    else if world.viewsReadable && HasId(db.views, id) then Reply(db, false)
    else if world.serial.None? || !world.mounted then Reply(db, false)
    else
      var launched := NewContainer(db, id, world.launch);
      if !launched.ok then launched
      else
        var viewed := StoreView(launched.db, Doc(id, world.launch.ip), world.viewFate);
        if !viewed.ok then viewed
        else StoreConsent(viewed.db, Doc(id, ConsentBody(AsI32(world.serial.value), purposes)), world.consentFate)
  }

  datatype Operation =
    | OnboardUser(id: string, purposes: seq<string>, onboard: OnboardWorld)
    | DeboardUser(id: string, deboard: DeboardWorld)

  function Apply(db: Database, op: Operation): Reply {
    match op
    case OnboardUser(id, purposes, world) => Onboard(db, id, purposes, world)
    case DeboardUser(id, world) => Deboard(db, id, world)
  }

  /** The database after a sequence of operations. A crash in the middle of an operation leaves what
    * the failure of the next call leaves, so prefixes of operations are covered too. */
  function Run(db: Database, ops: seq<Operation>): Database
    decreases |ops|
  {
    if ops == [] then db else Run(Apply(db, ops[0]).db, ops[1..])
  }

  // ---------------------------------------------------------------- crash consistency

  /** Both written collections are keyed by their ids. */
  predicate Keyed(db: Database) {
    UniqueIds(db.consents) && UniqueIds(db.view)
  }

  predicate Backed(db: Database) {
    Keyed(db) && forall c :: c in db.consents ==> HasId(db.view, c.id)
  }

  /** Onboarding writes at most one document to each collection, the view first: a consent is added only
    * for a user whose view is there by then. A user whose container exists is refused untouched. */
  lemma OnboardIsExact(db: Database, id: string, purposes: seq<string>, world: OnboardWorld)
    ensures var r := Onboard(db, id, purposes, world);
            && (id in db.containers ==> r == Reply(db, false))
            && (r.db.view != db.view ==>
                  !HasId(db.view, id) && world.launch.Started? && r.db.view == db.view + [Doc(id, world.launch.ip)])
            && (r.db.consents != db.consents ==>
                  && !HasId(db.consents, id) && HasId(r.db.view, id) && world.serial.Some?
                  && r.db.consents == db.consents + [Doc(id, ConsentBody(AsI32(world.serial.value), purposes))])
            && (r.ok ==> HasId(r.db.view, id) && HasId(r.db.consents, id))
            && r.db.views == db.views
  {
    var r := Onboard(db, id, purposes, world);
    if r.db.view != db.view {
      assert r.db.view[|db.view|] in r.db.view;
    }
    if r.db.consents != db.consents {
      assert r.db.consents[|db.consents|] in r.db.consents;
    }
  }

  lemma OnboardKeepsKeyed(db: Database, id: string, purposes: seq<string>, world: OnboardWorld)
    requires Keyed(db)
    ensures Keyed(Onboard(db, id, purposes, world).db)
  {
    var r := Onboard(db, id, purposes, world).db;
    OnboardIsExact(db, id, purposes, world);
    if r.view != db.view {
      InsertIsExact(db.view, r.view[|db.view|], Done);
    }
    if r.consents != db.consents {
      InsertIsExact(db.consents, r.consents[|db.consents|], Done);
    }
  }

  lemma ApplyKeepsKeyed(db: Database, op: Operation)
    requires Keyed(db)
    ensures Keyed(Apply(db, op).db)
  {
    match op {
      case OnboardUser(id, purposes, world) => OnboardKeepsKeyed(db, id, purposes, world);
      case DeboardUser(id, _) =>
        WithoutKeepsUnique(db.consents, id);
        WithoutKeepsUnique(db.view, id);
    }
  }

  lemma OnboardKeepsBacked(db: Database, id: string, purposes: seq<string>, world: OnboardWorld)
    requires Backed(db)
    ensures Backed(Onboard(db, id, purposes, world).db)
  {
    OnboardKeepsKeyed(db, id, purposes, world);
    OnboardIsExact(db, id, purposes, world);
    var r := Onboard(db, id, purposes, world).db;
    assert forall v :: v in db.view ==> v in r.view;
  }

  lemma RemovalKeepsBacked(db: Database, id: string)
    requires Backed(db)
    ensures Backed(db.(consents := Without(db.consents, id)))
    ensures Backed(db.(consents := Without(db.consents, id), view := Without(db.view, id)))
  {
    WithoutMembers(db.consents, id);
    WithoutMembers(db.view, id);
    forall c | c in db.consents && c.id != id
      ensures HasId(Without(db.view, id), c.id)
    {
      var v :| v in db.view && v.id == c.id;
      assert v in Without(db.view, id);
    }
  }

  lemma DeboardKeepsBacked(db: Database, id: string, world: DeboardWorld)
    requires Backed(db)
    ensures Backed(Deboard(db, id, world).db)
  {
    RemovalKeepsBacked(db, id);
  }

  /** Whatever fails and wherever, a consent never outlives its view. */
  lemma {:induction false} ConsentsAlwaysHaveAView(db: Database, ops: seq<Operation>)
    requires Backed(db)
    ensures Backed(Run(db, ops))
    decreases |ops|
  {
    if ops != [] {
      match ops[0] {
        case OnboardUser(id, purposes, world) => OnboardKeepsBacked(db, id, purposes, world);
        case DeboardUser(id, world) => DeboardKeepsBacked(db, id, world);
      }
      ConsentsAlwaysHaveAView(Apply(db, ops[0]).db, ops[1..]);
    }
  }

  /** The unused message that stores a consent directly is the one way around that order. */
  lemma DirectConsentNeedsAView(db: Database, consent: Consent, fate: Fate)
    requires Backed(db)
    ensures Backed(StoreConsent(db, consent, fate).db)
            <==> fate.Lost? || HasId(db.view, consent.id)
  {
    var r := StoreConsent(db, consent, fate).db;
    if !HasId(db.consents, consent.id) && !fate.Lost? {
      assert r.consents[|db.consents|] == consent;
    }
  }

  /** When an onboarding succeeds: the daemon listed no such container and none is there, `views` did not
    * readably hold the user, and certificate, files, container, view and consent all came off. */
  lemma OnboardSucceedsExactly(db: Database, id: string, purposes: seq<string>, world: OnboardWorld)
    ensures Onboard(db, id, purposes, world).ok
            <==> && world.listed == Some(false)
                 && !(world.viewsReadable && exists v :: v in db.views && v.id == id)
                 && world.serial.Some? && world.mounted
                 && world.launch.Started? && id !in db.containers
                 && world.viewFate == Done && world.consentFate == Done
  {
  }

  /** What is left behind at each stop: nothing before the container is created; only the container if it
    * did not start; no consent unless storing the view was reported done. */
  lemma OnboardStops(db: Database, id: string, purposes: seq<string>, world: OnboardWorld)
    ensures var r := Onboard(db, id, purposes, world);
            var prepared := && world.listed == Some(false)
                            && !(world.viewsReadable && HasId(db.views, id))
                            && world.serial.Some? && world.mounted && id !in db.containers;
            if !prepared || world.launch.NotCreated? then r == Reply(db, false)
            else if world.launch.CreatedOnly? then r == Reply(db.(containers := db.containers + {id}), false)
            else
              && r.db.containers == db.containers + {id} && r.db.views == db.views
              && (r.db.view != db.view <==> !HasId(db.view, id) && world.viewFate != Lost)
              && (r.db.view != db.view ==> r.db.view == db.view + [Doc(id, world.launch.ip)])
              && (r.db.consents != db.consents
                  <==> world.viewFate == Done && !HasId(db.consents, id) && world.consentFate != Lost)
              && (r.db.consents != db.consents ==>
                    r.db.consents == db.consents + [Doc(id, ConsentBody(AsI32(world.serial.value), purposes))])
  {
  }

  /** What a success is worth. It means that this onboarding's own consent is stored exactly when no
    * consent with this id was there before, and likewise for its view: a document left over from an
    * earlier onboarding is kept, with its old serial number, purposes and address. */
  lemma SuccessStoresUnlessStale(db: Database, id: string, purposes: seq<string>, world: OnboardWorld)
    requires Keyed(db) && Onboard(db, id, purposes, world).ok
    ensures var r := Onboard(db, id, purposes, world).db;
            var consent := Doc(id, ConsentBody(AsI32(world.serial.value), purposes));
            var view := Doc(id, world.launch.ip);
            && (consent in r.consents <==> !HasId(db.consents, id) || consent in db.consents)
            && (view in r.view <==> !HasId(db.view, id) || view in db.view)
            && (HasId(db.consents, id) ==> r.consents == db.consents)
            && (HasId(db.view, id) ==> r.view == db.view)
  {
    InsertIsExact(db.consents, Doc(id, ConsentBody(AsI32(world.serial.value), purposes)), Done);
    InsertIsExact(db.view, Doc(id, world.launch.ip), Done);
  }

  /** Every call of this onboarding is reported a success. */
  predicate Smooth(world: OnboardWorld) {
    && world.listed == Some(false) && world.serial.Some? && world.mounted && world.launch.Started?
    && world.viewFate.Done? && world.consentFate.Done?
  }

  const EMPTY: Database := Database({}, [], [], [])

  /** Such a leftover is reachable. A user is onboarded; a deboard removes the container and fails at
    * the store; the user is onboarded again, with success, and the store holds what it held. */
  lemma SuccessCanLeaveAStaleConsent(id: string, purposes: seq<string>, world: OnboardWorld,
                                     newPurposes: seq<string>, newWorld: OnboardWorld)
    requires Smooth(world) && Smooth(newWorld)
    ensures var db := Run(EMPTY, [OnboardUser(id, purposes, world), DeboardUser(id, DeboardWorld(Done, Lost, Lost))]);
            var r := Onboard(db, id, newPurposes, newWorld);
            && db.consents == [Doc(id, ConsentBody(AsI32(world.serial.value), purposes))]
            && db.view == [Doc(id, world.launch.ip)]
            && r == Reply(db.(containers := {id}), true)
  {
    var first, second := OnboardUser(id, purposes, world), DeboardUser(id, DeboardWorld(Done, Lost, Lost));
    var one := Apply(EMPTY, first).db;
    assert one.consents == [Doc(id, ConsentBody(AsI32(world.serial.value), purposes))];
    assert one.view == [Doc(id, world.launch.ip)];
    var two := Apply(one, second).db;
    assert two.containers == {} && one.view[0] in two.view && one.consents[0] in two.consents;
    assert [first, second][1..] == [second] && [second][1..] == [];
    assert Run(EMPTY, [first, second]) == Run(one, [second]) == Run(two, []) == two;
  }

  /** Whatever fails during the onboarding of somebody new, either nothing was changed or a deboard
    * without failures takes it all back. */
  lemma DeboardUndoesOnboard(db: Database, id: string, purposes: seq<string>, world: OnboardWorld)
    requires Keyed(db)
    requires id !in db.containers && !HasId(db.consents, id) && !HasId(db.view, id)
    ensures var r := Onboard(db, id, purposes, world).db;
            r == db || Deboard(r, id, DeboardWorld(Done, Done, Done)) == Reply(db, true)
  {
    WithoutIsExact(db.consents, id);
    WithoutIsExact(db.view, id);
    if world.serial.Some? && world.launch.Started? {
      InsertIsExact(db.consents, Doc(id, ConsentBody(AsI32(world.serial.value), purposes)), world.consentFate);
      InsertIsExact(db.view, Doc(id, world.launch.ip), world.viewFate);
    }
    assert db.containers + {id} - {id} == db.containers;
  }

  /** Nothing an operation does writes `views`. */
  lemma {:induction false} NothingWritesViews(db: Database, ops: seq<Operation>)
    ensures Run(db, ops).views == db.views
    decreases |ops|
  {
    if ops != [] {
      NothingWritesViews(Apply(db, ops[0]).db, ops[1..]);
    }
  }

  /** A deboard succeeds exactly when the container is there and no call fails; it then takes that
    * user, and nobody else, out of both collections. */
  lemma DeboardIsExact(db: Database, id: string, world: DeboardWorld)
    requires Keyed(db)
    ensures var r := Deboard(db, id, world);
            && (r.ok <==> id in db.containers && world == DeboardWorld(Done, Done, Done))
            && (r.ok ==>
                  && r.db.containers == db.containers - {id}
                  && (forall c :: c in r.db.consents <==> c in db.consents && c.id != id)
                  && (forall v :: v in r.db.view <==> v in db.view && v.id != id))
  {
    WithoutMembers(db.consents, id);
    WithoutMembers(db.view, id);
  }

  /** What a failing deboard leaves: nothing is touched before the container is reported gone, and no view
    * before its consent is. */
  lemma DeboardStops(db: Database, id: string, world: DeboardWorld)
    ensures var r := Deboard(db, id, world);
            && r.db.views == db.views
            && r.db.containers == (if world.containerFate == Lost then db.containers else db.containers - {id})
            && (if id in db.containers && world.containerFate == Done then
                  && r.db.consents == (if world.consentFate == Lost then db.consents else Without(db.consents, id))
                  && r.db.view == (if world.consentFate != Done || world.viewFate == Lost then db.view
                                   else Without(db.view, id))
                else !r.ok && r.db.consents == db.consents && r.db.view == db.view)
  {
    assert id !in db.containers ==> db.containers - {id} == db.containers;
  }

  predicate OnlyDeboards(ops: seq<Operation>) {
    forall op :: op in ops ==> op.DeboardUser?
  }

  /** Repeating a failed deboard can still withdraw the consent exactly as long as the container is
    * there. Once the container went and the consent did not, every later deboard stops before the
    * store is reached. */
  lemma RetryWorksWhileTheContainerIsThere(db: Database, consent: Consent)
    requires Backed(db) && consent in db.consents
    ensures (exists ops :: OnlyDeboards(ops) && consent !in Run(db, ops).consents)
            <==> consent.id in db.containers
  {
    if consent.id in db.containers {
      var op := DeboardUser(consent.id, DeboardWorld(Done, Done, Done));
      DeboardIsExact(db, consent.id, op.deboard);
      var next := Apply(db, op).db;
      assert [op][1..] == [];
      assert Run(next, []) == next;
      assert Run(db, [op]) == Run(next, []);
      assert consent !in Run(db, [op]).consents;
      assert OnlyDeboards([op]);
    } else {
      forall ops | OnlyDeboards(ops)
        ensures consent in Run(db, ops).consents
      {
        OrphanSurvivesDeboards(db, consent.id, ops);
      }
    }
  }

  lemma {:induction false} OrphanSurvivesDeboards(db: Database, id: string, ops: seq<Operation>)
    requires id !in db.containers
    requires OnlyDeboards(ops)
    ensures forall c :: c in db.consents && c.id == id ==> c in Run(db, ops).consents
    decreases |ops|
  {
    if ops != [] {
      assert ops[0] in ops;
      var next := Apply(db, ops[0]).db;
      WithoutKeepsOthers(db.consents, ops[0].id, id);
      OrphanSurvivesDeboards(next, id, ops[1..]);
    }
  }

  lemma {:induction false} WithoutKeepsOthers<T>(docs: seq<Doc<T>>, id: string, other: string)
    ensures id != other ==> forall d :: d in docs && d.id == other ==> d in Without(docs, id)
  {
    if docs != [] {
      WithoutKeepsOthers(docs[1..], id, other);
    }
  }

  // ---------------------------------------------------------------- runs without failures

  /** No call fails, and the daemon reports no container that is not there. */
  predicate Faultless(db: Database, op: Operation) {
    match op
    case OnboardUser(id, _, world) =>
      && world.listed.Some? && (world.listed.value ==> id in db.containers)
      && world.serial.Some? && world.mounted && world.launch.Started?
      && world.viewFate.Done? && world.consentFate.Done?
    case DeboardUser(_, world) => world == DeboardWorld(Done, Done, Done)
  }

  predicate FaultlessRun(db: Database, ops: seq<Operation>)
    decreases |ops|
  {
    ops != [] ==> Faultless(db, ops[0]) && FaultlessRun(Apply(db, ops[0]).db, ops[1..])
  }

  /** What an onboarding was told: the address of the container and the certificate's serial number. */
  datatype Tenancy = Tenancy(ip: string, serial: u32, purposes: seq<string>)

  type Tenant = Doc<Tenancy>

  /** Users onboarded and not deboarded since, in order of arrival, each with the particulars of the
    * onboarding that brought them in. */
  function Tenants(tenants: seq<Tenant>, ops: seq<Operation>): seq<Tenant>
    decreases |ops|
  {
    if ops == [] then tenants else Tenants(TenantsAfter(tenants, ops[0]), ops[1..])
  }

  function TenantsAfter(tenants: seq<Tenant>, op: Operation): seq<Tenant> {
    match op
    case OnboardUser(id, purposes, world) =>
      if HasId(tenants, id) || world.serial.None? || !world.launch.Started? then tenants
      else tenants + [Doc(id, Tenancy(world.launch.ip, world.serial.value, purposes))]
    case DeboardUser(id, _) => Without(tenants, id)
  }

  const TO_CONSENT: Tenancy -> ConsentBody := (t: Tenancy) => ConsentBody(AsI32(t.serial), t.purposes)

  const TO_VIEW: Tenancy -> string := (t: Tenancy) => t.ip

  predicate InStep(db: Database, tenants: seq<Tenant>) {
    && UniqueIds(tenants)
    && db.views == []
    && db.consents == Mapped(tenants, TO_CONSENT)
    && db.view == Mapped(tenants, TO_VIEW)
    && db.containers == IdSet(tenants)
  }

  lemma ArrivalStaysInStep(db: Database, tenants: seq<Tenant>, t: Tenant)
    requires InStep(db, tenants) && !HasId(tenants, t.id)
    ensures InStep(Database(db.containers + {t.id}, db.consents + [Doc(t.id, TO_CONSENT(t.body))],
                            db.view + [Doc(t.id, TO_VIEW(t.body))], db.views), tenants + [t])
  {
    var after := tenants + [t];
    assert forall i :: 0 <= i < |tenants| ==> tenants[i] in tenants;
    assert Mapped(after, TO_CONSENT) == Mapped(tenants, TO_CONSENT) + [Doc(t.id, TO_CONSENT(t.body))];
    assert Mapped(after, TO_VIEW) == Mapped(tenants, TO_VIEW) + [Doc(t.id, TO_VIEW(t.body))];
    assert IdSet(after) == IdSet(tenants) + {t.id};
  }

  lemma OnboardStaysInStep(db: Database, tenants: seq<Tenant>, op: Operation)
    requires InStep(db, tenants) && Faultless(db, op) && op.OnboardUser?
    ensures InStep(Apply(db, op).db, TenantsAfter(tenants, op))
  {
    MappedHasId(tenants, TO_CONSENT, op.id);
    MappedHasId(tenants, TO_VIEW, op.id);
    assert op.id in db.containers <==> HasId(tenants, op.id);
    if !HasId(tenants, op.id) {
      ArrivalStaysInStep(db, tenants, TenantsAfter(tenants, op)[|tenants|]);
    }
  }

  lemma DeboardStaysInStep(db: Database, tenants: seq<Tenant>, op: Operation)
    requires InStep(db, tenants) && Faultless(db, op) && op.DeboardUser?
    ensures InStep(Apply(db, op).db, TenantsAfter(tenants, op))
  {
    var id := op.id;
    WithoutMapped(tenants, TO_CONSENT, id);
    WithoutMapped(tenants, TO_VIEW, id);
    WithoutKeepsUnique(tenants, id);
    WithoutDropsId(tenants, id);
    if id !in db.containers {
      assert !HasId(tenants, id);
      WithoutCutsOne(tenants, id);
    }
  }

  /** Without failures both collections, and the containers, are the onboarded-minus-deboarded users in
    * order of arrival, with the serial number, purposes and address of each one's own onboarding. */
  lemma {:induction false} FaultlessRunsStayInStep(db: Database, tenants: seq<Tenant>, ops: seq<Operation>)
    requires InStep(db, tenants) && FaultlessRun(db, ops)
    ensures InStep(Run(db, ops), Tenants(tenants, ops))
    decreases |ops|
  {
    if ops != [] {
      if ops[0].OnboardUser? {
        OnboardStaysInStep(db, tenants, ops[0]);
      } else {
        DeboardStaysInStep(db, tenants, ops[0]);
      }
      FaultlessRunsStayInStep(Apply(db, ops[0]).db, TenantsAfter(tenants, ops[0]), ops[1..]);
    }
  }

  // ---------------------------------------------------------------- queries

  /** `find_one` by serial number: the first document in the collection's order. */
  function FirstBySerial(consents: seq<Consent>, serial: int): Option<Consent> {
    if consents == [] then None
    else if consents[0].body.serialNumber == serial then Some(consents[0])
    else FirstBySerial(consents[1..], serial)
  }

  /** Consent `i` is the first in the collection's order with this serial number. */
  predicate FirstWithSerial(consents: seq<Consent>, serial: int, i: int) {
    && 0 <= i < |consents| && consents[i].body.serialNumber == serial
    && forall j :: 0 <= j < i ==> consents[j].body.serialNumber != serial
  }

  lemma {:induction false} FirstBySerialFinds(consents: seq<Consent>, serial: int)
    ensures var r := FirstBySerial(consents, serial);
            && (r.Some? ==> exists i :: FirstWithSerial(consents, serial, i) && consents[i] == r.value)
            && (r.Some? ==> r.value in consents && r.value.body.serialNumber == serial)
            && (r.None? <==> forall c :: c in consents ==> c.body.serialNumber != serial)
  {
    if consents != [] && consents[0].body.serialNumber == serial {
      assert FirstWithSerial(consents, serial, 0);
    } else if consents != [] {
      FirstBySerialFinds(consents[1..], serial);
      assert forall c :: c in consents <==> c == consents[0] || c in consents[1..];
      if i :| FirstWithSerial(consents[1..], serial, i) && FirstBySerial(consents, serial) == Some(consents[1..][i]) {
        assert forall j :: 1 <= j < i + 1 ==> consents[j] == consents[1..][j - 1];
        assert FirstWithSerial(consents, serial, i + 1);
      }
    }
  }

  lemma AsI32IsInjective(a: u32, b: u32)
    ensures AsI32(a) == AsI32(b) <==> a == b
  {
  }

  datatype Lookup = Found(consent: Consent) | StoreError | UnwrapPanic

  function ConsentBySerialNum(db: Database, serial: u32, readable: bool): Lookup {
    if !readable then StoreError
    else
      match FirstBySerial(db.consents, AsI32(serial))
      case Some(consent) => Found(consent)
      case None => UnwrapPanic
  }

  /** How one cursor entry of `view` reads back. */
  datatype Entry = Readable | Unreadable | Undecodable

  /** The addresses `get_tenant_ips` collects: unreadable entries are skipped, an undecodable one
    * fails the whole query. */
  function TenantIps(view: seq<View>, entries: seq<Entry>): Option<seq<string>>
    requires |view| == |entries|
  {
    if view == [] then Some([])
    else
      var n := |view| - 1;
      match TenantIps(view[..n], entries[..n])
      case None => None
      case Some(ips) =>
        match entries[n]
        case Readable => Some(ips + [view[n].body])
        case Unreadable => Some(ips)
        case Undecodable => None
  }

  function CountReadable(entries: seq<Entry>): nat {
    if entries == [] then 0
    else CountReadable(entries[..|entries| - 1]) + (if entries[|entries| - 1].Readable? then 1 else 0)
  }

  /** The address of entry `i` is reported, after those of the readable entries before it. */
  predicate ReportedAt(view: seq<View>, entries: seq<Entry>, ips: seq<string>, i: nat)
    requires |view| == |entries|
  {
    && i < |view| && CountReadable(entries[..i]) < |ips|
    && ips[CountReadable(entries[..i])] == view[i].body
  }

  lemma ReportedLater(view: seq<View>, entries: seq<Entry>, ips: seq<string>, more: seq<string>, n: nat, i: nat)
    requires n <= |view| == |entries| && i < n
    requires ReportedAt(view[..n], entries[..n], ips, i) && ips <= more
    ensures ReportedAt(view, entries, more, i)
  {
    assert entries[..n][..i] == entries[..i];
  }

  /** The query fails exactly if some entry does not decode. Otherwise the address of every readable entry,
    * and nothing else, is reported, in order. */
  lemma {:induction false} TenantIpsExactly(view: seq<View>, entries: seq<Entry>)
    requires |view| == |entries|
    ensures var ips := TenantIps(view, entries);
            && (ips.None? <==> Undecodable in entries)
            && (ips.Some? ==> |ips.value| == CountReadable(entries))
            && (ips.Some? ==> forall i :: 0 <= i < |view| && entries[i].Readable? ==>
                  ReportedAt(view, entries, ips.value, i))
  {
    if view != [] {
      var n := |view| - 1;
      TenantIpsExactly(view[..n], entries[..n]);
      assert entries == entries[..n] + [entries[n]];
      var ips := TenantIps(view, entries);
      if ips.Some? {
        var before := TenantIps(view[..n], entries[..n]).value;
        forall i | 0 <= i < n && entries[i].Readable?
          ensures ReportedAt(view, entries, ips.value, i)
        {
          assert entries[..n][i].Readable?;
          ReportedLater(view, entries, before, ips.value, n, i);
        }
      }
    }
  }

  lemma {:induction false} ReadableViewsAreAllReported(view: seq<View>, entries: seq<Entry>)
    requires |view| == |entries| && forall e :: e in entries ==> e.Readable?
    ensures var ips := TenantIps(view, entries);
            && ips.Some? && |ips.value| == |view|
            && forall i :: 0 <= i < |view| ==> ips.value[i] == view[i].body
  {
    if view != [] {
      var n := |view| - 1;
      ReadableViewsAreAllReported(view[..n], entries[..n]);
      assert entries[n] in entries;
    }
  }

  /** After a run without failures from an empty store, the address list has exactly one address for
    * each onboarded and not deboarded user, in order of arrival: the one that user's container got. */
  lemma TenantIpsMatchTheTenants(ops: seq<Operation>, entries: seq<Entry>)
    requires FaultlessRun(EMPTY, ops)
    requires |entries| == |Run(EMPTY, ops).view| && forall e :: e in entries ==> e.Readable?
    ensures var tenants := Tenants([], ops);
            var ips := TenantIps(Run(EMPTY, ops).view, entries);
            && ips.Some? && |ips.value| == |tenants|
            && forall i :: 0 <= i < |tenants| ==> ips.value[i] == tenants[i].body.ip
  {
    FaultlessRunsStayInStep(EMPTY, [], ops);
    ReadableViewsAreAllReported(Run(EMPTY, ops).view, entries);
  }

  lemma {:induction false} UndecodablePrefixFails(view: seq<View>, entries: seq<Entry>, n: nat)
    requires |view| == |entries| && n <= |view|
    requires TenantIps(view[..n], entries[..n]).None?
    ensures TenantIps(view, entries).None?
    decreases |view|
  {
    if n < |view| {
      var m := |view| - 1;
      assert view[..m][..n] == view[..n] && entries[..m][..n] == entries[..n];
      UndecodablePrefixFails(view[..m], entries[..m], n);
    } else {
      assert view[..n] == view && entries[..n] == entries;
    }
  }

  predicate FirstWithId(docs: seq<View>, id: string, i: int) {
    && 0 <= i < |docs| && docs[i].id == id
    && forall j :: 0 <= j < i ==> docs[j].id != id
  }

  // ---------------------------------------------------------------- the engine

  class Engine {
    var containers: set<string>
    var consents: seq<Consent>
    var view: seq<View>
    var views: seq<View>

    function State(): Database
      reads this
    {
      Database(containers, consents, view, views)
    }

    constructor ()
      ensures State() == EMPTY
    {
      containers, consents, view, views := {}, [], [], [];
    }

    method AddConsent(consent: Consent, fate: Fate) returns (ok: bool)
      modifies this`consents
      ensures Reply(State(), ok) == StoreConsent(old(State()), consent, fate)
      ensures old(consents) <= consents && (ok ==> HasId(consents, consent.id))
    {
      consents := InsertOne(consents, consent, fate);
      assert old(consents) != consents ==> consents[|consents| - 1] == consent;
      return fate.Done?;
    }

    method RegisterView(v: View, fate: Fate) returns (ok: bool)
      modifies this`view
      ensures Reply(State(), ok) == StoreView(old(State()), v, fate)
      ensures old(view) <= view && (ok ==> HasId(view, v.id))
    {
      view := InsertOne(view, v, fate);
      assert old(view) != view ==> view[|view| - 1] == v;
      return fate.Done?;
    }

    method RemoveUser(id: string, world: DeboardWorld) returns (ok: bool)
      modifies this`consents, this`view
      ensures Reply(State(), ok) == DropUser(old(State()), id, world)
    {
      consents := DeleteOne(consents, id, world.consentFate);
      if !world.consentFate.Done? {
        return false;
      }
      view := DeleteOne(view, id, world.viewFate);
      return world.viewFate.Done?;
    }

    method DeboardUser(id: string, world: DeboardWorld) returns (ok: bool)
      modifies this
      ensures Reply(State(), ok) == Deboard(old(State()), id, world)
    {
      if world.containerFate.Lost? || id !in containers {
        return false;
      }
      containers := containers - {id};
      if !world.containerFate.Done? {
        return false;
      }
      ok := RemoveUser(id, world);
    }

    /** Scans `views` for the user, as the duplicate check of onboarding does. */
    method ConsentBasedView(id: string, readable: bool) returns (ip: Option<string>)
      ensures ip.Some? <==> readable && HasId(views, id)
      ensures ip.Some? ==> exists i :: FirstWithId(views, id, i) && views[i].body == ip.value
    {
      if !readable {
        return None;
      }
      for i := 0 to |views|
        invariant forall d :: d in views[..i] ==> d.id != id
      {
        if views[i].id == id {
          assert forall j :: 0 <= j < i ==> views[j] in views[..i];
          assert FirstWithId(views, id, i);
          return Some(views[i].body);
        }
        assert views[..i + 1] == views[..i] + [views[i]];
      }
      assert views[..|views|] == views;
      return None;
    }

    method OnboardUser(id: string, purposes: seq<string>, world: OnboardWorld) returns (ok: bool)
      modifies this
      ensures Reply(State(), ok) == Onboard(old(State()), id, purposes, world)
    {
      if world.listed != Some(false) {
        return false;
      }
      var existing := ConsentBasedView(id, world.viewsReadable);
      if existing.Some? {
        return false;
      }
      if world.serial.None? || !world.mounted {
        return false;
      }
      if world.launch.NotCreated? || id in containers {
        return false;
      }
      containers := containers + {id};
      if !world.launch.Started? {
        return false;
      }
      ok := RegisterView(Doc(id, world.launch.ip), world.viewFate);
      if !ok {
        return;
      }
      ok := AddConsent(Doc(id, ConsentBody(AsI32(world.serial.value), purposes)), world.consentFate);
    }

    method GetTenantIps(entries: seq<Entry>) returns (r: Option<seq<string>>)
      requires |entries| == |view|
      ensures r == TenantIps(view, entries)
    {
      var ips := [];
      for i := 0 to |view|
        invariant TenantIps(view[..i], entries[..i]) == Some(ips)
      {
        assert view[..i + 1][..i] == view[..i] && entries[..i + 1][..i] == entries[..i];
        match entries[i] {
          case Readable => ips := ips + [view[i].body];
          case Unreadable =>
          case Undecodable =>
            UndecodablePrefixFails(view, entries, i + 1);
            return None;
        }
      }
      assert view[..|view|] == view && entries[..|view|] == entries;
      return Some(ips);
    }
  }
}
