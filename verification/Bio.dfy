/** The BIO that carries a Rust stream (`ssl/bio.rs`) and the error reporting built on it
  * (`ssl/mod.rs`). Stream errors and panics cannot cross the C frames in between, so the callbacks
  * leave them in two slots and signal by flags; whoever called into OpenSSL collects them. */
module Bio {
  import opened Casts
  import opened Wrappers

  /** A flag word, as the set of the positions of its one bits: `|` is union, `& !` is difference. */
  type Flags = set<nat>

  const BIO_FLAGS_READ: Flags := {0}        // 0x01
  const BIO_FLAGS_WRITE: Flags := {1}       // 0x02
  const BIO_FLAGS_IO_SPECIAL: Flags := {2}  // 0x04
  const BIO_FLAGS_RWS: Flags := BIO_FLAGS_READ + BIO_FLAGS_WRITE + BIO_FLAGS_IO_SPECIAL
  const BIO_FLAGS_SHOULD_RETRY: Flags := {3}  // 0x08

  const BIO_CTRL_FLUSH: int := 11

  datatype ErrorKind = WouldBlock | NotConnected | OtherKind(code: nat)

  datatype IoError = IoError(kind: ErrorKind, tag: nat)

  type Panic = nat

  /** What a call on the stream does. */
  datatype Outcome = Moved(n: nat) | Failed(err: IoError) | Panicked(p: Panic)

  datatype Direction = Reading | Writing {
    function Flag(): Flags {
      if Reading? then BIO_FLAGS_READ else BIO_FLAGS_WRITE
    }
  }

  predicate Retriable(err: IoError) {
    err.kind.WouldBlock? || err.kind.NotConnected?
  }

  datatype State = State(flags: Flags, error: Option<IoError>, panic: Option<Panic>)

  function ClearRetryFlags(flags: Flags): Flags {
    flags - (BIO_FLAGS_RWS + BIO_FLAGS_SHOULD_RETRY)
  }

  function SetRetry(flags: Flags, dir: Direction): Flags {
    flags + dir.Flag() + BIO_FLAGS_SHOULD_RETRY
  }

  function Capture(s: State, outcome: Outcome): State {
    match outcome
    case Moved(_) => s
    case Failed(err) => s.(error := Some(err))
    case Panicked(p) => s.(panic := Some(p))
  }

  /** What a read or write does to the flags. */
  function FlagsAfter(flags: Flags, dir: Direction, outcome: Outcome): Flags {
    if outcome.Failed? && Retriable(outcome.err) then SetRetry(ClearRetryFlags(flags), dir) else ClearRetryFlags(flags)
  }

  /** `bread` and `bwrite`. */
  function Transfer(s: State, dir: Direction, outcome: Outcome): State {
    Capture(s.(flags := FlagsAfter(s.flags, dir, outcome)), outcome)
  }

  // ---------------------------------------------------------------- reporting

  datatype SslCode = Ssl | Syscall(stackEmpty: bool) | ZeroReturn | WantWrite | WantRead | OtherCode

  /** `Raised` does not return to the caller: the panic goes on. `stream: None` is the error made up
    * where the slot was expected to hold one. */
  datatype Report =
    | Raised(p: Panic)
    | SslError
    | Stream(stream: Option<IoError>)
    | Ended
    | Want(dir: Direction, stream: Option<IoError>)
    | Unexpected

  /** Does this code make `make_error` take the error slot? */
  predicate Collects(code: SslCode) {
    code == Syscall(true) || code.WantWrite? || code.WantRead?
  }

  function MakeError(s: State, code: SslCode): (State, Report) {
    if s.panic.Some? then (s.(panic := None), Raised(s.panic.value))
    else
      var after := if Collects(code) then s.(error := None) else s;
      match code
      case Ssl => (after, SslError)
      case Syscall(stackEmpty) => (after, if stackEmpty then Stream(s.error) else SslError)
      case ZeroReturn => (after, Ended)
      case WantWrite => (after, Want(Writing, s.error))
      case WantRead => (after, Want(Reading, s.error))
      case OtherCode => (after, Unexpected)
  }

  // ---------------------------------------------------------------- runs

  datatype Event = Move(dir: Direction, outcome: Outcome) | Flush(outcome: Outcome) | Fail(code: SslCode)

  const FRESH: State := State({}, None, None)

  function Step(s: State, e: Event): State {
    match e
    case Move(dir, outcome) => Transfer(s, dir, outcome)
    case Flush(outcome) => Capture(s, outcome)
    case Fail(code) => MakeError(s, code).0
  }

  function Run(s: State, events: seq<Event>): State {
    if events == [] then s else Step(Run(s, events[..|events| - 1]), events[|events| - 1])
  }

  /** The last read or write. */
  function LastMove(events: seq<Event>): Option<Event> {
    if events == [] then None
    else if events[|events| - 1].Move? then Some(events[|events| - 1])
    else LastMove(events[..|events| - 1])
  }

  predicate HitRetriable(e: Event) {
    e.Move? && e.outcome.Failed? && (e.outcome.err.kind.WouldBlock? || e.outcome.err.kind.NotConnected?)
  }

  const LOW: Flags := {0, 1, 2, 3}  // 0x0F

  /** The low bits a read or write leaves. */
  function Signal(e: Event): Flags
    requires e.Move?
  {
    if HitRetriable(e) then (if e.dir.Reading? then {0, 3} else {1, 3}) else {}
  }

  /** After any run the low four bits tell about the last read or write and nothing else: the retry bit
    * with the bit of its direction if it hit a retriable error, no bit otherwise. The other bits are
    * never touched. */
  lemma {:induction false} FlagsTellTheLastMove(s: State, events: seq<Event>)
    ensures LastMove(events).Some? ==> LastMove(events).value.Move?
    ensures Run(s, events).flags - LOW == s.flags - LOW
    ensures Run(s, events).flags * LOW
            == match LastMove(events)
               case None => s.flags * LOW
               case Some(e) => Signal(e)
  {
    if events != [] {
      FlagsTellTheLastMove(s, events[..|events| - 1]);
    }
  }

  /** From a fresh BIO: the retry bit is set exactly when the last read or write hit a retriable error. */
  lemma RetryBitIsExact(events: seq<Event>)
    ensures 3 in Run(FRESH, events).flags
            <==> LastMove(events).Some? && HitRetriable(LastMove(events).value)
  {
    FlagsTellTheLastMove(FRESH, events);
    assert 3 in Run(FRESH, events).flags <==> 3 in Run(FRESH, events).flags * LOW;
  }

  // ---------------------------------------------------------------- the two slots

  /** The error this event leaves in the slot, if any. */
  function Left(e: Event): Option<IoError> {
    if !e.Fail? && e.outcome.Failed? then Some(e.outcome.err) else None
  }

  function LeftPanic(e: Event): Option<Panic> {
    if !e.Fail? && e.outcome.Panicked? then Some(e.outcome.p) else None
  }

  /** Event `k` empties the error slot: a report that collects, with no panic to raise first. */
  predicate EmptiesError(s: State, events: seq<Event>, k: nat)
    requires k < |events|
  {
    events[k].Fail? && Collects(events[k].code) && Run(s, events[..k]).panic.None?
  }

  /** Event `j` left `err`, and no later event left another or emptied the slot. */
  predicate Standing(s: State, events: seq<Event>, j: nat, err: IoError) {
    && j < |events| && Left(events[j]) == Some(err)
    && forall k :: j < k < |events| ==> Left(events[k]).None? && !EmptiesError(s, events, k)
  }

  predicate LatestCapture(s: State, events: seq<Event>, err: IoError) {
    exists j :: 0 <= j < |events| && Standing(s, events, j, err)
  }

  predicate EmptiedAfter(s: State, events: seq<Event>, j: nat) {
    exists k :: j < k < |events| && EmptiesError(s, events, k)
  }

  /** Adding an event does not change what earlier events did. */
  lemma EarlierEvents(s: State, events: seq<Event>, last: Event)
    ensures forall k :: 0 <= k < |events| ==> EmptiesError(s, events + [last], k) == EmptiesError(s, events, k)
    ensures EmptiesError(s, events + [last], |events|)
            <==> last.Fail? && Collects(last.code) && Run(s, events).panic.None?
    ensures Run(s, events + [last]) == Step(Run(s, events), last)
  {
    assert forall k :: 0 <= k <= |events| ==> (events + [last])[..k] == events[..k];
    assert (events + [last])[..|events|] == events;
    assert events[..|events|] == events;
  }

  /** The error slot holds exactly the latest error captured since it was last emptied. */
  lemma {:induction false} ErrorSlotMeaning(s: State, events: seq<Event>)
    requires s.error.None?
    ensures Run(s, events).error.Some? ==> LatestCapture(s, events, Run(s, events).error.value)
    ensures Run(s, events).error.None? ==>
              forall j :: 0 <= j < |events| && Left(events[j]).Some? ==> EmptiedAfter(s, events, j)
  {
    if events != [] {
      var n := |events| - 1;
      var init, last := events[..n], events[n];
      assert events == init + [last];
      ErrorSlotMeaning(s, init);
      EarlierEvents(s, init, last);
      var slot := Run(s, events).error;
      if Left(last).Some? {
        assert Standing(s, events, n, slot.value);
      } else if slot.Some? {
        assert slot == Run(s, init).error;
        var j :| 0 <= j < n && Standing(s, init, j, slot.value);
        assert Standing(s, events, j, slot.value);
      } else {
        forall j | 0 <= j < |events| && Left(events[j]).Some?
          ensures EmptiedAfter(s, events, j)
        {
          if EmptiesError(s, events, n) {
            assert j < n;
          } else {
            assert init[j] == events[j];
            var k :| j < k < n && EmptiesError(s, init, k);
            assert EmptiesError(s, events, k);
          }
        }
      }
    }
  }

  /** `found` is the latest error captured since the slot was last emptied, and `None` if there is none. */
  predicate IsStanding(s: State, events: seq<Event>, found: Option<IoError>) {
    match found
    case Some(err) => LatestCapture(s, events, err)
    case None => forall j :: 0 <= j < |events| && Left(events[j]).Some? ==> EmptiedAfter(s, events, j)
  }

  /** What a report with no panic before it says and does. A system call error with an empty error stack, and
    * the two retry codes, each in its own direction, hand out exactly the standing error and empty the slot;
    * any other code says what it says of itself and leaves the slot alone. */
  lemma ReportsHandOutTheStandingError(s: State, events: seq<Event>, code: SslCode)
    requires s.error.None? && Run(s, events).panic.None?
    ensures var slot := Run(s, events).error;
            var (after, report) := MakeError(Run(s, events), code);
            && IsStanding(s, events, slot)
            && after.panic.None? && after.flags == Run(s, events).flags
            && (code == Syscall(true) ==> report == Stream(slot) && after.error.None?)
            && (code == WantWrite ==> report == Want(Writing, slot) && after.error.None?)
            && (code == WantRead ==> report == Want(Reading, slot) && after.error.None?)
            && (code == Ssl || code == Syscall(false) ==> report == SslError && after.error == slot)
            && (code == ZeroReturn ==> report == Ended && after.error == slot)
            && (code == OtherCode ==> report == Unexpected && after.error == slot)
  {
    ErrorSlotMeaning(s, events);
  }

  /** Two reports never hand out the same captured error: what the later one hands out was captured
    * after the earlier one. */
  lemma ErrorsAreHandedOutOnce(s: State, events: seq<Event>, k1: nat, k2: nat) returns (j: nat)
    requires s.error.None?
    requires k1 < k2 < |events|
    requires EmptiesError(s, events, k1) && EmptiesError(s, events, k2)
    requires Run(s, events[..k2]).error.Some?
    ensures k1 < j < k2 && Left(events[j]) == Run(s, events[..k2]).error
  {
    var before := events[..k2];
    ErrorSlotMeaning(s, before);
    j :| 0 <= j < k2 && Standing(s, before, j, Run(s, before).error.value);
    assert before[..k1] == events[..k1];
    assert EmptiesError(s, before, k1);
  }

  /** A captured panic is raised by the next report, whatever its code; until then, no error is
    * reported. */
  lemma PanicsAreRaisedFirst(s: State, events: seq<Event>, j: nat, code: SslCode)
    requires j < |events| && LeftPanic(events[j]).Some?
    requires forall k :: j < k < |events| ==> !events[k].Fail?
    ensures MakeError(Run(s, events), code).1.Raised?
    ensures (forall k :: j < k < |events| ==> LeftPanic(events[k]).None?)
            ==> MakeError(Run(s, events), code).1 == Raised(LeftPanic(events[j]).value)
    ensures Run(s, events).error == MakeError(Run(s, events), code).0.error
  {
    PanicStays(s, events, j);
  }

  lemma {:induction false} PanicStays(s: State, events: seq<Event>, j: nat)
    requires j < |events| && LeftPanic(events[j]).Some?
    requires forall k :: j < k < |events| ==> !events[k].Fail?
    ensures Run(s, events).panic.Some?
    ensures (forall k :: j < k < |events| ==> LeftPanic(events[k]).None?)
            ==> Run(s, events).panic == LeftPanic(events[j])
    decreases |events|
  {
    var n := |events| - 1;
    if j < n {
      PanicStays(s, events[..n], j);
    }
  }

  /** The error text that calls itself a bug: OpenSSL wants a retry, but there is no error to report.
    * It cannot appear at the first report after a read or write that asked for a retry. */
  lemma RetryComesWithItsError(events: seq<Event>)
    requires 3 in Run(FRESH, events).flags
    requires events != [] && exists m :: 0 <= m < |events| && events[m].Move?
                               && forall k :: m < k < |events| ==> events[k].Flush?
    ensures Run(FRESH, events).error.Some?
    ensures !MakeError(Run(FRESH, events), WantRead).1.Raised?
            ==> MakeError(Run(FRESH, events), WantRead).1 == Want(Reading, Run(FRESH, events).error)
  {
    RetryBitIsExact(events);
    var m :| 0 <= m < |events| && events[m].Move? && forall k :: m < k < |events| ==> events[k].Flush?;
    LastMoveIs(events, m);
    ErrorSlotMeaning(FRESH, events);
  }

  lemma {:induction false} LastMoveIs(events: seq<Event>, m: nat)
    requires m < |events| && events[m].Move?
    requires forall k :: m < k < |events| ==> !events[k].Move?
    ensures LastMove(events) == Some(events[m])
  {
    if m < |events| - 1 {
      LastMoveIs(events[..|events| - 1], m);
    }
  }

  // ---------------------------------------------------------------- the callbacks

  class BioObject {
    var flags: Flags
    var error: Option<IoError>
    var panic: Option<Panic>

    function Value(): State
      reads this
    {
      State(flags, error, panic)
    }

    constructor ()
      ensures Value() == FRESH
    {
      flags, error, panic := {}, None, None;
    }

    /** The body `bread` and `bwrite` share up to the direction. */
    method Callback(dir: Direction, outcome: Outcome) returns (r: int)
      modifies this
      ensures Value() == Transfer(old(Value()), dir, outcome)
      ensures r == if outcome.Moved? then AsCInt(outcome.n) else -1
      ensures outcome.Moved? && outcome.n <= C_INT_MAX ==> r == outcome.n
    {
      flags := ClearRetryFlags(flags);
      match outcome {
        case Moved(n) => return AsCInt(n);
        case Failed(err) =>
          if Retriable(err) {
            flags := SetRetry(flags, dir);
          }
          error := Some(err);
          return -1;
        case Panicked(p) =>
          panic := Some(p);
          return -1;
      }
    }

    method Ctrl(cmd: int, outcome: Outcome) returns (r: int)
      modifies this
      ensures Value() == if cmd == 11 then Capture(old(Value()), outcome) else old(Value())
      ensures r == if cmd == 11 && outcome.Moved? then 1 else 0
    {
      if cmd != BIO_CTRL_FLUSH {
        return 0;
      }
      match outcome {
        case Moved(_) => return 1;
        case Failed(err) => error := Some(err);
        case Panicked(p) => panic := Some(p);
      }
      return 0;
    }

    method TakeError() returns (e: Option<IoError>)
      modifies this`error
      ensures e == old(error) && error == None
    {
      e := error;
      error := None;
    }

    method TakePanic() returns (p: Option<Panic>)
      modifies this`panic
      ensures p == old(panic) && panic == None
    {
      p := panic;
      panic := None;
    }

    method Report(code: SslCode) returns (report: Report)
      modifies this`error, this`panic
      ensures (Value(), report) == MakeError(old(Value()), code)
    {
      var p := TakePanic();
      if p.Some? {
        return Raised(p.value);
      }
      match code {
        case Ssl => return SslError;
        case Syscall(stackEmpty) =>
          if stackEmpty {
            var e := TakeError();
            return Stream(e);
          }
          return SslError;
        case ZeroReturn => return Ended;
        case WantWrite =>
          var e := TakeError();
          return Want(Writing, e);
        case WantRead =>
          var e := TakeError();
          return Want(Reading, e);
        case OtherCode => return Unexpected;
      }
    }
  }
}
