/** The `/lease/` endpoint (`endpoints.rs`): two query parameters in, a decision out.
  *
  * The proxy prints its serial number in decimal (`main.go`) and the endpoint parses it as a
  * `u32`, so the two ends are modelled together. */
module LeaseEndpoint {
  import opened Casts
  import opened ConsentEngine
  import opened Wrappers

  // ---------------------------------------------------------------- decimal numbers

  function Digit(d: nat): char
    requires d < 10
  {
    '0' + d as char
  }

  /** Go's `%d` of an unsigned integer. */
  function Format(n: nat): string {
    if n < 10 then [Digit(n)] else Format(n / 10) + [Digit(n % 10)]
  }

  predicate IsDigit(c: char) {
    '0' <= c <= '9'
  }

  function Push(acc: nat, c: char): Option<u32> {
    if !IsDigit(c) then None
    else
      var v := 10 * acc + (c as int - '0' as int);
      if v < 0x1_0000_0000 then Some(v) else None
  }

  /** The digit loop of Rust's `u32::from_str`: any overflow on the way is an error. */
  function ParseDigits(s: string, acc: u32): Option<u32> {
    if s == [] then Some(acc)
    else
      match Push(acc, s[0])
      case None => None
      case Some(v) => ParseDigits(s[1..], v)
  }

  function ParseU32(s: string): Option<u32> {
    var digits := if s != [] && s[0] == '+' then s[1..] else s;
    if digits == [] then None else ParseDigits(digits, 0)
  }

  lemma {:induction false} ParseDigitsLast(s: string, c: char, acc: u32)
    ensures ParseDigits(s + [c], acc)
            == match ParseDigits(s, acc) case None => None case Some(v) => Push(v, c)
  {
    if s == [] {
      assert (s + [c])[1..] == [];
    } else {
      assert (s + [c])[1..] == s[1..] + [c];
      match Push(acc, s[0]) {
        case None =>
        case Some(v) => ParseDigitsLast(s[1..], c, v);
      }
    }
  }

  lemma {:induction false} FormattedDigits(n: nat)
    ensures Format(n) != [] && IsDigit(Format(n)[0])
    ensures ParseDigits(Format(n), 0) == if n < 0x1_0000_0000 then Some(n) else None
  {
    if n < 10 {
      assert [Digit(n)][1..] == [];
    } else {
      FormattedDigits(n / 10);
      ParseDigitsLast(Format(n / 10), Digit(n % 10), 0);
    }
  }

  /** What the proxy sends is understood as the same number exactly when it fits 32 bits. */
  lemma SerialsSurviveTheQueryString(n: nat)
    ensures ParseU32(Format(n)) == if n < 0x1_0000_0000 then Some(n) else None
  {
    FormattedDigits(n);
  }

  /** The number a string of decimal digits denotes. */
  function Value(s: string): int {
    if s == [] then 0 else 10 * Value(s[..|s| - 1]) + (s[|s| - 1] as int - '0' as int)
  }

  predicate AllDigits(s: string) {
    forall i :: 0 <= i < |s| ==> '0' <= s[i] <= '9'
  }

  lemma {:induction false} ParseDigitsMeaning(s: string)
    ensures AllDigits(s) ==> Value(s) >= 0
    ensures ParseDigits(s, 0) == if AllDigits(s) && Value(s) < 0x1_0000_0000 then Some(Value(s)) else None
  {
    if s != [] {
      var init, last := s[..|s| - 1], s[|s| - 1];
      assert s == init + [last];
      ParseDigitsMeaning(init);
      ParseDigitsLast(init, last, 0);
      assert AllDigits(s) <==> AllDigits(init) && '0' <= last <= '9';
    }
  }

  /** Exactly the strings of at least one decimal digit, after at most one plus sign, that denote a number
    * below 2^32 are understood, as that number. */
  lemma ParsesExactly(s: string, n: u32)
    ensures ParseU32(s) == Some(n)
            <==> exists digits :: (s == digits || s == "+" + digits)
                                  && digits != [] && AllDigits(digits) && Value(digits) == n
  {
    var rest := if s != [] && s[0] == '+' then s[1..] else s;
    ParseDigitsMeaning(rest);
    assert s == rest || s == "+" + rest;
    forall digits | (s == digits || s == "+" + digits) && digits != [] && AllDigits(digits)
      ensures digits == rest
    {
    }
  }

  /** What is printed are the digits of the number, without leading zeros. */
  lemma {:induction false} FormatMeaning(n: nat)
    ensures AllDigits(Format(n)) && Value(Format(n)) == n
    ensures Format(n) != [] && (n > 0 ==> Format(n)[0] != '0')
  {
    if n >= 10 {
      FormatMeaning(n / 10);
      assert Format(n)[..|Format(n)| - 1] == Format(n / 10);
    }
  }

  // ---------------------------------------------------------------- the handler

  datatype Status = Ok | Forbidden | BadRequest

  /** `Crash` is the `unwrap` on a missing consent; the handler holds the engine's lock then. */
  datatype Response = Answer(status: Status) | Crash

  function Handle(db: Database, user: Option<string>, intent: Option<string>, readable: bool): Response {
    if user.None? || intent.None? then Answer(BadRequest)
    else
      match ParseU32(user.value)
      case None => Answer(BadRequest)
      case Some(serial) =>
        match ConsentBySerialNum(db, serial, readable)
        case StoreError => Answer(BadRequest)
        case UnwrapPanic => Crash
        case Found(consent) => if intent.value in consent.body.purpose then Answer(Ok) else Answer(Forbidden)
  }

  /** The store holds a consent with this serial number for this purpose. */
  predicate ConsentHeld(db: Database, serial: nat, intent: string) {
    && serial < 0x1_0000_0000
    && exists c :: c in db.consents && c.body.serialNumber == AsI32(serial) && intent in c.body.purpose
  }

  predicate SerialInUse(db: Database, serial: nat) {
    && serial < 0x1_0000_0000
    && exists c :: c in db.consents && c.body.serialNumber == AsI32(serial)
  }

  predicate UniqueSerials(db: Database) {
    forall c, d :: c in db.consents && d in db.consents && c.body.serialNumber == d.body.serialNumber ==> c == d
  }

  /** A positive answer is backed by a consent in the store; with distinct serial numbers and a
    * readable store that is also enough. */
  lemma OkMeansConsent(db: Database, serial: nat, intent: string, readable: bool)
    ensures var r := Handle(db, Some(Format(serial)), Some(intent), readable);
            && (r == Answer(Ok) ==> ConsentHeld(db, serial, intent))
            && (UniqueSerials(db) && readable ==> (r == Answer(Ok) <==> ConsentHeld(db, serial, intent)))
  {
    SerialsSurviveTheQueryString(serial);
    if serial < 0x1_0000_0000 {
      FirstBySerialFinds(db.consents, AsI32(serial));
    }
  }

  /** The handler crashes exactly when it asks a readable store for a serial number nobody has. */
  lemma CrashMeansNoSuchSerial(db: Database, user: Option<string>, intent: Option<string>, readable: bool)
    ensures Handle(db, user, intent, readable).Crash?
            <==> && user.Some? && intent.Some? && readable
                 && ParseU32(user.value).Some?
                 && !SerialInUse(db, ParseU32(user.value).value)
  {
    if user.Some? && ParseU32(user.value).Some? {
      FirstBySerialFinds(db.consents, AsI32(ParseU32(user.value).value));
    }
  }

  /** When each status is answered. The consent that decides is the first in the collection's order with the
    * parsed serial number. */
  lemma HandlerAnswers(db: Database, user: Option<string>, intent: Option<string>, readable: bool)
    ensures var r := Handle(db, user, intent, readable);
            && (r == Answer(BadRequest) <==> user.None? || intent.None? || ParseU32(user.value).None? || !readable)
            && (user.Some? && intent.Some? && ParseU32(user.value).Some? && readable ==>
                  var serial := AsI32(ParseU32(user.value).value);
                  && (r == Crash <==> forall c :: c in db.consents ==> c.body.serialNumber != serial)
                  && (r != Crash ==> exists i ::
                        && FirstWithSerial(db.consents, serial, i)
                        && (r == Answer(Ok) <==> intent.value in db.consents[i].body.purpose)
                        && (r == Answer(Forbidden) <==> intent.value !in db.consents[i].body.purpose)))
  {
    if user.Some? && ParseU32(user.value).Some? {
      FirstBySerialFinds(db.consents, AsI32(ParseU32(user.value).value));
    }
  }
}
