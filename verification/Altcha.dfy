/** The proof-of-work check: creating, solving and verifying a challenge over an abstract hash. */
module Altcha {
  import opened Wrappers
  import Decimals
  import ReplayGuard

  /** The hash, the keyed hash, the decimal text of a number and the expiry a salt carries. */
  datatype Crypto = Crypto(
    hash: string -> string,
    mac: (string, string) -> string,
    decimal: nat -> string,
    expiresOf: string -> Option<int>)

  datatype Challenge = Challenge(challenge: string, salt: string, signature: string, maxNumber: nat)

  datatype Solution = Solution(challenge: string, number: nat, salt: string, signature: string)

  datatype AltchaError = Malformed | Expired | WrongHash | WrongSignature | AlreadyUsed

  function CreateChallenge(c: Crypto, secret: string, salt: string, number: nat, maxNumber: nat): Challenge {
    var challenge := c.hash(salt + c.decimal(number));
    Challenge(challenge, salt, c.mac(secret, challenge), maxNumber)
  }

  predicate Solves(c: Crypto, challenge: Challenge, number: nat) {
    c.hash(challenge.salt + c.decimal(number)) == challenge.challenge
  }

  /** Search the numbers in order; the result is the least one that solves the challenge. */
  method SolveChallenge(c: Crypto, challenge: Challenge) returns (r: Option<Solution>)
    ensures r.Some? ==>
              && r.value == Solution(challenge.challenge, r.value.number, challenge.salt, challenge.signature)
              && r.value.number <= challenge.maxNumber && Solves(c, challenge, r.value.number)
              && forall n: nat :: n < r.value.number ==> !Solves(c, challenge, n)
    ensures r.None? ==> forall n: nat :: n <= challenge.maxNumber ==> !Solves(c, challenge, n)
  {
    for number := 0 to challenge.maxNumber + 1
      invariant forall n: nat :: n < number ==> !Solves(c, challenge, n)
    {
      if c.hash(challenge.salt + c.decimal(number)) == challenge.challenge {
        return Some(Solution(challenge.challenge, number, challenge.salt, challenge.signature));
      }
    }
    return None;
  }

  /** The replay key of a valid solution; `payload` is None when it does not parse. */
  function VerifySolution(c: Crypto, payload: Option<Solution>, secret: string, now: int): Result<string, AltchaError> {
    match payload
    case None => Err(Malformed)
    case Some(s) =>
      var expires := c.expiresOf(s.salt);
      if expires.Some? && now > expires.value then Err(Expired)
      else if c.hash(s.salt + c.decimal(s.number)) != s.challenge then Err(WrongHash)
      else if c.mac(secret, s.challenge) != s.signature then Err(WrongSignature)
      else Ok(s.signature)
  }

  /** Each error names its reason: a payload that does not parse, then the expiry, the hash and the signature. */
  lemma ErrorsNamed(c: Crypto, s: Solution, secret: string, now: int)
    ensures VerifySolution(c, None, secret, now) == Err(Malformed)
    ensures var r := VerifySolution(c, Some(s), secret, now);
            var solves, signed := c.hash(s.salt + c.decimal(s.number)) == s.challenge, c.mac(secret, s.challenge) == s.signature;
            && (r == Err(Expired) <==> Lapsed(c, s.salt, now))
            && (r == Err(WrongHash) <==> !Lapsed(c, s.salt, now) && !solves)
            && (r == Err(WrongSignature) <==> !Lapsed(c, s.salt, now) && solves && !signed)
            && r != Err(Malformed)
  {
  }

  // -- which payloads a challenge accepts --------------------------------------------------------------

  predicate Lapsed(c: Crypto, salt: string, now: int) {
    c.expiresOf(salt).Some? && now > c.expiresOf(salt).value
  }

  /** The hash and the signature tell texts apart. */
  ghost predicate Injective(c: Crypto, secret: string) {
    && (forall a, b :: c.hash(a) == c.hash(b) ==> a == b)
    && (forall a, b :: c.mac(secret, a) == c.mac(secret, b) ==> a == b)
  }

  /** The part `moved` changed sides between a salt and the number behind it. */
  predicate Moves(c: Crypto, salt: string, number: nat, otherSalt: string, otherNumber: nat, moved: string) {
    || (otherSalt == salt + moved && c.decimal(number) == moved + c.decimal(otherNumber))
    || (salt == otherSalt + moved && c.decimal(otherNumber) == moved + c.decimal(number))
  }

  /** The payload differs from the server's salt and number by such a move; the empty one is none. */
  ghost predicate Splices(c: Crypto, salt: string, number: nat, s: Solution) {
    exists moved :: Moves(c, salt, number, s.salt, s.number, moved)
  }

  /** Two texts behind each other spell the same exactly when a part changed sides. */
  lemma SameTextMeansMove(c: Crypto, salt: string, number: nat, s: Solution)
    ensures s.salt + c.decimal(s.number) == salt + c.decimal(number) <==> Splices(c, salt, number, s)
  {
    var a, b := salt + c.decimal(number), s.salt + c.decimal(s.number);
    if a == b {
      if |salt| <= |s.salt| {
        var moved := s.salt[|salt|..];
        assert salt == a[..|salt|] && s.salt == b[..|s.salt|];
        assert s.salt == salt + moved;
        assert c.decimal(number) == a[|salt|..] && moved + c.decimal(s.number) == b[|salt|..];
        assert Moves(c, salt, number, s.salt, s.number, moved);
      } else {
        var moved := salt[|s.salt|..];
        assert salt == a[..|salt|] && s.salt == b[..|s.salt|];
        assert salt == s.salt + moved;
        assert c.decimal(s.number) == b[|s.salt|..] && moved + c.decimal(number) == a[|s.salt|..];
        assert Moves(c, salt, number, s.salt, s.number, moved);
      }
    }
    if moved :| Moves(c, salt, number, s.salt, s.number, moved) {
      if s.salt == salt + moved && c.decimal(number) == moved + c.decimal(s.number) {
        assert salt + (moved + c.decimal(s.number)) == salt + moved + c.decimal(s.number);
      } else {
        assert s.salt + (moved + c.decimal(number)) == s.salt + moved + c.decimal(number);
      }
    }
  }

  /**
   Every payload with the signature of a created challenge, whatever else it holds: it is accepted
   exactly when it names that challenge, its salt and number spell the server's text, and the expiry
   in its own salt has not passed. All of them share one replay key.
   */
  lemma SignedPayloadsVerifyExactly(c: Crypto, secret: string, salt: string, number: nat, maxNumber: nat, s: Solution, now: int)
    requires Injective(c, secret)
    requires s.signature == CreateChallenge(c, secret, salt, number, maxNumber).signature
    ensures var challenge := CreateChallenge(c, secret, salt, number, maxNumber);
            && (VerifySolution(c, Some(s), secret, now).Ok? <==>
                  s.challenge == challenge.challenge && Splices(c, salt, number, s) && !Lapsed(c, s.salt, now))
            && (VerifySolution(c, Some(s), secret, now).Ok? ==>
                  VerifySolution(c, Some(s), secret, now) == Ok(challenge.signature))
  {
    SameTextMeansMove(c, salt, number, s);
  }

  /**
   After the expiry in the server's salt a payload is accepted exactly when it moves something between
   salt and number and its own salt gives a later expiry or none. With the server's salt none is.
   */
  lemma AcceptedAfterExpiryExactly(c: Crypto, secret: string, salt: string, number: nat, maxNumber: nat, s: Solution, now: int)
    requires Injective(c, secret) && Lapsed(c, salt, now)
    requires s.signature == CreateChallenge(c, secret, salt, number, maxNumber).signature
    requires s.challenge == CreateChallenge(c, secret, salt, number, maxNumber).challenge
    ensures VerifySolution(c, Some(s), secret, now).Ok? <==>
              !Lapsed(c, s.salt, now) && exists moved :: moved != "" && Moves(c, salt, number, s.salt, s.number, moved)
    ensures s.salt == salt ==> VerifySolution(c, Some(s), secret, now) == Err(Expired)
  {
    SignedPayloadsVerifyExactly(c, secret, salt, number, maxNumber, s, now);
    if moved :| Moves(c, salt, number, s.salt, s.number, moved) && !Lapsed(c, s.salt, now) {
      assert s.salt != salt;
      assert salt + "" == salt && s.salt + "" == s.salt;
      assert moved != "";
    }
  }

  /** Some payload with the signature of the created challenge is accepted at this moment. */
  ghost predicate AcceptedAt(c: Crypto, secret: string, salt: string, number: nat, now: int) {
    exists s: Solution ::
      && s.signature == CreateChallenge(c, secret, salt, number, number).signature
      && VerifySolution(c, Some(s), secret, now).Ok?
  }

  /** No payload of a created challenge is accepted after the expiry in the server's salt. */
  ghost predicate ExpiryBinds(c: Crypto, secret: string, salt: string, number: nat) {
    forall now: int :: Lapsed(c, salt, now) ==> !AcceptedAt(c, secret, salt, number, now)
  }

  /** The expiry in one salt comes no later than the one in the other. */
  predicate EndsNoLater(c: Crypto, otherSalt: string, salt: string) {
    c.expiresOf(salt).Some? ==>
      c.expiresOf(otherSalt).Some? && c.expiresOf(otherSalt).value <= c.expiresOf(salt).value
  }

  /** The expiry binds exactly when no other split of the server's text into salt and number ends later. */
  lemma ExpiryBindsExactly(c: Crypto, secret: string, salt: string, number: nat)
    requires Injective(c, secret)
    ensures ExpiryBinds(c, secret, salt, number) <==>
              forall s: Solution :: Splices(c, salt, number, s) ==> EndsNoLater(c, s.salt, salt)
  {
    if ExpiryBinds(c, secret, salt, number) {
      forall s: Solution | Splices(c, salt, number, s) ensures EndsNoLater(c, s.salt, salt) {
        if c.expiresOf(salt).Some? {
          var end := c.expiresOf(salt).value;
          var now := match c.expiresOf(s.salt) case Some(t) => t case None => end + 1;
          SplitIsAccepted(c, secret, salt, number, s, now);
          assert now > end ==> Lapsed(c, salt, now);
        }
      }
    }
    if forall s: Solution :: Splices(c, salt, number, s) ==> EndsNoLater(c, s.salt, salt) {
      forall now: int | Lapsed(c, salt, now) ensures !AcceptedAt(c, secret, salt, number, now) {
        forall s: Solution | s.signature == CreateChallenge(c, secret, salt, number, number).signature
          ensures VerifySolution(c, Some(s), secret, now).Err?
        {
          SignedPayloadsVerifyExactly(c, secret, salt, number, number, s, now);
        }
      }
    }
  }

  /** Any split of the server's text is accepted until the expiry in its own salt. */
  lemma SplitIsAccepted(c: Crypto, secret: string, salt: string, number: nat, s: Solution, now: int)
    requires Splices(c, salt, number, s) && !Lapsed(c, s.salt, now)
    ensures AcceptedAt(c, secret, salt, number, now)
  {
    var challenge := CreateChallenge(c, secret, salt, number, number);
    var payload := Solution(challenge.challenge, s.number, s.salt, challenge.signature);
    SameTextMeansMove(c, salt, number, s);
    assert VerifySolution(c, Some(payload), secret, now).Ok?;
  }

  /** Numbers are written in decimal, and a salt with an expiry is read as it was built. */
  ghost predicate ReadsSalts(c: Crypto) {
    && (forall n: nat :: c.decimal(n) == Decimals.Digits(n))
    && (forall base: string, digits: string :: '?' !in base && digits != "" && Decimals.AllDigits(digits) ==>
          c.expiresOf(Salt(base, digits)) == Some(Decimals.Value(digits)))
  }

  function Salt(base: string, digits: string): string {
    base + "?expires=" + digits
  }

  lemma {:induction false} LongerNumbersAreGreater(d: string, e: string)
    requires Decimals.AllDigits(d) && Decimals.AllDigits(e)
    ensures Decimals.AllDigits(d + e) && Decimals.Value(d + e) >= Decimals.Value(d)
    ensures e != "" ==> Decimals.Value(d + e) >= 10 * Decimals.Value(d)
    decreases |e|
  {
    if e == "" {
      assert d + e == d;
    } else {
      var rest := e[..|e| - 1];
      LongerNumbersAreGreater(d, rest);
      assert (d + e)[..|d + e| - 1] == d + rest;
    }
  }

  /** Leading digits of a number, read behind those of an expiry. */
  lemma {:induction false} LeadingDigits(expires: nat, number: nat)
    requires number >= 10
    ensures var digits, moved := Decimals.Digits(expires), Decimals.Digits(number / 10);
            && digits != "" && Decimals.AllDigits(digits) && Decimals.Value(digits) == expires
            && Decimals.AllDigits(digits + moved) && Decimals.Value(digits + moved) >= 10 * expires
            && Decimals.Digits(number) == moved + Decimals.Digits(number % 10)
  {
    Decimals.DigitsRoundTrip(expires);
    Decimals.DigitsRoundTrip(number / 10);
    LongerNumbersAreGreater(Decimals.Digits(expires), Decimals.Digits(number / 10));
  }

  /**
   For the salts that `create_challenge` builds the condition fails whenever the number has two digits
   or more: up to ten times the expiry some payload is still accepted, so the expiry does not bind.
   */
  lemma {:induction false} ExpiryDoesNotBind(c: Crypto, secret: string, base: string, expires: nat, number: nat)
    requires ReadsSalts(c) && '?' !in base && expires > 0 && number >= 10
    ensures var salt := Salt(base, Decimals.Digits(expires));
            && c.expiresOf(salt) == Some(expires)
            && (forall now: int :: now <= 10 * expires ==> AcceptedAt(c, secret, salt, number, now))
            && !ExpiryBinds(c, secret, salt, number)
  {
    var digits, moved := Decimals.Digits(expires), Decimals.Digits(number / 10);
    var salt := Salt(base, digits);
    LeadingDigits(expires, number);
    var s := Solution("", number % 10, Salt(base, digits + moved), "");
    assert s.salt == salt + moved && c.expiresOf(s.salt).value >= 10 * expires;
    assert Moves(c, salt, number, s.salt, s.number, moved);
    forall now: int | now <= 10 * expires ensures AcceptedAt(c, secret, salt, number, now) {
      SplitIsAccepted(c, secret, salt, number, s, now);
    }
    assert Lapsed(c, salt, 10 * expires);
  }

  /**
   A challenge the server created is solvable, and a solution that keeps its salt verifies until the
   expiry in that salt and not later.
   */
  lemma CreatedChallengesVerify(c: Crypto, secret: string, salt: string, number: nat, maxNumber: nat, found: nat, now: int)
    requires number <= maxNumber
    ensures var challenge := CreateChallenge(c, secret, salt, number, maxNumber);
            && challenge.salt == salt && challenge.maxNumber == maxNumber
            && Solves(c, challenge, number)
            && (Solves(c, challenge, found) ==>
                  var payload := Some(Solution(challenge.challenge, found, challenge.salt, challenge.signature));
                  && (VerifySolution(c, payload, secret, now).Ok? <==> !Lapsed(c, salt, now))
                  && (VerifySolution(c, payload, secret, now).Ok? ==>
                      VerifySolution(c, payload, secret, now) == Ok(challenge.signature)))
  {
  }

  /** The solver never gives up on a challenge the server created. */
  method SolveThenVerify(c: Crypto, secret: string, salt: string, number: nat, maxNumber: nat, now: int)
    returns (verdict: Result<string, AltchaError>)
    requires number <= maxNumber
    ensures verdict.Ok? <==> c.expiresOf(salt) == None || now <= c.expiresOf(salt).value
    ensures verdict.Err? ==> verdict.error == Expired
  {
    var challenge := CreateChallenge(c, secret, salt, number, maxNumber);
    var solved := SolveChallenge(c, challenge);
    assert Solves(c, challenge, number);
    verdict := VerifySolution(c, solved, secret, now);
  }

  // -- runs of the verifier ---------------------------------------------------------------------------

  /** One call of the verifier. */
  datatype Attempt = Attempt(payload: Option<Solution>, now: int)

  predicate Accepts(c: Crypto, secret: string, entries: map<string, int>, a: Attempt) {
    var valid := VerifySolution(c, a.payload, secret, a.now);
    valid.Ok? && !ReplayGuard.IsReplay(entries, ReplayGuard.Call(valid.value, a.now))
  }

  /** The store of used keys behind a call; an invalid payload leaves it alone. */
  function EntriesAfter(c: Crypto, secret: string, ttl: int, entries: map<string, int>, a: Attempt): map<string, int> {
    match VerifySolution(c, a.payload, secret, a.now)
    case Err(_) => entries
    case Ok(key) => ReplayGuard.After(entries, ReplayGuard.Call(key, a.now), ttl)
  }

  function Verdicts(c: Crypto, secret: string, ttl: int, entries: map<string, int>, run: seq<Attempt>): (r: seq<bool>)
    ensures |r| == |run|
    decreases |run|
  {
    if run == [] then []
    else [Accepts(c, secret, entries, run[0])] + Verdicts(c, secret, ttl, EntriesAfter(c, secret, ttl, entries, run[0]), run[1..])
  }

  predicate Forward(run: seq<Attempt>) {
    forall i, j :: 0 <= i < j < |run| ==> run[i].now <= run[j].now
  }

  /** While an entry for the key stands, no payload with that signature is accepted. */
  lemma {:induction false} UsedKeyWaits(c: Crypto, secret: string, ttl: int, entries: map<string, int>, run: seq<Attempt>, key: string, j: nat)
    requires Forward(run) && key in entries && j < |run|
    requires run[j].payload.Some? && run[j].payload.value.signature == key
    requires Verdicts(c, secret, ttl, entries, run)[j]
    ensures run[j].now >= entries[key]
    decreases |run|
  {
    if j > 0 && run[0].now < entries[key] {
      UsedKeyWaits(c, secret, ttl, EntriesAfter(c, secret, ttl, entries, run[0]), run[1..], key, j - 1);
    }
  }

  /**
   Over every run of calls on a forward clock, whatever the payloads hold, two acceptances under one
   signature, and so of one created challenge, are at least the window apart.
   */
  lemma {:induction false} AcceptancesAreSpaced(c: Crypto, secret: string, ttl: int, entries: map<string, int>, run: seq<Attempt>, i: nat, j: nat)
    requires Forward(run) && i < j < |run|
    requires run[i].payload.Some? && run[j].payload.Some?
    requires run[i].payload.value.signature == run[j].payload.value.signature
    requires Verdicts(c, secret, ttl, entries, run)[i] && Verdicts(c, secret, ttl, entries, run)[j]
    ensures run[j].now - run[i].now >= ttl
    decreases |run|
  {
    var next := EntriesAfter(c, secret, ttl, entries, run[0]);
    if i > 0 {
      AcceptancesAreSpaced(c, secret, ttl, next, run[1..], i - 1, j - 1);
    } else {
      var key := run[0].payload.value.signature;
      assert next[key] == run[0].now + ttl;
      UsedKeyWaits(c, secret, ttl, next, run[1..], key, j - 1);
    }
  }

  class AltchaVerifier {
    const crypto: Crypto
    const secret: string
    const ttl: int
    const replay: ReplayGuard.InMemoryReplayGuard

    constructor (crypto: Crypto, secret: string, ttl: int, replay: ReplayGuard.InMemoryReplayGuard)
      ensures this.crypto == crypto && this.secret == secret && this.ttl == ttl && this.replay == replay
    {
      this.crypto, this.secret, this.ttl, this.replay := crypto, secret, ttl, replay;
    }

    /**
     Accept a solution once: it is valid now and its key is not in the window. A refused solution
     that fails the check leaves the store alone.
     */
    method Verify(payload: Option<Solution>, now: int) returns (r: Result<(), AltchaError>)
      modifies replay
      ensures var valid := VerifySolution(crypto, payload, secret, now);
              match valid
              case Err(e) => r == Err(e) && replay.entries == old(replay.entries)
              case Ok(key) =>
                && (r.Ok? <==> !ReplayGuard.IsReplay(old(replay.entries), ReplayGuard.Call(key, now)))
                && (r.Err? ==> r.error == AlreadyUsed)
                && replay.entries == ReplayGuard.After(old(replay.entries), ReplayGuard.Call(key, now), ttl)
      ensures r.Ok? <==> Accepts(crypto, secret, old(replay.entries), Attempt(payload, now))
      ensures replay.entries == EntriesAfter(crypto, secret, ttl, old(replay.entries), Attempt(payload, now))
    {
      var valid := VerifySolution(crypto, payload, secret, now);
      if valid.Err? {
        return Err(valid.error);
      }
      var seen := replay.Seen(valid.value, ttl, now);
      return if seen then Err(AlreadyUsed) else Ok(());
    }
  }
}
