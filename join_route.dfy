/** `POST /api/waitlist/join` of the Next.js app: honeypot, staleness check,
    normalisation, the email guards, domain extraction, the disposable-domain
    block, the two-tier in-memory rate limit and the idempotent insert. */
module JoinRoute {
  import opened Json
  import opened EmailText
  import opened RateLimit
  import opened SqlStore

  const BlockedDomains: set<string> :=
    {"mailinator.com", "guerrillamail.com", "tempmail.com", "throwaway.email", "yopmail.com"}

  /** `REQUEST_MAX_SKEW_MS`. */
  const RequestMaxSkewMs: int := 30000

  const GlobalKey: string := "global"
  const GlobalLimit: int := 10
  const DomainLimit: int := 3

  /** The `source` column written by the insert. */
  const Source: string := "signpost.cv"

  const OnTheList: string := "You're on the list!"
  const ExpiredMessage: string := "Request expired. Please try again."
  const InvalidMessage: string := "Invalid email address"
  const DisposableMessage: string := "Please use a non-disposable email address"
  const RateLimitedMessage: string := "Too many sign-ups right now"
  const ServerErrorMessage: string := "Something went wrong. Try again."

  /** The rate-limit key of a domain, `domain:${domain}`. */
  function DomainKey(d: string): (k: string)
    ensures k != GlobalKey
  {
    "domain:" + d
  }

  /** The three fields the route destructures from the JSON body. */
  datatype Body = Body(email: Value, website: Value, timestamp: Value)

  /** `{ success: true, message }` or `{ error }` with its HTTP status. */
  datatype Response = Listed(message: string) | Rejected(status: nat, error: string)

  datatype Rejection = Expired | InvalidEmail | Disposable

  /** What the validation chain hands to the rate limiter. */
  datatype Candidate = Candidate(email: string, domain: string)

  datatype Checked = Accepted(candidate: Candidate) | Refused(why: Rejection)

  function Abs(x: int): (a: nat)
    ensures a == x || a == -x
  {
    if x < 0 then -x else x
  }

  /** `typeof timestamp === "number" && Math.abs(now - timestamp) <= REQUEST_MAX_SKEW_MS`. */
  predicate Fresh(timestamp: Value, now: int)
    ensures Fresh(timestamp, now) <==>
      timestamp.Number? && now - RequestMaxSkewMs <= timestamp.n <= now + RequestMaxSkewMs
  {
    timestamp.Number? && Abs(now - timestamp.n) <= RequestMaxSkewMs
  }

  /** `normalizedEmail.split("@")[1]?.replace(/\.+$/, "")`. */
  function DomainOf(e: string): (d: Option<string>)
    ensures d.None? <==> Lacks(e, '@')
    ensures d.Some? ==> d.value == [] || d.value[|d.value| - 1] != '.'
    ensures d.Some? ==> IndexOf(e, '@').Some?
    ensures d.Some? ==> (
      var i := IndexOf(e, '@').value;
      i + 1 + |d.value| <= |e| && d.value == e[i + 1..i + 1 + |d.value|])
    ensures d.Some? ==> SecondField(e).Some? && |d.value| <= |SecondField(e).value|
    ensures d.Some? ==> forall j | |d.value| <= j < |SecondField(e).value| :: SecondField(e).value[j] == '.'
  {
    match SecondField(e)
    case None => None
    case Some(raw) => Some(StripTrailingDots(raw))
  }

  /** On an email of the regex's shape the domain is the text after its only
      `@`, with every trailing dot removed. */
  lemma ShapedDomainOf(e: string)
    requires MatchesShape(e)
    ensures exists i :: 0 < i < |e| && e[i] == '@' && OnlyAt(e, i) && DomainOf(e) == Some(StripTrailingDots(e[i + 1..]))
  {
    ShapedSecondField(e);
  }

  /** A domain the route lets through to the blocked-list test: present,
      non-empty and at most 253 characters. */
  predicate UsableDomain(d: Option<string>) {
    d.Some? && d.value != [] && |d.value| <= 253
  }

  /** The validation chain of the route, from the staleness check to the
      disposable-domain block, in the route's order. */
  function Validate(b: Body, now: int): Checked {
    ValidateFields(b.timestamp, NormalizeField(b.email), now)
  }

  /** The chain on the timestamp and the normalised email. */
  function ValidateFields(timestamp: Value, e: string, now: int): Checked {
    if !Fresh(timestamp, now) then Refused(Expired)
    else
      if e == [] || |e| > 254 then Refused(InvalidEmail)
      else if HasControl(e) then Refused(InvalidEmail)
      else if !MatchesShape(e) then Refused(InvalidEmail)
      else
        var d := DomainOf(e);
        if d.None? || d.value == [] || |d.value| > 253 then Refused(InvalidEmail)
        else if d.value in BlockedDomains then Refused(Disposable)
        else Accepted(Candidate(e, d.value))
  }

  /** The staleness check comes first and decides alone. */
  lemma ValidateExpired(b: Body, now: int)
    ensures Validate(b, now) == Refused(Expired) <==> !Fresh(b.timestamp, now)
  {
  }

  /** An email is invalid exactly when one of the guards or the domain test fails. */
  lemma ValidateInvalid(b: Body, now: int)
    ensures Validate(b, now) == Refused(InvalidEmail) <==>
      Fresh(b.timestamp, now) &&
      (!IsWellFormed(NormalizeField(b.email)) || !UsableDomain(DomainOf(NormalizeField(b.email))))
  {
    if Validate(b, now) == Refused(InvalidEmail) {
      InvalidMeansMalformed(b, now);
    }
    if Fresh(b.timestamp, now) {
      if !IsWellFormed(NormalizeField(b.email)) {
        MalformedIsInvalid(b, now);
      } else if !UsableDomain(DomainOf(NormalizeField(b.email))) {
        NoDomainIsInvalid(b, now);
      }
    }
  }

  lemma MalformedIsInvalid(b: Body, now: int)
    requires Fresh(b.timestamp, now)
    requires !IsWellFormed(NormalizeField(b.email))
    ensures Validate(b, now) == Refused(InvalidEmail)
  {
  }

  lemma NoDomainIsInvalid(b: Body, now: int)
    requires Fresh(b.timestamp, now)
    requires !UsableDomain(DomainOf(NormalizeField(b.email)))
    ensures Validate(b, now) == Refused(InvalidEmail)
  {
  }

  lemma InvalidMeansMalformed(b: Body, now: int)
    requires Validate(b, now) == Refused(InvalidEmail)
    ensures Fresh(b.timestamp, now)
    ensures !IsWellFormed(NormalizeField(b.email)) || !UsableDomain(DomainOf(NormalizeField(b.email)))
  {
    ValidateExpired(b, now);
    if IsWellFormed(NormalizeField(b.email)) && UsableDomain(DomainOf(NormalizeField(b.email))) {
      WellFormedIsNotInvalid(b, now);
    }
  }

  /** Past the guards, only the blocked-domain test can still refuse. */
  lemma WellFormedIsNotInvalid(b: Body, now: int)
    requires Fresh(b.timestamp, now)
    requires IsWellFormed(NormalizeField(b.email)) && UsableDomain(DomainOf(NormalizeField(b.email)))
    ensures Validate(b, now).Accepted? || Validate(b, now) == Refused(Disposable)
  {
  }

  /** A disposable domain is refused exactly when everything before it passed. */
  lemma ValidateDisposable(b: Body, now: int)
    ensures Validate(b, now) == Refused(Disposable) <==>
      Fresh(b.timestamp, now) && IsWellFormed(NormalizeField(b.email)) &&
      UsableDomain(DomainOf(NormalizeField(b.email))) &&
      DomainOf(NormalizeField(b.email)).value in BlockedDomains
  {
    if Validate(b, now) == Refused(Disposable) {
      DisposableMeansBlocked(b, now);
    }
    if Fresh(b.timestamp, now) && IsWellFormed(NormalizeField(b.email)) &&
      UsableDomain(DomainOf(NormalizeField(b.email))) &&
      DomainOf(NormalizeField(b.email)).value in BlockedDomains
    {
      DisposableIsRefused(b, now);
    }
  }

  lemma DisposableMeansBlocked(b: Body, now: int)
    requires Validate(b, now) == Refused(Disposable)
    ensures Fresh(b.timestamp, now) && IsWellFormed(NormalizeField(b.email))
    ensures UsableDomain(DomainOf(NormalizeField(b.email)))
    ensures DomainOf(NormalizeField(b.email)).value in BlockedDomains
  {
  }

  /** Validation sees the email only through its normalisation, so emails
      differing in ASCII case or surrounding whitespace are treated alike. */
  lemma ValidateSeesNormalizedEmail(a: Body, b: Body, now: int)
    requires NormalizeField(a.email) == NormalizeField(b.email) && a.timestamp == b.timestamp
    ensures Validate(a, now) == Validate(b, now)
  {
  }

  /** What an accepted candidate satisfies: the normalised email passes every
      guard, and its domain is the stripped text after the `@`, non-empty, at
      most 253 characters, not ending in a dot, and not blocked. */
  lemma ValidateAccepted(b: Body, now: int)
    requires Validate(b, now).Accepted?
    ensures var c := Validate(b, now).candidate;
      && Fresh(b.timestamp, now)
      && c.email == NormalizeField(b.email)
      && IsWellFormed(c.email)
      && DomainOf(c.email) == Some(c.domain)
      && 0 < |c.domain| <= 253 && c.domain[|c.domain| - 1] != '.'
      && c.domain !in BlockedDomains
  {
  }

  /** The answer to a validation refusal: always a 400, each refusal with a
      message of its own. */
  function ErrorResponse(why: Rejection): (r: Response)
    ensures r.Rejected? && r.status == 400
    ensures why == Expired <==> r.error == ExpiredMessage
  {
    match why
    case Expired => Rejected(400, ExpiredMessage)
    case InvalidEmail => Rejected(400, InvalidMessage)
    case Disposable => Rejected(400, DisposableMessage)
  }

  /** The state the route reads and writes: the module-level `rateBuckets`
      map and the rows of the `waitlist` table. */
  datatype State = State(buckets: map<string, seq<int>>, rows: seq<Row>)

  /** The candidate a request hands to the rate limiter, if it gets that far. */
  function Admission(req: Option<Body>, now: int): Option<Candidate> {
    if req.None? || Truthy(req.value.website) then None
    else match Validate(req.value, now)
      case Refused(_) => None
      case Accepted(c) => Some(c)
  }

  /** The rate limits and the insert, for a candidate that passed validation:
      the global bucket first, then the domain's, then the idempotent insert. */
  function Admit(s: State, c: Candidate, now: int): (r: (Response, State))
  {
    match Decide(Bucket(s.buckets, GlobalKey), GlobalLimit, now)
    case Denied => (Rejected(429, RateLimitedMessage), s)
    case Allowed(g) =>
      var b1 := s.buckets[GlobalKey := g];
      match Decide(Bucket(b1, DomainKey(c.domain)), DomainLimit, now)
      case Denied => (Rejected(429, RateLimitedMessage), State(b1, s.rows))
      case Allowed(d) =>
        (Listed(OnTheList), State(b1[DomainKey(c.domain) := d], InsertIgnore(s.rows, c.email, Source, now)))
  }

  /** One call of the route, from the state before to the response and the
      state after. `req == None` is a body that `request.json()` could not
      read, or the JSON `null`, whose destructuring throws; the outer
      `catch` answers either with status 500. */
  function Join(s: State, req: Option<Body>, now: int): (r: (Response, State))
    ensures r.0.Listed? ==> r.0.message == OnTheList
    ensures Admission(req, now).None? ==> r.1 == s
  {
    if req.None? then (Rejected(500, ServerErrorMessage), s)
    else if Truthy(req.value.website) then (Listed(OnTheList), s)
    else match Validate(req.value, now)
      case Refused(why) => (ErrorResponse(why), s)
      case Accepted(c) => Admit(s, c, now)
  }

  /** A request refused by validation is answered with that refusal and
      changes nothing. */
  lemma JoinOfRefused(s: State, b: Body, now: int, why: Rejection)
    requires !Truthy(b.website) && Validate(b, now) == Refused(why)
    ensures Join(s, Some(b), now) == (ErrorResponse(why), s)
  {
  }

  /** The route handler. `now` is `Date.now()`; the new row's `created_at` is
      taken to be the same instant. */
  method Post(limiter: RateBuckets, table: WaitlistTable, req: Option<Body>, now: int) returns (resp: Response)
    requires table.Valid()
    modifies limiter, table
    ensures table.Valid()
    ensures (resp, State(limiter.buckets, table.rows)) == Join(State(old(limiter.buckets), old(table.rows)), req, now)
  {
    ghost var s0 := State(limiter.buckets, table.rows);
    if req.None? {
      return Rejected(500, ServerErrorMessage);
    }
    var body := req.value;
    if Truthy(body.website) {
      return Listed(OnTheList);
    }
    var checked := Validate(body, now);
    if checked.Refused? {
      JoinOfRefused(s0, body, now, checked.why);
      return ErrorResponse(checked.why);
    }
    JoinOfAdmitted(s0, req, now);
    resp := LimitAndInsert(limiter, table, checked.candidate, now);
  }

  /** The steps of the handler after validation: the global bucket, the
      domain's bucket, then `INSERT ... ON CONFLICT (email) DO NOTHING`. */
  method LimitAndInsert(limiter: RateBuckets, table: WaitlistTable, c: Candidate, now: int) returns (resp: Response)
    requires table.Valid()
    modifies limiter, table
    ensures table.Valid()
    ensures (resp, State(limiter.buckets, table.rows)) == Admit(State(old(limiter.buckets), old(table.rows)), c, now)
  {
    ghost var s0 := State(limiter.buckets, table.rows);
    AdmitListedIff(s0, c, now);
    var allowed := limiter.Enforce(GlobalKey, GlobalLimit, now);
    if allowed {
      allowed := limiter.Enforce(DomainKey(c.domain), DomainLimit, now);
    }
    if !allowed {
      return Rejected(429, RateLimitedMessage);
    }
    var inserted := table.InsertOnConflictDoNothing(c.email, Source, now);
    if !inserted {
      // Already on the list: the same answer, so the response does not tell.
      return Listed(OnTheList);
    }
    return Listed(OnTheList);
  }

  // ---------------------------------------------------------------------
  // Properties of one call
  // ---------------------------------------------------------------------

  /** A filled-in honeypot is answered with the ordinary success before any
      other check, touching neither the rate buckets nor the table. */
  lemma HoneypotIsSilentSuccess(s: State, b: Body, now: int)
    requires Truthy(b.website)
    ensures Join(s, Some(b), now) == (Listed(OnTheList), s)
  {
  }

  /** A timestamp that is not a number, or more than 30 000 ms away from
      `now`, expires the request whatever the email; a skew of exactly
      30 000 ms is not expired. */
  lemma StaleRequestExpires(s: State, b: Body, now: int)
    requires !Truthy(b.website)
    ensures !Fresh(b.timestamp, now) <==> Join(s, Some(b), now) == (Rejected(400, ExpiredMessage), s)
    ensures b.timestamp.Number? && Abs(now - b.timestamp.n) == RequestMaxSkewMs ==>
      Join(s, Some(b), now).0 != Rejected(400, ExpiredMessage)
  {
    if Fresh(b.timestamp, now) {
      FreshIsNotExpired(s, b, now);
    } else {
      ValidateExpired(b, now);
      JoinOfRefused(s, b, now, Expired);
    }
  }

  /** A fresh request is never answered with the expiry message. */
  lemma FreshIsNotExpired(s: State, b: Body, now: int)
    requires !Truthy(b.website) && Fresh(b.timestamp, now)
    ensures Join(s, Some(b), now).0 != Rejected(400, ExpiredMessage)
  {
    ValidateExpired(b, now);
    if Validate(b, now).Accepted? {
      AcceptedIsNotExpired(s, b, now);
    } else {
      RefusedIsNotExpired(s, b, now, Validate(b, now).why);
    }
  }

  lemma RefusedIsNotExpired(s: State, b: Body, now: int, why: Rejection)
    requires !Truthy(b.website) && Validate(b, now) == Refused(why) && why != Expired
    ensures Join(s, Some(b), now).0 != Rejected(400, ExpiredMessage)
  {
    JoinOfRefused(s, b, now, why);
    OtherRefusalsAreNotExpiry(why);
  }

  lemma OtherRefusalsAreNotExpiry(why: Rejection)
    requires why != Expired
    ensures ErrorResponse(why) != Rejected(400, ExpiredMessage)
  {
    assert |ExpiredMessage| == 34 && |InvalidMessage| == 21 && |DisposableMessage| == 41;
  }

  lemma AcceptedIsNotExpired(s: State, b: Body, now: int)
    requires !Truthy(b.website) && Validate(b, now).Accepted?
    ensures Join(s, Some(b), now).0 != Rejected(400, ExpiredMessage)
  {
    JoinOfAdmitted(s, Some(b), now);
    AdmitAnswers(s, Validate(b, now).candidate, now);
  }

  /** `Admit` answers with success or with the rate-limit refusal. */
  lemma AdmitAnswers(s: State, c: Candidate, now: int)
    ensures Admit(s, c, now).0 == Listed(OnTheList) || Admit(s, c, now).0 == Rejected(429, RateLimitedMessage)
  {
  }

  /** The normalised email is refused as invalid when it is empty, longer
      than 254 characters, holds a control character, fails the shape test,
      or leaves no usable domain once trailing dots are stripped; nothing
      changes. */
  lemma MalformedEmailIsInvalid(s: State, b: Body, now: int)
    requires !Truthy(b.website) && Fresh(b.timestamp, now)
    requires var e := NormalizeField(b.email);
      || e == [] || |e| > 254 || HasControl(e) || !MatchesShape(e)
      || !UsableDomain(DomainOf(e))
    ensures Join(s, Some(b), now) == (Rejected(400, InvalidMessage), s)
  {
  }

  /** On a well-formed email the domain is everything after the `@`, never
      longer than 252 characters, so the 253-character guard cannot fire;
      `a@...` is the shape of an email whose domain strips to nothing. */
  lemma {:induction false} DomainOfWellFormed(e: string)
    requires IsWellFormed(e)
    ensures DomainOf(e).Some? && |DomainOf(e).value| <= 252
    ensures var d := DomainOf(e).value;
      d == [] <==> forall k :: 0 <= k < |SecondField(e).value| ==> SecondField(e).value[k] == '.'
  {
    ShapedSecondField(e);
    var raw := SecondField(e).value;
    var d := DomainOf(e).value;
    if d == [] {
      assert forall k :: 0 <= k < |raw| ==> raw[k] == '.';
    }
  }

  /** A domain in the blocked set is refused as disposable before any rate
      bucket is touched. */
  lemma DisposableDomainIsBlocked(s: State, b: Body, now: int)
    requires !Truthy(b.website) && Fresh(b.timestamp, now)
    requires IsWellFormed(NormalizeField(b.email))
    requires UsableDomain(DomainOf(NormalizeField(b.email)))
    requires DomainOf(NormalizeField(b.email)).value in BlockedDomains
    ensures Join(s, Some(b), now) == (Rejected(400, DisposableMessage), s)
  {
    DisposableIsRefused(b, now);
    RefusedDisposable(s, b, now);
  }

  lemma RefusedDisposable(s: State, b: Body, now: int)
    requires !Truthy(b.website) && Validate(b, now) == Refused(Disposable)
    ensures Join(s, Some(b), now) == (Rejected(400, DisposableMessage), s)
  {
    JoinOfRefused(s, b, now, Disposable);
  }

  lemma DisposableIsRefused(b: Body, now: int)
    requires Fresh(b.timestamp, now)
    requires IsWellFormed(NormalizeField(b.email))
    requires UsableDomain(DomainOf(NormalizeField(b.email)))
    requires DomainOf(NormalizeField(b.email)).value in BlockedDomains
    ensures Validate(b, now) == Refused(Disposable)
  {
  }

  /** The global bucket is asked first; when it refuses, nothing changes,
      the domain bucket included. */
  lemma GlobalDenialTouchesNothing(s: State, req: Option<Body>, now: int)
    requires Admission(req, now).Some?
    requires |Recent(Bucket(s.buckets, GlobalKey), now - WindowMs)| >= GlobalLimit
    ensures Join(s, req, now) == (Rejected(429, RateLimitedMessage), s)
  {
  }

  /** When the global bucket admits and the domain bucket refuses, the global
      slot stays consumed, the domain bucket and the table stay as they were. */
  lemma DomainDenialKeepsGlobalSlot(s: State, req: Option<Body>, now: int)
    requires Admission(req, now).Some?
    requires |Recent(Bucket(s.buckets, GlobalKey), now - WindowMs)| < GlobalLimit
    requires var k := DomainKey(Admission(req, now).value.domain);
      |Recent(Bucket(s.buckets, k), now - WindowMs)| >= DomainLimit
    ensures var k := DomainKey(Admission(req, now).value.domain);
      var r := Join(s, req, now);
      && r.0 == Rejected(429, RateLimitedMessage)
      && r.1.rows == s.rows
      && Bucket(r.1.buckets, k) == Bucket(s.buckets, k)
      && r.1.buckets == s.buckets[GlobalKey := Recent(Bucket(s.buckets, GlobalKey), now - WindowMs) + [now]]
  {
    JoinOfAdmitted(s, req, now);
    AdmitDomainDenied(s, Admission(req, now).value, now);
  }

  lemma AdmitDomainDenied(s: State, c: Candidate, now: int)
    requires |Recent(Bucket(s.buckets, GlobalKey), now - WindowMs)| < GlobalLimit
    requires |Recent(Bucket(s.buckets, DomainKey(c.domain)), now - WindowMs)| >= DomainLimit
    ensures var k := DomainKey(c.domain);
      var r := Admit(s, c, now);
      && r.0 == Rejected(429, RateLimitedMessage)
      && r.1.rows == s.rows
      && Bucket(r.1.buckets, k) == Bucket(s.buckets, k)
      && r.1.buckets == s.buckets[GlobalKey := Recent(Bucket(s.buckets, GlobalKey), now - WindowMs) + [now]]
  {
    var k := DomainKey(c.domain);
    assert k != GlobalKey;
  }

  /** A request with room in both rate buckets is answered with the same
      success whether its email is new or already listed, and afterwards the
      table holds the email exactly once; a new email adds one row and an
      old one adds none. */
  lemma AdmittedEmailListedOnce(s: State, req: Option<Body>, now: int)
    requires UniqueEmails(s.rows)
    requires Admission(req, now).Some?
    requires |Recent(Bucket(s.buckets, GlobalKey), now - WindowMs)| < GlobalLimit
    requires |Recent(Bucket(s.buckets, DomainKey(Admission(req, now).value.domain)), now - WindowMs)| < DomainLimit
    ensures var c := Admission(req, now).value;
      var r := Join(s, req, now);
      && r.0 == Listed(OnTheList)
      && r.1.rows == InsertIgnore(s.rows, c.email, Source, now)
      && UniqueEmails(r.1.rows) && EmailCount(r.1.rows, c.email) == 1
      && (HasEmail(s.rows, c.email) ==> r.1.rows == s.rows)
      && (!HasEmail(s.rows, c.email) ==> r.1.rows == s.rows + [Row(c.email, Source, now)])
  {
    JoinOfAdmitted(s, req, now);
    AdmitListedOnce(s, Admission(req, now).value, now);
  }

  lemma AdmitListedOnce(s: State, c: Candidate, now: int)
    requires UniqueEmails(s.rows)
    requires |Recent(Bucket(s.buckets, GlobalKey), now - WindowMs)| < GlobalLimit
    requires |Recent(Bucket(s.buckets, DomainKey(c.domain)), now - WindowMs)| < DomainLimit
    ensures var r := Admit(s, c, now);
      && r.0 == Listed(OnTheList)
      && r.1.rows == InsertIgnore(s.rows, c.email, Source, now)
      && UniqueEmails(r.1.rows) && EmailCount(r.1.rows, c.email) == 1
      && (HasEmail(s.rows, c.email) ==> r.1.rows == s.rows)
      && (!HasEmail(s.rows, c.email) ==> r.1.rows == s.rows + [Row(c.email, Source, now)])
  {
    var d := Decide(Bucket(s.buckets, GlobalKey), GlobalLimit, now);
    if d.Allowed? {
      AdmitSeesDomainBucket(s, c, d.bucket);
    }
  }

  /** Past validation, the answer is the success exactly when both buckets
      have room; the rows are then `InsertIgnore` of the rows before, and on
      a refusal they are unchanged. */
  lemma AdmitListedIff(s: State, c: Candidate, now: int)
    ensures Admit(s, c, now).0.Listed? <==>
      && |Recent(Bucket(s.buckets, GlobalKey), now - WindowMs)| < GlobalLimit
      && |Recent(Bucket(s.buckets, DomainKey(c.domain)), now - WindowMs)| < DomainLimit
    ensures Admit(s, c, now).0.Listed? ==> Admit(s, c, now).1.rows == InsertIgnore(s.rows, c.email, Source, now)
    ensures Admit(s, c, now).0.Rejected? ==> Admit(s, c, now).1.rows == s.rows
  {
    var d := Decide(Bucket(s.buckets, GlobalKey), GlobalLimit, now);
    if d.Allowed? {
      AdmitSeesDomainBucket(s, c, d.bucket);
    }
  }

  /** Writing the global bucket leaves the domain's bucket as it was. */
  lemma AdmitSeesDomainBucket(s: State, c: Candidate, g: seq<int>)
    ensures Bucket(s.buckets[GlobalKey := g], DomainKey(c.domain)) == Bucket(s.buckets, DomainKey(c.domain))
  {
    assert DomainKey(c.domain) != GlobalKey;
  }

  /** Every call keeps the email column unique and changes the table, if at
      all, only by appending the request's own normalised email. */
  lemma JoinKeepsEmailsUnique(s: State, req: Option<Body>, now: int)
    requires UniqueEmails(s.rows)
    ensures var r := Join(s, req, now);
      && UniqueEmails(r.1.rows)
      && (r.1.rows == s.rows ||
          (Admission(req, now).Some? &&
           r.1.rows == s.rows + [Row(Admission(req, now).value.email, Source, now)]))
  {
    if Admission(req, now).Some? {
      JoinOfAdmitted(s, req, now);
      AdmitKeepsUnique(s, Admission(req, now).value, now);
    }
  }

  lemma AdmitKeepsUnique(s: State, c: Candidate, now: int)
    requires UniqueEmails(s.rows)
    ensures var r := Admit(s, c, now);
      && UniqueEmails(r.1.rows)
      && (r.1.rows == s.rows || r.1.rows == s.rows + [Row(c.email, Source, now)])
  {
  }

  /** Every bucket a call writes holds at most its limit of timestamps, all
      inside the window that ends at `now`; other buckets are unchanged. */
  lemma JoinBucketsStayBounded(s: State, req: Option<Body>, now: int, k: string)
    requires Bucket(Join(s, req, now).1.buckets, k) != Bucket(s.buckets, k)
    ensures var b := Bucket(Join(s, req, now).1.buckets, k);
      && Admission(req, now).Some?
      && (k == GlobalKey || k == DomainKey(Admission(req, now).value.domain))
      && |b| <= (if k == GlobalKey then GlobalLimit else DomainLimit)
      && (forall i :: 0 <= i < |b| ==> now - WindowMs <= b[i])
  {
    var c := Admission(req, now).value;
    JoinOfAdmitted(s, req, now);
    AdmitBucketsBounded(s, c, now, k);
  }

  /** A request that reaches the rate limiter is answered by `Admit`. */
  lemma JoinOfAdmitted(s: State, req: Option<Body>, now: int)
    requires Admission(req, now).Some?
    ensures Join(s, req, now) == Admit(s, Admission(req, now).value, now)
  {
  }

  lemma AdmitBucketsBounded(s: State, c: Candidate, now: int, k: string)
    requires Bucket(Admit(s, c, now).1.buckets, k) != Bucket(s.buckets, k)
    ensures var b := Bucket(Admit(s, c, now).1.buckets, k);
      && (k == GlobalKey || k == DomainKey(c.domain))
      && |b| <= (if k == GlobalKey then GlobalLimit else DomainLimit)
      && (forall i :: 0 <= i < |b| ==> now - WindowMs <= b[i])
  {
    if k == GlobalKey {
      AdmitGlobalBucket(s, c, now);
    } else if k == DomainKey(c.domain) {
      AdmitDomainBucket(s, c, now);
    } else {
      AdmitOtherBucket(s, c, now, k);
    }
  }

  /** The global bucket after `Admit`: unchanged, or the decision's bucket. */
  lemma AdmitGlobalBucket(s: State, c: Candidate, now: int)
    ensures var b := Bucket(Admit(s, c, now).1.buckets, GlobalKey);
      b == Bucket(s.buckets, GlobalKey) ||
      (|b| <= GlobalLimit && forall i :: 0 <= i < |b| ==> now - WindowMs <= b[i])
  {
    var dk := DomainKey(c.domain);
    match Decide(Bucket(s.buckets, GlobalKey), GlobalLimit, now)
    case Denied =>
    case Allowed(g) =>
      var b1 := s.buckets[GlobalKey := g];
      match Decide(Bucket(b1, dk), DomainLimit, now)
      case Denied =>
      case Allowed(d) =>
        assert Bucket(b1[dk := d], GlobalKey) == g;
  }

  /** The domain's bucket after `Admit`: unchanged, or the decision's bucket. */
  lemma AdmitDomainBucket(s: State, c: Candidate, now: int)
    ensures var b := Bucket(Admit(s, c, now).1.buckets, DomainKey(c.domain));
      b == Bucket(s.buckets, DomainKey(c.domain)) ||
      (|b| <= DomainLimit && forall i :: 0 <= i < |b| ==> now - WindowMs <= b[i])
  {
    var dk := DomainKey(c.domain);
    match Decide(Bucket(s.buckets, GlobalKey), GlobalLimit, now)
    case Denied =>
    case Allowed(g) =>
      var b1 := s.buckets[GlobalKey := g];
      assert Bucket(b1, dk) == Bucket(s.buckets, dk);
  }

  /** With room in both buckets, each of the two is replaced by its window
      extended by `now`. */
  lemma AdmitAllowedBuckets(s: State, c: Candidate, now: int)
    requires |Recent(Bucket(s.buckets, GlobalKey), now - WindowMs)| < GlobalLimit
    requires |Recent(Bucket(s.buckets, DomainKey(c.domain)), now - WindowMs)| < DomainLimit
    ensures Admit(s, c, now).1.buckets ==
      s.buckets[GlobalKey := Recent(Bucket(s.buckets, GlobalKey), now - WindowMs) + [now]]
               [DomainKey(c.domain) := Recent(Bucket(s.buckets, DomainKey(c.domain)), now - WindowMs) + [now]]
  {
    var d := Decide(Bucket(s.buckets, GlobalKey), GlobalLimit, now);
    AdmitSeesDomainBucket(s, c, d.bucket);
  }

  /** The global bucket after `Admit` is exactly what the global decision
      leaves: the bucket before on a refusal, the decision's bucket otherwise,
      whatever the domain's bucket then decides. */
  lemma AdmitGlobalBucketIs(s: State, c: Candidate, now: int)
    ensures var d := Decide(Bucket(s.buckets, GlobalKey), GlobalLimit, now);
      Bucket(Admit(s, c, now).1.buckets, GlobalKey) == (if d.Allowed? then d.bucket else Bucket(s.buckets, GlobalKey))
  {
    var dk := DomainKey(c.domain);
    match Decide(Bucket(s.buckets, GlobalKey), GlobalLimit, now)
    case Denied =>
    case Allowed(g) =>
      var b1 := s.buckets[GlobalKey := g];
      match Decide(Bucket(b1, dk), DomainLimit, now)
      case Denied =>
      case Allowed(d) =>
        assert Bucket(b1[dk := d], GlobalKey) == g;
  }

  /** `Admit` writes no bucket but the global one and the domain's. */
  lemma AdmitOtherBucket(s: State, c: Candidate, now: int, k: string)
    requires k != GlobalKey && k != DomainKey(c.domain)
    ensures Bucket(Admit(s, c, now).1.buckets, k) == Bucket(s.buckets, k)
  {
  }

  /** The rate limits run before the duplicate test, so an email already on
      the list is refused with 429 once its domain's bucket is full. */
  lemma DuplicateCanBeRateLimited(s: State, req: Option<Body>, now: int)
    requires Admission(req, now).Some?
    requires HasEmail(s.rows, Admission(req, now).value.email)
    requires |Recent(Bucket(s.buckets, GlobalKey), now - WindowMs)| < GlobalLimit
    requires |Recent(Bucket(s.buckets, DomainKey(Admission(req, now).value.domain)), now - WindowMs)| >= DomainLimit
    ensures Join(s, req, now).0 == Rejected(429, RateLimitedMessage)
  {
    JoinOfAdmitted(s, req, now);
    AdmitDomainDenied(s, Admission(req, now).value, now);
  }
}
