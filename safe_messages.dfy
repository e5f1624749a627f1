/** The join form's error display: an error text from the server is shown
    only when it is one of `SAFE_SERVER_MESSAGES`, any other text is shown as
    a generic failure. */
module SafeMessages {
  import opened Json
  import opened JoinRoute

  const SafeServerMessages: set<string> :=
    {"Invalid email address", "Please use a non-disposable email address",
     "Too many sign-ups right now", "Request expired. Please try again."}

  const FallbackMessage: string := "Something went wrong. Try again."

  /** The text the form shows for an error whose message is `err`. */
  function ShownError(err: string): (m: string)
    ensures m == err || m == FallbackMessage
    ensures m == err <==> err in SafeServerMessages || err == FallbackMessage
  {
    if err in SafeServerMessages then err else FallbackMessage
  }

  /** Every refusal of validation carries a message the form shows as it is. */
  lemma RefusalIsShown(why: Rejection)
    ensures ErrorResponse(why).status == 400
    ensures ShownError(ErrorResponse(why).error) == ErrorResponse(why).error
  {
  }

  /** Both refusals of the rate limiter are shown as they are. */
  lemma RateLimitIsShown(s: State, c: Candidate, now: int)
    requires Admit(s, c, now).0.Rejected?
    ensures Admit(s, c, now).0.status == 429
    ensures ShownError(Admit(s, c, now).0.error) == Admit(s, c, now).0.error
  {
    AdmitAnswers(s, c, now);
  }

  /** Every 400 and 429 the join route answers is shown to the user word for
      word; the 500 answer already is the form's generic text. */
  lemma JoinErrorsAreShown(s: State, req: Option<Body>, now: int)
    requires Join(s, req, now).0.Rejected?
    ensures var r := Join(s, req, now).0;
      && r.status in {400, 429, 500}
      && ShownError(r.error) == r.error
      && (r.status == 500 <==> req.None?)
  {
    if req.Some? && !Truthy(req.value.website) {
      if Validate(req.value, now).Accepted? {
        JoinOfAdmitted(s, req, now);
        RateLimitIsShown(s, Validate(req.value, now).candidate, now);
      } else {
        JoinOfRefused(s, req.value, now, Validate(req.value, now).why);
        RefusalIsShown(Validate(req.value, now).why);
      }
    }
  }
}
