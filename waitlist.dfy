/** The two Next.js routes together: what the join route writes is what the
    check route reads back. */
module Waitlist {
  import opened Json
  import opened EmailText
  import opened SqlStore
  import opened JoinRoute
  import opened CheckRoute

  /** The candidate handed to the rate limiter is the one validation accepted. */
  lemma AdmissionIsAccepted(b: Body, now: int)
    requires Admission(Some(b), now).Some?
    ensures Validate(b, now) == Accepted(Admission(Some(b), now).value)
  {
  }

  /** An admitted request that the route answers with success leaves its
      email findable by the check route, under the email as the client sent it. */
  lemma ListedEmailIsFound(s: State, b: Body, now: int)
    requires UniqueEmails(s.rows)
    requires Admission(Some(b), now).Some?
    requires Join(s, Some(b), now).0.Listed?
    ensures Check(Join(s, Some(b), now).1.rows, Some(b.email)).Found?
  {
    var c := Admission(Some(b), now).value;
    AdmissionIsAccepted(b, now);
    ValidateAccepted(b, now);
    JoinOfAdmitted(s, Some(b), now);
    AdmitListedIff(s, c, now);
    AdmittedEmailListedOnce(s, Some(b), now);
    FoundIff(Join(s, Some(b), now).1.rows, b.email);
  }

  /** A new email admitted when every earlier row was created no later than
      `now` is found last: position and total are both the new row count,
      and `joinedAt` is `now`. */
  lemma NewEmailIsFoundLast(s: State, b: Body, now: int)
    requires UniqueEmails(s.rows)
    requires forall i :: 0 <= i < |s.rows| ==> s.rows[i].createdAt <= now
    requires Admission(Some(b), now).Some?
    requires !HasEmail(s.rows, Admission(Some(b), now).value.email)
    requires Join(s, Some(b), now).0.Listed?
    ensures var n := |s.rows| + 1;
      Check(Join(s, Some(b), now).1.rows, Some(b.email)) == Found(n, n, now)
  {
    var c := Admission(Some(b), now).value;
    AdmissionIsAccepted(b, now);
    ValidateAccepted(b, now);
    JoinOfAdmitted(s, Some(b), now);
    AdmitListedIff(s, c, now);
    AdmittedEmailListedOnce(s, Some(b), now);
    var row := Row(c.email, Source, now);
    var rows := s.rows + [row];
    assert Join(s, Some(b), now).1.rows == rows;
    FirstWithEmailAppend(s.rows, row);
    CountAppend(s.rows, row, now);
    CountAll(s.rows, now);
    assert c.email == NormalizeField(b.email);
  }
}
