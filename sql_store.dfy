/** The `waitlist` table the Next.js routes read and write through SQL, with
    the statements they issue: `INSERT ... ON CONFLICT (email) DO NOTHING`,
    `SELECT ... WHERE email = ... LIMIT 1` and the two `COUNT(*)` queries. */
module SqlStore {
  import opened Json

  /** One row of `waitlist`; `createdAt` is the `created_at` column in
      epoch milliseconds. */
  datatype Row = Row(email: string, source: string, createdAt: int)

  predicate HasEmail(rows: seq<Row>, email: string) {
    exists i :: 0 <= i < |rows| && rows[i].email == email
  }

  /** The uniqueness constraint on `email` that `ON CONFLICT (email)` relies on. */
  predicate UniqueEmails(rows: seq<Row>) {
    forall i, j :: 0 <= i < j < |rows| ==> rows[i].email != rows[j].email
  }

  /** How many rows hold `email`. */
  function EmailCount(rows: seq<Row>, email: string): (n: nat)
    ensures n <= |rows|
    ensures n == 0 <==> !HasEmail(rows, email)
  {
    if rows == [] then 0
    else
      var rest := EmailCount(rows[1..], email);
      assert HasEmail(rows, email) <==> rows[0].email == email || HasEmail(rows[1..], email) by {
        if HasEmail(rows[1..], email) {
          var i :| 0 <= i < |rows[1..]| && rows[1..][i].email == email;
          assert rows[i + 1].email == email;
        }
        if HasEmail(rows, email) && rows[0].email != email {
          var i :| 0 <= i < |rows| && rows[i].email == email;
          assert rows[1..][i - 1].email == email;
        }
      }
      (if rows[0].email == email then 1 else 0) + rest
  }

  lemma {:induction false} UniqueCount(rows: seq<Row>, email: string)
    ensures UniqueEmails(rows) ==> EmailCount(rows, email) <= 1
  {
    if rows != [] && UniqueEmails(rows) {
      UniqueCount(rows[1..], email);
      if rows[0].email == email {
        assert !HasEmail(rows[1..], email);
      }
    }
  }

  lemma {:induction false} EmailCountAppend(rows: seq<Row>, r: Row, email: string)
    ensures EmailCount(rows + [r], email) == EmailCount(rows, email) + (if r.email == email then 1 else 0)
  {
    if rows == [] {
      assert rows + [r] == [r];
    } else {
      assert (rows + [r])[1..] == rows[1..] + [r];
      EmailCountAppend(rows[1..], r, email);
    }
  }

  /** The table after `INSERT ... ON CONFLICT (email) DO NOTHING`: the email is
      present afterwards, exactly once when the table was unique, and an
      existing email leaves the table as it was. */
  function InsertIgnore(rows: seq<Row>, email: string, source: string, createdAt: int): (r: seq<Row>)
    ensures HasEmail(r, email)
    ensures HasEmail(rows, email) ==> r == rows
    ensures !HasEmail(rows, email) ==> r == rows + [Row(email, source, createdAt)]
    ensures UniqueEmails(rows) ==> UniqueEmails(r) && EmailCount(r, email) == 1
  {
    if HasEmail(rows, email) then
      UniqueCount(rows, email);
      rows
    else
      var r := rows + [Row(email, source, createdAt)];
      assert r[|rows|].email == email;
      EmailCountAppend(rows, Row(email, source, createdAt), email);
      r
  }

  /** `SELECT ... WHERE email = $1 LIMIT 1`: the first row holding the email. */
  function FirstWithEmail(rows: seq<Row>, email: string): (r: Option<Row>)
    ensures r.None? <==> !HasEmail(rows, email)
    ensures r.Some? ==> r.value in rows && r.value.email == email
  {
    if rows == [] then None
    else if rows[0].email == email then Some(rows[0])
    else
      var r := FirstWithEmail(rows[1..], email);
      assert HasEmail(rows, email) ==> HasEmail(rows[1..], email) by {
        if HasEmail(rows, email) {
          var i :| 0 <= i < |rows| && rows[i].email == email;
          assert rows[1..][i - 1].email == email;
        }
      }
      assert HasEmail(rows[1..], email) ==> HasEmail(rows, email) by {
        if HasEmail(rows[1..], email) {
          var i :| 0 <= i < |rows[1..]| && rows[1..][i].email == email;
          assert rows[i + 1].email == email;
        }
      }
      r
  }

  /** A row appended with an email the table did not hold is the one the
      lookup finds. */
  lemma FirstWithEmailAppend(rows: seq<Row>, r: Row)
    requires !HasEmail(rows, r.email)
    ensures FirstWithEmail(rows + [r], r.email) == Some(r)
  {
    assert (rows + [r])[|rows|].email == r.email;
  }

  /** `SELECT COUNT(*) FROM waitlist WHERE created_at <= $1`. */
  function CountAtOrBefore(rows: seq<Row>, t: int): (n: nat)
    ensures n <= |rows|
  {
    if rows == [] then 0
    else (if rows[0].createdAt <= t then 1 else 0) + CountAtOrBefore(rows[1..], t)
  }

  /** A row created no later than `t` is counted, so the count is positive. */
  lemma {:induction false} CountIncludesMember(rows: seq<Row>, r: Row, t: int)
    requires r in rows && r.createdAt <= t
    ensures CountAtOrBefore(rows, t) >= 1
  {
    if rows[0] != r {
      assert r in rows[1..];
      CountIncludesMember(rows[1..], r, t);
    }
  }

  /** The count can only grow as the cut-off moves later. */
  lemma {:induction false} CountMonotone(rows: seq<Row>, t: int, u: int)
    requires t <= u
    ensures CountAtOrBefore(rows, t) <= CountAtOrBefore(rows, u)
  {
    if rows != [] {
      CountMonotone(rows[1..], t, u);
    }
  }

  /** When every row is created no later than `t`, all of them are counted. */
  lemma {:induction false} CountAll(rows: seq<Row>, t: int)
    requires forall i :: 0 <= i < |rows| ==> rows[i].createdAt <= t
    ensures CountAtOrBefore(rows, t) == |rows|
  {
    if rows != [] {
      CountAll(rows[1..], t);
    }
  }

  lemma {:induction false} CountAppend(rows: seq<Row>, r: Row, t: int)
    ensures CountAtOrBefore(rows + [r], t) == CountAtOrBefore(rows, t) + (if r.createdAt <= t then 1 else 0)
  {
    if rows == [] {
      assert rows + [r] == [r];
    } else {
      assert (rows + [r])[1..] == rows[1..] + [r];
      CountAppend(rows[1..], r, t);
    }
  }

  /** The `waitlist` table as the join route changes it. */
  class WaitlistTable {
    var rows: seq<Row>

    ghost predicate Valid()
      reads this
    {
      UniqueEmails(rows)
    }

    constructor ()
      ensures Valid() && rows == []
    {
      rows := [];
    }

    /** `INSERT INTO waitlist (email, source) VALUES (...) ON CONFLICT (email)
        DO NOTHING RETURNING id`; `inserted` says whether an id came back. */
    method InsertOnConflictDoNothing(email: string, source: string, createdAt: int) returns (inserted: bool)
      requires Valid()
      modifies this
      ensures Valid()
      ensures inserted <==> !HasEmail(old(rows), email)
      ensures rows == InsertIgnore(old(rows), email, source, createdAt)
      ensures EmailCount(rows, email) == 1
    {
      inserted := !HasEmail(rows, email);
      rows := InsertIgnore(rows, email, source, createdAt);
    }
  }
}
