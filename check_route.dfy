/** `POST /api/waitlist/check` of the Next.js app: the same normalisation and
    email guards as the join route, where every failure answers "not found",
    then the lookup of the entry and its position in the list. */
module CheckRoute {
  import opened Json
  import opened EmailText
  import opened SqlStore

  const CheckErrorMessage: string := "Something went wrong"

  /** `{ found: false }`, `{ found: true, position, total, joinedAt }`, or the
      status-500 `{ error }` of the outer `catch`. */
  datatype CheckResponse =
    | NotFound
    | Found(position: nat, total: nat, joinedAt: int)
    | CheckFailed(error: string)

  /** One call of the route on the rows of `waitlist`. `req` is the `email`
      field of the body, `None` when the body could not be read or is the JSON
      `null`, whose destructuring throws. The route
      only reads the table, so the rows are an argument and nothing is
      returned in their place. */
  function Check(rows: seq<Row>, req: Option<Value>): (r: CheckResponse)
    ensures r.CheckFailed? <==> req.None?
    ensures r.Found? ==> 1 <= r.position <= r.total && r.total == |rows|
  {
    if req.None? then CheckFailed(CheckErrorMessage)
    else CheckEmail(rows, NormalizeField(req.value))
  }

  /** The route past reading the body, on the normalised email `e`. */
  function CheckEmail(rows: seq<Row>, e: string): (r: CheckResponse)
    ensures !r.CheckFailed?
    ensures r.Found? ==> 1 <= r.position <= r.total && r.total == |rows|
  {
    if e == [] || |e| > 254 then NotFound
    else if HasControl(e) then NotFound
    else if !MatchesShape(e) then NotFound
    else match FirstWithEmail(rows, e)
      case None => NotFound
      case Some(entry) =>
        CountIncludesMember(rows, entry, entry.createdAt);
        Found(CountAtOrBefore(rows, entry.createdAt), |rows|, entry.createdAt)
  }

  /** An empty email, one longer than 254 characters, one holding a control
      character, one failing the shape test, or an email that is not a string
      at all, is answered "not found" and never with an error. */
  lemma MalformedIsNotFound(rows: seq<Row>, email: Value)
    requires !IsWellFormed(NormalizeField(email))
    ensures Check(rows, Some(email)) == NotFound
  {
  }

  /** A well-formed email that no row holds is answered "not found". */
  lemma AbsentIsNotFound(rows: seq<Row>, email: Value)
    requires !HasEmail(rows, NormalizeField(email))
    ensures Check(rows, Some(email)) == NotFound
  {
  }

  /** A readable body is found exactly when its normalised email is well formed
      and held by some row; it is otherwise "not found", never an error. */
  lemma FoundIff(rows: seq<Row>, email: Value)
    ensures Check(rows, Some(email)).Found? <==>
      IsWellFormed(NormalizeField(email)) && HasEmail(rows, NormalizeField(email))
    ensures !Check(rows, Some(email)).Found? ==> Check(rows, Some(email)) == NotFound
  {
  }

  /** A found entry reports the `created_at` of a row holding the normalised
      email, as position the number of rows created no later than it, and
      as total the number of all rows. */
  lemma FoundEntry(rows: seq<Row>, email: Value)
    requires Check(rows, Some(email)).Found?
    ensures var r := Check(rows, Some(email));
      && Row(NormalizeField(email), FirstWithEmail(rows, NormalizeField(email)).value.source, r.joinedAt) in rows
      && r.position == CountAtOrBefore(rows, r.joinedAt)
      && r.total == |rows|
  {
    FoundEmailEntry(rows, NormalizeField(email));
  }

  lemma FoundEmailEntry(rows: seq<Row>, e: string)
    requires CheckEmail(rows, e).Found?
    ensures var r := CheckEmail(rows, e);
      && Row(e, FirstWithEmail(rows, e).value.source, r.joinedAt) in rows
      && r.position == CountAtOrBefore(rows, r.joinedAt)
      && r.total == |rows|
  {
  }

  /** Entries that joined at the same instant report the same position, and
      a later entry never reports a smaller position. */
  lemma PositionFollowsJoinTime(rows: seq<Row>, a: Value, b: Value)
    requires Check(rows, Some(a)).Found? && Check(rows, Some(b)).Found?
    ensures var ra, rb := Check(rows, Some(a)), Check(rows, Some(b));
      && (ra.joinedAt == rb.joinedAt ==> ra.position == rb.position)
      && (ra.joinedAt <= rb.joinedAt ==> ra.position <= rb.position)
  {
    var ra, rb := Check(rows, Some(a)), Check(rows, Some(b));
    if ra.joinedAt <= rb.joinedAt {
      CountMonotone(rows, ra.joinedAt, rb.joinedAt);
    }
  }

  /** Emails differing only in ASCII case and in surrounding whitespace get
      the same answer. */
  lemma CaseAndPaddingAreIgnored(rows: seq<Row>, a: string, b: string, w1: string, w2: string, w3: string, w4: string)
    requires Lower(a) == Lower(b)
    requires AllWhitespace(w1) && AllWhitespace(w2) && AllWhitespace(w3) && AllWhitespace(w4)
    ensures Check(rows, Some(Str(w1 + a + w2))) == Check(rows, Some(Str(w3 + b + w4)))
  {
    NormalizeIgnoresCaseAndPadding(a, b, w1, w2, w3, w4);
  }
}
