/** The Convex `join` mutation: honeypot, the shape test on the raw email,
    normalisation, the blocked-domain list, the duplicate lookup, the global
    window count over the table itself, and the insert. */
module ConvexWaitlist {
  import opened Json
  import opened EmailText

  /** `blocked`, tested with `Array.prototype.includes`. */
  const Blocked: seq<string> :=
    ["mailinator.com", "guerrillamail.com", "tempmail.com", "throwaway.email", "yopmail.com"]

  /** `60_000`, and the count at which sign-ups are refused. */
  const OneMinuteMs: int := 60000
  const RecentLimit: int := 10

  const OnTheList: string := "You're on the list!"
  const AlreadyListed: string := "You're already on the list!"
  const InvalidMessage: string := "Invalid email address"
  const DisposableMessage: string := "Please use a non-disposable email address"
  const TooManyMessage: string := "Too many sign-ups right now. Please try again in a minute."

  /** A document of the `waitlist` table; `domain` is optional in the schema
      and the mutation never sets it. */
  datatype Entry = Entry(email: string, domain: Option<string>, joinedAt: int)

  /** A returned `{ success: true, message }` or a thrown `Error`. */
  datatype Outcome = Returned(message: string) | Thrown(error: string)

  predicate HasEntry(entries: seq<Entry>, email: string) {
    exists i :: 0 <= i < |entries| && entries[i].email == email
  }

  predicate UniqueEntries(entries: seq<Entry>) {
    forall i, j :: 0 <= i < j < |entries| ==> entries[i].email != entries[j].email
  }

  /** `.withIndex("by_email", q => q.eq("email", e)).first()`. */
  function FirstEntry(entries: seq<Entry>, email: string): (r: Option<Entry>)
    ensures r.None? <==> !HasEntry(entries, email)
    ensures r.Some? ==> r.value in entries && r.value.email == email
  {
    if entries == [] then None
    else if entries[0].email == email then Some(entries[0])
    else
      var r := FirstEntry(entries[1..], email);
      assert HasEntry(entries, email) ==> HasEntry(entries[1..], email) by {
        if HasEntry(entries, email) {
          var i :| 0 <= i < |entries| && entries[i].email == email;
          assert entries[1..][i - 1].email == email;
        }
      }
      assert HasEntry(entries[1..], email) ==> HasEntry(entries, email) by {
        if HasEntry(entries[1..], email) {
          var i :| 0 <= i < |entries[1..]| && entries[1..][i].email == email;
          assert entries[i + 1].email == email;
        }
      }
      r
  }

  /** `.filter(q => q.gte(q.field("joinedAt"), since)).collect()`, in table
      order rather than the query's `.order("desc")`; only its length is
      used. */
  function RecentEntries(entries: seq<Entry>, since: int): (r: seq<Entry>)
    ensures |r| <= |entries|
    ensures forall e :: e in r <==> e in entries && e.joinedAt >= since
  {
    if entries == [] then []
    else (if entries[0].joinedAt >= since then [entries[0]] else []) + RecentEntries(entries[1..], since)
  }

  /** The mutation on the table before the call: its outcome and the table
      after it. `now` stands for both `Date.now()` calls. */
  function ConvexJoin(entries: seq<Entry>, email: string, website: Option<string>, now: int): (r: (Outcome, seq<Entry>))
    ensures r.0.Thrown? ==> r.1 == entries
    ensures r.1 == entries || r.1 == entries + [Entry(Normalize(email), None, now)]
  {
    if TruthyOptional(website) then (Returned(OnTheList), entries)
    else if !MatchesShape(email) then (Thrown(InvalidMessage), entries)
    else Admit(entries, Normalize(email), now)
  }

  /** The steps after the shape test, on the normalised email. */
  function Admit(entries: seq<Entry>, normalized: string, now: int): (r: (Outcome, seq<Entry>))
    ensures r.0.Thrown? ==> r.1 == entries
    ensures r.1 == entries || r.1 == entries + [Entry(normalized, None, now)]
  {
    var domain := SecondField(normalized);
    if domain.Some? && domain.value in Blocked then (Thrown(DisposableMessage), entries)
    else if FirstEntry(entries, normalized).Some? then (Returned(AlreadyListed), entries)
    else if |RecentEntries(entries, now - OneMinuteMs)| >= RecentLimit then (Thrown(TooManyMessage), entries)
    else (Returned(OnTheList), entries + [Entry(normalized, None, now)])
  }

  // ---------------------------------------------------------------------
  // The window bound the count enforces
  // ---------------------------------------------------------------------

  /** The number of entries that joined in the closed window `[t - 60 000, t]`. */
  function InWindow(entries: seq<Entry>, t: int): (n: nat)
    ensures n <= |entries|
  {
    if entries == [] then 0
    else (if t - OneMinuteMs <= entries[0].joinedAt <= t then 1 else 0) + InWindow(entries[1..], t)
  }

  /** No 60-second window holds more than ten entries. */
  ghost predicate WindowBounded(entries: seq<Entry>) {
    forall t :: InWindow(entries, t) <= RecentLimit
  }

  lemma {:induction false} InWindowAppend(entries: seq<Entry>, e: Entry, t: int)
    ensures InWindow(entries + [e], t) == InWindow(entries, t) + (if t - OneMinuteMs <= e.joinedAt <= t then 1 else 0)
  {
    if entries == [] {
      assert entries + [e] == [e];
    } else {
      assert (entries + [e])[1..] == entries[1..] + [e];
      InWindowAppend(entries[1..], e, t);
    }
  }

  /** A window that starts no earlier than `since` counts no more entries
      than the filter `joinedAt >= since` keeps. */
  lemma {:induction false} InWindowAtMostRecent(entries: seq<Entry>, t: int, since: int)
    requires since <= t - OneMinuteMs
    ensures InWindow(entries, t) <= |RecentEntries(entries, since)|
  {
    if entries != [] {
      InWindowAtMostRecent(entries[1..], t, since);
    }
  }

  /** The query distributes over the table's order: the entries of `a + b`
      kept are those of `a` kept, then those of `b` kept. */
  lemma {:induction false} RecentEntriesAppend(a: seq<Entry>, b: seq<Entry>, since: int)
    ensures RecentEntries(a + b, since) == RecentEntries(a, since) + RecentEntries(b, since)
  {
    if a == [] {
      assert a + b == b;
    } else {
      assert (a + b)[1..] == a[1..] + b;
      RecentEntriesAppend(a[1..], b, since);
    }
  }

  /** One entry is kept, once, exactly when it joined at or after `since`. */
  lemma RecentEntriesOfOne(e: Entry, since: int)
    ensures RecentEntries([e], since) == if e.joinedAt >= since then [e] else []
  {
    assert [e][1..] == [];
  }

  /** On a table whose entries all joined no later than `t`, the query's
      length is exactly the number of entries in the closed minute ending at
      `t`: the count the mutation compares with ten. */
  lemma {:induction false} RecentIsWindowCount(entries: seq<Entry>, t: int)
    requires forall i :: 0 <= i < |entries| ==> entries[i].joinedAt <= t
    ensures |RecentEntries(entries, t - OneMinuteMs)| == InWindow(entries, t)
  {
    if entries != [] {
      assert forall i :: 0 <= i < |entries[1..]| ==> entries[1..][i] == entries[i + 1];
      RecentIsWindowCount(entries[1..], t);
    }
  }

  /** An insert happens only when the last minute held fewer than ten
      entries, so every call keeps every window at ten or fewer, whatever
      order the calls' clocks come in. */
  lemma ConvexJoinKeepsWindowBounded(entries: seq<Entry>, email: string, website: Option<string>, now: int)
    requires WindowBounded(entries)
    ensures WindowBounded(ConvexJoin(entries, email, website, now).1)
  {
    if !TruthyOptional(website) && MatchesShape(email) {
      AdmitKeepsWindowBounded(entries, Normalize(email), now);
    }
  }

  lemma AdmitKeepsWindowBounded(entries: seq<Entry>, normalized: string, now: int)
    requires WindowBounded(entries)
    ensures WindowBounded(Admit(entries, normalized, now).1)
  {
    var after := Admit(entries, normalized, now).1;
    if after != entries {
      AdmitInserts(entries, normalized, now);
      var e := Entry(normalized, None, now);
      forall t ensures InWindow(after, t) <= RecentLimit {
        InWindowAppend(entries, e, t);
        if t - OneMinuteMs <= now <= t {
          InWindowAtMostRecent(entries, t, now - OneMinuteMs);
        }
      }
    }
  }

  // ---------------------------------------------------------------------
  // Properties of one call
  // ---------------------------------------------------------------------

  /** A non-empty `website` returns the ordinary success and inserts nothing. */
  lemma HoneypotReturnsSuccess(entries: seq<Entry>, email: string, website: Option<string>, now: int)
    requires TruthyOptional(website)
    ensures ConvexJoin(entries, email, website, now) == (Returned(OnTheList), entries)
  {
  }

  /** The shape test runs on the email as received, before normalisation. */
  lemma RawShapeFailureThrows(entries: seq<Entry>, email: string, website: Option<string>, now: int)
    requires !TruthyOptional(website) && !MatchesShape(email)
    ensures ConvexJoin(entries, email, website, now) == (Thrown(InvalidMessage), entries)
  {
  }

  /** An email that passed the shape test holds no whitespace, so trimming
      does nothing and normalising is lowercasing; its domain, the text after
      the `@`, is always present. */
  lemma ShapedNormalizeIsLower(email: string)
    requires MatchesShape(email)
    ensures Normalize(email) == Lower(email)
    ensures SecondField(Normalize(email)).Some?
  {
    var i :| 0 < i < |email| && email[i] == '@' && PlainOutside(email, i) && HasInnerDot(email, i);
    var l := Lower(email);
    assert !IsWhitespace(l[0]) && !IsWhitespace(l[|l| - 1]) by {
      assert PlainChar(email[0]) && PlainChar(email[|email| - 1]);
    }
    TrimOfTrimmed(l);
    assert l[i] == '@';
  }

  /** A domain in the blocked list throws and inserts nothing. */
  lemma BlockedDomainThrows(entries: seq<Entry>, email: string, website: Option<string>, now: int)
    requires !TruthyOptional(website) && MatchesShape(email)
    requires SecondField(Normalize(email)).Some? && SecondField(Normalize(email)).value in Blocked
    ensures ConvexJoin(entries, email, website, now) == (Thrown(DisposableMessage), entries)
  {
  }

  /** An email already present returns its own message before the window is
      counted: for every `now` alike, and with nothing inserted. */
  lemma DuplicateIsAlreadyListed(entries: seq<Entry>, email: string, website: Option<string>, now: int)
    requires !TruthyOptional(website) && MatchesShape(email)
    requires SecondField(Normalize(email)).Some? ==> SecondField(Normalize(email)).value !in Blocked
    requires HasEntry(entries, Normalize(email))
    ensures ConvexJoin(entries, email, website, now) == (Returned(AlreadyListed), entries)
  {
  }

  /** A new email when ten entries joined in the last minute throws and
      inserts nothing. */
  lemma FullWindowThrows(entries: seq<Entry>, email: string, website: Option<string>, now: int)
    requires !TruthyOptional(website) && MatchesShape(email)
    requires SecondField(Normalize(email)).Some? ==> SecondField(Normalize(email)).value !in Blocked
    requires !HasEntry(entries, Normalize(email))
    requires |RecentEntries(entries, now - OneMinuteMs)| >= RecentLimit
    ensures ConvexJoin(entries, email, website, now) == (Thrown(TooManyMessage), entries)
  {
  }

  /** The table changes only on a first sign-up that every check let through,
      and then only by one entry for the normalised email at `now`. */
  lemma InsertIsTheOnlyChange(entries: seq<Entry>, email: string, website: Option<string>, now: int)
    requires ConvexJoin(entries, email, website, now).1 != entries
    ensures var r := ConvexJoin(entries, email, website, now);
      && r.0 == Returned(OnTheList)
      && r.1 == entries + [Entry(Normalize(email), None, now)]
      && !TruthyOptional(website) && MatchesShape(email)
      && SecondField(Normalize(email)).Some? && SecondField(Normalize(email)).value !in Blocked
      && !HasEntry(entries, Normalize(email))
      && |RecentEntries(entries, now - OneMinuteMs)| < RecentLimit
  {
    ShapedNormalizeIsLower(email);
    AdmitInserts(entries, Normalize(email), now);
  }

  lemma AdmitInserts(entries: seq<Entry>, normalized: string, now: int)
    requires Admit(entries, normalized, now).1 != entries
    ensures var r := Admit(entries, normalized, now);
      && r.0 == Returned(OnTheList)
      && r.1 == entries + [Entry(normalized, None, now)]
      && (SecondField(normalized).Some? ==> SecondField(normalized).value !in Blocked)
      && !HasEntry(entries, normalized)
      && |RecentEntries(entries, now - OneMinuteMs)| < RecentLimit
  {
  }

  /** No call puts a second entry with an email already present. */
  lemma ConvexJoinKeepsUnique(entries: seq<Entry>, email: string, website: Option<string>, now: int)
    requires UniqueEntries(entries)
    ensures UniqueEntries(ConvexJoin(entries, email, website, now).1)
  {
    if !TruthyOptional(website) && MatchesShape(email) {
      AdmitKeepsUnique(entries, Normalize(email), now);
    }
  }

  lemma AdmitKeepsUnique(entries: seq<Entry>, normalized: string, now: int)
    requires UniqueEntries(entries)
    ensures UniqueEntries(Admit(entries, normalized, now).1)
  {
    var after := Admit(entries, normalized, now).1;
    if after != entries {
      AdmitInserts(entries, normalized, now);
      assert after[|entries|].email == normalized;
    }
  }

  /** The `waitlist` table as the mutation reads and writes it. */
  class WaitlistDb {
    var entries: seq<Entry>

    ghost predicate Valid()
      reads this
    {
      UniqueEntries(entries) && WindowBounded(entries)
    }

    constructor ()
      ensures Valid() && entries == []
    {
      entries := [];
    }

    /** The mutation handler. */
    method Join(email: string, website: Option<string>, now: int) returns (outcome: Outcome)
      requires Valid()
      modifies this
      ensures Valid()
      ensures (outcome, entries) == ConvexJoin(old(entries), email, website, now)
    {
      ConvexJoinKeepsUnique(entries, email, website, now);
      ConvexJoinKeepsWindowBounded(entries, email, website, now);
      if TruthyOptional(website) {
        return Returned(OnTheList);
      }
      if !MatchesShape(email) {
        return Thrown(InvalidMessage);
      }
      var normalized := Normalize(email);
      var domain := SecondField(normalized);
      if domain.Some? && domain.value in Blocked {
        return Thrown(DisposableMessage);
      }
      var existing := FirstEntry(entries, normalized);
      if existing.Some? {
        return Returned(AlreadyListed);
      }
      var recent := RecentEntries(entries, now - OneMinuteMs);
      if |recent| >= RecentLimit {
        return Thrown(TooManyMessage);
      }
      entries := entries + [Entry(normalized, None, now)];
      return Returned(OnTheList);
    }
  }
}
