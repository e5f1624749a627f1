/** Where the Next.js join route and the Convex mutation answer the same
    email differently. */
module Divergence {
  import opened Json
  import opened EmailText
  import J = JoinRoute
  import C = ConvexWaitlist

  /** Both implementations block the same five domains. */
  lemma SameBlockedDomains()
    ensures forall d :: d in C.Blocked <==> d in J.BlockedDomains
  {
  }

  /** A lowercase email passing the shape test is its own normalisation in
      both implementations. */
  lemma ShapedLowercaseIsNormal(e: string)
    requires MatchesShape(e) && NoUpper(e)
    ensures Normalize(e) == e && NormalizeField(Str(e)) == e
  {
    C.ShapedNormalizeIsLower(e);
    LowerOfNoUpper(e);
  }

  /** The Convex mutation on a shaped email is its steps after the shape test. */
  lemma ConvexPastShape(entries: seq<C.Entry>, e: string, now: int)
    requires MatchesShape(e)
    ensures C.ConvexJoin(entries, e, None, now) == C.Admit(entries, Normalize(e), now)
  {
  }

  /** A new email whose domain is not in the Convex list, with room in the
      window, is signed up by the Convex mutation. */
  lemma ConvexSignsUp(entries: seq<C.Entry>, e: string, now: int)
    requires SecondField(e).Some? && SecondField(e).value !in C.Blocked
    requires !C.HasEntry(entries, e)
    requires |C.RecentEntries(entries, now - C.OneMinuteMs)| < C.RecentLimit
    ensures C.Admit(entries, e, now) == (C.Returned(C.OnTheList), entries + [C.Entry(e, None, now)])
  {
  }

  lemma BlockedIsNonEmpty(d: string)
    requires d in J.BlockedDomains
    ensures 0 < |d| <= 253
  {
  }

  /** No entry of the Convex list ends in a dot. */
  lemma DotNotBlocked(d: string)
    requires d != [] && d[|d| - 1] == '.'
    ensures d !in C.Blocked
  {
  }

  /** A domain with trailing dots whose stripped form is blocked: the Next.js
      route strips the dots and refuses the email as disposable, while the
      Convex mutation compares the unstripped domain with its list and signs
      the email up. `e` is sent to the Convex mutation as it is, and to the
      Next.js route in any form that normalises to it (`e` itself among
      them); `a@mailinator.com.` is one such email. */
  lemma TrailingDotEvadesConvexBlock(entries: seq<C.Entry>, b: J.Body, e: string, now: int)
    requires NormalizeField(b.email) == e && J.Fresh(b.timestamp, now)
    requires IsWellFormed(e) && NoUpper(e)
    requires J.DomainOf(e).Some? && J.DomainOf(e).value in J.BlockedDomains
    requires SecondField(e).Some? && SecondField(e).value != []
    requires SecondField(e).value[|SecondField(e).value| - 1] == '.'
    requires !C.HasEntry(entries, e)
    requires |C.RecentEntries(entries, now - C.OneMinuteMs)| < C.RecentLimit
    ensures J.Validate(b, now) == J.Refused(J.Disposable)
    ensures C.ConvexJoin(entries, e, None, now) == (C.Returned(C.OnTheList), entries + [C.Entry(e, None, now)])
  {
    TrailingDotBlockedByNext(b, e, now);
    DotNotBlocked(SecondField(e).value);
    ConvexSignsUpShaped(entries, e, now);
  }

  lemma TrailingDotBlockedByNext(b: J.Body, e: string, now: int)
    requires NormalizeField(b.email) == e && J.Fresh(b.timestamp, now)
    requires IsWellFormed(e)
    requires J.DomainOf(e).Some? && J.DomainOf(e).value in J.BlockedDomains
    ensures J.Validate(b, now) == J.Refused(J.Disposable)
  {
    BlockedIsNonEmpty(J.DomainOf(e).value);
    J.DisposableIsRefused(b, now);
  }

  /** A new lowercase shaped email whose domain is not in the Convex list,
      with room in the window, is signed up by the Convex mutation. */
  lemma ConvexSignsUpShaped(entries: seq<C.Entry>, e: string, now: int)
    requires MatchesShape(e) && NoUpper(e)
    requires SecondField(e).Some? && SecondField(e).value !in C.Blocked
    requires !C.HasEntry(entries, e)
    requires |C.RecentEntries(entries, now - C.OneMinuteMs)| < C.RecentLimit
    ensures C.ConvexJoin(entries, e, None, now) == (C.Returned(C.OnTheList), entries + [C.Entry(e, None, now)])
  {
    ShapedLowercaseIsNormal(e);
    ConvexPastShape(entries, e, now);
    ConvexSignsUp(entries, e, now);
  }

  /** A control character in an otherwise well-shaped email: the Next.js
      route refuses it as invalid, while the Convex shape test lets it through
      and the mutation signs it up. `e` is sent as in the lemma above;
      `a\u0001@x.io` is one such email. */
  lemma ControlCharacterPassesConvex(entries: seq<C.Entry>, b: J.Body, e: string, now: int)
    requires NormalizeField(b.email) == e && J.Fresh(b.timestamp, now)
    requires MatchesShape(e) && NoUpper(e) && HasControl(e)
    requires SecondField(e).Some? && SecondField(e).value !in C.Blocked
    requires !C.HasEntry(entries, e)
    requires |C.RecentEntries(entries, now - C.OneMinuteMs)| < C.RecentLimit
    ensures J.Validate(b, now) == J.Refused(J.InvalidEmail)
    ensures C.ConvexJoin(entries, e, None, now) == (C.Returned(C.OnTheList), entries + [C.Entry(e, None, now)])
  {
    J.MalformedIsInvalid(b, now);
    ConvexSignsUpShaped(entries, e, now);
  }

  /** Leading whitespace: the Next.js route trims it before its tests and
      answers the padded email exactly as the bare one, while the Convex
      mutation runs its shape test first and refuses the padded email. */
  lemma PaddingFailsConvexShape(entries: seq<C.Entry>, e: string, w: string, website: Option<string>, body: J.Body, now: int)
    requires w != [] && AllWhitespace(w)
    requires !TruthyOptional(website)
    requires body.email == Str(e)
    ensures C.ConvexJoin(entries, w + e, website, now) == (C.Thrown(C.InvalidMessage), entries)
    ensures J.Validate(body.(email := Str(w + e)), now) == J.Validate(body, now)
  {
    assert IsWhitespace((w + e)[0]);
    PaddingIsIgnored(e, w, "");
    assert w + e + "" == w + e;
    J.ValidateSeesNormalizedEmail(body.(email := Str(w + e)), body, now);
  }
}
