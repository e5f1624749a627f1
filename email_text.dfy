/** The e-mail text checks both waitlist routes perform: normalisation
    (`toLowerCase().trim()`), the control-character test `/[\x00-\x1f\x7f]/`,
    the shape test `/^[^\s@]+@[^\s@]+\.[^\s@]+$/`, `split("@")[1]` and the
    trailing-dot strip `replace(/\.+$/, "")`. */
module EmailText {
  import opened Json

  // ---------------------------------------------------------------------
  // Character classes
  // ---------------------------------------------------------------------

  /** The characters JavaScript's `\s` matches and `trim` removes:
      WhiteSpace and LineTerminator of ECMAScript. */
  predicate IsWhitespace(c: char) {
    || c == ' ' || c == '\t' || c == '\n' || c == '\U{000B}' || c == '\U{000C}' || c == '\r'
    || c == '\U{00A0}' || c == '\U{1680}' || ('\U{2000}' <= c <= '\U{200A}')
    || c == '\U{2028}' || c == '\U{2029}' || c == '\U{202F}' || c == '\U{205F}'
    || c == '\U{3000}' || c == '\U{FEFF}'
  }

  /** The class `[\x00-\x1f\x7f]`. */
  predicate IsControl(c: char) {
    c <= '\U{001F}' || c == '\U{007F}'
  }

  predicate IsUpper(c: char) {
    'A' <= c <= 'Z'
  }

  /** A character of the regex class `[^\s@]`. */
  predicate PlainChar(c: char) {
    !IsWhitespace(c) && c != '@'
  }

  predicate AllWhitespace(w: string) {
    forall i :: 0 <= i < |w| ==> IsWhitespace(w[i])
  }

  predicate AllPlain(s: string) {
    forall i :: 0 <= i < |s| ==> PlainChar(s[i])
  }

  predicate NoUpper(s: string) {
    forall i :: 0 <= i < |s| ==> !IsUpper(s[i])
  }

  predicate NoWhitespace(s: string) {
    forall i :: 0 <= i < |s| ==> !IsWhitespace(s[i])
  }

  // ---------------------------------------------------------------------
  // Normalisation: email.toLowerCase().trim()
  // ---------------------------------------------------------------------

  function LowerChar(c: char): (d: char)
    ensures IsUpper(c) ==> d as int == c as int + 32
    ensures !IsUpper(c) ==> d == c
    ensures !IsUpper(d)
  {
    if IsUpper(c) then (c as int + 32) as char else c
  }

  /** `toLowerCase`, restricted to the ASCII letters. */
  function Lower(s: string): (r: string)
    ensures |r| == |s|
    ensures NoUpper(r)
    ensures forall i :: 0 <= i < |s| ==> r[i] == LowerChar(s[i])
    ensures forall i :: 0 <= i < |s| ==> (IsWhitespace(r[i]) <==> IsWhitespace(s[i]))
  {
    seq(|s|, i requires 0 <= i < |s| => LowerChar(s[i]))
  }

  function TrimStart(s: string): (r: string)
    ensures |r| <= |s| && r == s[|s| - |r|..]
    ensures r == [] || !IsWhitespace(r[0])
  {
    if |s| > 0 && IsWhitespace(s[0]) then TrimStart(s[1..]) else s
  }

  function TrimEnd(s: string): (r: string)
    ensures |r| <= |s| && r == s[..|r|]
    ensures r == [] || !IsWhitespace(r[|r| - 1])
  {
    if |s| > 0 && IsWhitespace(s[|s| - 1]) then TrimEnd(s[..|s| - 1]) else s
  }

  /** `trimStart` removes only white space. */
  lemma {:induction false} TrimStartRemovesWhitespace(s: string)
    ensures AllWhitespace(s[..|s| - |TrimStart(s)|])
  {
    if |s| > 0 && IsWhitespace(s[0]) {
      var r := TrimStart(s[1..]);
      TrimStartRemovesWhitespace(s[1..]);
      assert s[..|s| - |r|] == [s[0]] + s[1..][..|s| - 1 - |r|];
    }
  }

  /** `trimEnd` removes only white space. */
  lemma {:induction false} TrimEndRemovesWhitespace(s: string)
    ensures AllWhitespace(s[|TrimEnd(s)|..])
  {
    if |s| > 0 && IsWhitespace(s[|s| - 1]) {
      var r := TrimEnd(s[..|s| - 1]);
      TrimEndRemovesWhitespace(s[..|s| - 1]);
      assert s[|r|..] == s[..|s| - 1][|r|..] + [s[|s| - 1]];
    }
  }

  /** `trim`: no white space is left at either end. */
  function Trim(s: string): (r: string)
    ensures |r| <= |s|
    ensures r == [] || (!IsWhitespace(r[0]) && !IsWhitespace(r[|r| - 1]))
  {
    TrimEnd(TrimStart(s))
  }

  /** `trim` removes white space at the ends and nothing else: the result is
      a slice of the input with only white space before and after it. */
  lemma TrimIsInner(s: string)
    ensures exists a, b :: 0 <= a <= b <= |s| && Trim(s) == s[a..b] && AllWhitespace(s[..a]) && AllWhitespace(s[b..])
  {
    var t := TrimStart(s);
    var a := |s| - |t|;
    TrimStartRemovesWhitespace(s);
    var r := TrimEnd(t);
    TrimEndRemovesWhitespace(t);
    var b := a + |r|;
    assert t == s[a..] && r == t[..|r|];
    assert s[a..b] == s[a..][..|r|];
    assert s[b..] == t[|r|..];
  }

  /** `email.toLowerCase().trim()`. */
  function Normalize(s: string): (r: string)
    ensures |r| <= |s|
    ensures NoUpper(r)
    ensures r == [] || (!IsWhitespace(r[0]) && !IsWhitespace(r[|r| - 1]))
  {
    var l := Lower(s);
    TrimKeepsNoUpper(l);
    Trim(l)
  }

  /** The lookup key is the lower-cased input with the white space at its
      ends removed. */
  lemma NormalizeIsTrimmedLower(s: string)
    ensures exists a, b ::
      0 <= a <= b <= |s| && Normalize(s) == Lower(s)[a..b] && AllWhitespace(s[..a]) && AllWhitespace(s[b..])
  {
    var l := Lower(s);
    TrimIsInner(l);
    var a, b :| 0 <= a <= b <= |l| && Trim(l) == l[a..b] && AllWhitespace(l[..a]) && AllWhitespace(l[b..]);
    LowerKeepsWhitespace(s, a, b);
    assert Normalize(s) == l[a..b];
  }

  /** White space of the lower-cased text is white space of the input. */
  lemma LowerKeepsWhitespace(s: string, a: int, b: int)
    requires 0 <= a <= b <= |s|
    requires AllWhitespace(Lower(s)[..a]) && AllWhitespace(Lower(s)[b..])
    ensures AllWhitespace(s[..a]) && AllWhitespace(s[b..])
  {
    var l := Lower(s);
    forall k | 0 <= k < a ensures IsWhitespace(s[..a][k]) {
      assert l[..a][k] == l[k];
    }
    forall k | 0 <= k < |s| - b ensures IsWhitespace(s[b..][k]) {
      assert l[b..][k] == l[b + k];
    }
  }

  lemma TrimKeepsNoUpper(s: string)
    requires NoUpper(s)
    ensures NoUpper(Trim(s))
  {
    var t := TrimStart(s);
    assert NoUpper(t) by {
      forall i | 0 <= i < |t| ensures !IsUpper(t[i]) {
        assert t[i] == s[|s| - |t| + i];
      }
    }
    var r := TrimEnd(t);
    forall i | 0 <= i < |r| ensures !IsUpper(r[i]) {
      assert r[i] == t[i];
    }
  }

  /** `typeof email === "string" ? email.toLowerCase().trim() : ""`. */
  function NormalizeField(v: Value): (r: string)
    ensures v.Str? ==> |r| <= |v.s|
    ensures NoUpper(r)
    ensures r == [] || (!IsWhitespace(r[0]) && !IsWhitespace(r[|r| - 1]))
  {
    if v.Str? then Normalize(v.s) else ""
  }

  lemma LowerOfNoUpper(s: string)
    requires NoUpper(s)
    ensures Lower(s) == s
  {
  }

  lemma LowerAppend(a: string, b: string)
    ensures Lower(a + b) == Lower(a) + Lower(b)
  {
  }

  lemma LowerOfWhitespace(w: string)
    requires AllWhitespace(w)
    ensures Lower(w) == w
  {
  }

  lemma {:induction false} TrimStartDropsPrefix(w: string, x: string)
    requires AllWhitespace(w)
    ensures TrimStart(w + x) == TrimStart(x)
  {
    if w != [] {
      assert IsWhitespace((w + x)[0]);
      assert (w + x)[1..] == w[1..] + x;
      TrimStartDropsPrefix(w[1..], x);
      assert TrimStart(w + x) == TrimStart((w + x)[1..]);
    } else {
      assert w + x == x;
    }
  }

  lemma {:induction false} TrimEndDropsSuffix(x: string, w: string)
    requires AllWhitespace(w)
    ensures TrimEnd(x + w) == TrimEnd(x)
  {
    if w != [] {
      var n := |w| - 1;
      assert IsWhitespace((x + w)[|x + w| - 1]);
      assert (x + w)[..|x + w| - 1] == x + w[..n];
      TrimEndDropsSuffix(x, w[..n]);
    } else {
      assert x + w == x;
    }
  }

  lemma {:induction false} TrimOfPaddedRight(s: string, w: string)
    requires AllWhitespace(w)
    ensures TrimEnd(TrimStart(s + w)) == TrimEnd(TrimStart(s))
  {
    if s == [] {
      assert s + w == w;
      TrimStartDropsPrefix(w, []);
      assert w + [] == w;
    } else if IsWhitespace(s[0]) {
      assert (s + w)[1..] == s[1..] + w;
      TrimOfPaddedRight(s[1..], w);
    } else {
      TrimEndDropsSuffix(s, w);
    }
  }

  /** Inputs that differ only in letter case or surrounding white space
      normalise to the same lookup key. */
  lemma NormalizeIgnoresCaseAndPadding(a: string, b: string, w1: string, w2: string, w3: string, w4: string)
    requires Lower(a) == Lower(b)
    requires AllWhitespace(w1) && AllWhitespace(w2) && AllWhitespace(w3) && AllWhitespace(w4)
    ensures Normalize(w1 + a + w2) == Normalize(w3 + b + w4)
  {
    PaddingIsIgnored(a, w1, w2);
    PaddingIsIgnored(b, w3, w4);
  }

  lemma PaddingIsIgnored(a: string, w1: string, w2: string)
    requires AllWhitespace(w1) && AllWhitespace(w2)
    ensures Normalize(w1 + a + w2) == Normalize(a)
  {
    var x := Lower(a);
    LowerAppend(w1 + a, w2);
    LowerAppend(w1, a);
    LowerOfWhitespace(w1);
    LowerOfWhitespace(w2);
    assert Lower(w1 + a + w2) == w1 + (x + w2);
    TrimStartDropsPrefix(w1, x + w2);
    TrimOfPaddedRight(x, w2);
  }

  lemma TrimOfTrimmed(t: string)
    requires t == [] || (!IsWhitespace(t[0]) && !IsWhitespace(t[|t| - 1]))
    ensures Trim(t) == t
  {
  }

  /** Normalising twice changes nothing. */
  lemma NormalizeIdempotent(s: string)
    ensures Normalize(Normalize(s)) == Normalize(s)
  {
    var t := Normalize(s);
    LowerOfNoUpper(t);
    TrimOfTrimmed(t);
  }

  // ---------------------------------------------------------------------
  // The control-character test /[\x00-\x1f\x7f]/
  // ---------------------------------------------------------------------

  predicate HasControl(s: string) {
    exists i :: 0 <= i < |s| && IsControl(s[i])
  }

  // ---------------------------------------------------------------------
  // The shape test /^[^\s@]+@[^\s@]+\.[^\s@]+$/
  // ---------------------------------------------------------------------

  /** Every character other than the one at `i` is of the class `[^\s@]`. */
  predicate PlainOutside(s: string, i: int) {
    forall j :: 0 <= j < |s| && j != i ==> PlainChar(s[j])
  }

  /** A `.` after position `i + 1` that is not the last character. */
  predicate HasInnerDot(s: string, i: int) {
    exists k :: 0 <= i && i + 1 < k < |s| - 1 && s[k] == '.'
  }

  /** The shape test by positions: an `@` at `i` after at least one
      character, a `.` with at least one character between the two and at
      least one after it, and every other character of `[^\s@]`. */
  predicate MatchesShape(s: string) {
    exists i :: 0 < i < |s| && s[i] == '@' && PlainOutside(s, i) && HasInnerDot(s, i)
  }

  /** The pattern read piece by piece, anchored at both ends: a run of
      `[^\s@]`, `@`, a run of `[^\s@]`, `.`, a run of `[^\s@]`. Dots in the
      middle run are where backtracking leaves them. */
  predicate RegexShape(s: string) {
    exists i, k :: 0 < i && i + 1 < k < |s| - 1 && s[i] == '@' && s[k] == '.' &&
      AllPlain(s[..i]) && AllPlain(s[i + 1..k]) && AllPlain(s[k + 1..])
  }

  lemma RegexToPositions(s: string, i: int, k: int)
    requires 0 < i && i + 1 < k < |s| - 1 && s[i] == '@' && s[k] == '.'
    requires AllPlain(s[..i]) && AllPlain(s[i + 1..k]) && AllPlain(s[k + 1..])
    ensures PlainOutside(s, i) && HasInnerDot(s, i)
  {
    forall j | 0 <= j < |s| && j != i ensures PlainChar(s[j]) {
      if j < i {
        assert s[..i][j] == s[j];
      } else if j < k {
        assert s[i + 1..k][j - i - 1] == s[j];
      } else if j > k {
        assert s[k + 1..][j - k - 1] == s[j];
      }
    }
  }

  lemma PositionsToRegex(s: string, i: int, k: int)
    requires 0 < i && i + 1 < k < |s| - 1 && s[i] == '@' && s[k] == '.'
    requires PlainOutside(s, i)
    ensures AllPlain(s[..i]) && AllPlain(s[i + 1..k]) && AllPlain(s[k + 1..])
  {
    forall j | 0 <= j < i ensures PlainChar(s[..i][j]) {
      assert s[..i][j] == s[j];
    }
    var m := s[i + 1..k];
    forall j | 0 <= j < |m| ensures PlainChar(m[j]) {
      assert m[j] == s[i + 1 + j];
    }
    var t := s[k + 1..];
    forall j | 0 <= j < |t| ensures PlainChar(t[j]) {
      assert t[j] == s[k + 1 + j];
    }
  }

  /** The positional predicate is exactly the pattern's language. */
  lemma RegexShapeIff(s: string)
    ensures RegexShape(s) <==> MatchesShape(s)
  {
    if RegexShape(s) {
      var i, k :| 0 < i && i + 1 < k < |s| - 1 && s[i] == '@' && s[k] == '.' &&
        AllPlain(s[..i]) && AllPlain(s[i + 1..k]) && AllPlain(s[k + 1..]);
      RegexToPositions(s, i, k);
    }
    if MatchesShape(s) {
      var i :| 0 < i < |s| && s[i] == '@' && PlainOutside(s, i) && HasInnerDot(s, i);
      var k :| i + 1 < k < |s| - 1 && s[k] == '.';
      PositionsToRegex(s, i, k);
    }
  }

  /** The shape in words: no white space, exactly one `@` with at least one
      character before it, and after it a `.` that is neither the first nor
      the last character of the domain. */
  predicate ShapeInWords(s: string) {
    && NoWhitespace(s)
    && exists i :: 0 < i < |s| && s[i] == '@' && OnlyAt(s, i) && HasInnerDot(s, i)
  }

  /** `i` is the only position holding an `@`. */
  predicate OnlyAt(s: string, i: int) {
    forall j :: 0 <= j < |s| && s[j] == '@' ==> j == i
  }

  lemma ShapeIff(s: string)
    ensures MatchesShape(s) <==> ShapeInWords(s)
  {
    if MatchesShape(s) {
      var i :| 0 < i < |s| && s[i] == '@' && PlainOutside(s, i) && HasInnerDot(s, i);
      assert NoWhitespace(s) by {
        forall j | 0 <= j < |s| ensures !IsWhitespace(s[j]) {
          if j != i { assert PlainChar(s[j]); }
        }
      }
      assert OnlyAt(s, i) by {
        forall j | 0 <= j < |s| && j != i ensures s[j] != '@' {
          assert PlainChar(s[j]);
        }
      }
    }
    if ShapeInWords(s) {
      var i :| 0 < i < |s| && s[i] == '@' && OnlyAt(s, i) && HasInnerDot(s, i);
      assert PlainOutside(s, i) by {
        forall j | 0 <= j < |s| && j != i ensures PlainChar(s[j]) {
          assert !IsWhitespace(s[j]);
        }
      }
    }
  }

  /** The three guards both Next.js routes apply to the normalised email, in
      their order: non-empty and at most 254 characters, no control
      character, and the regex shape. */
  predicate IsWellFormed(e: string) {
    0 < |e| <= 254 && !HasControl(e) && MatchesShape(e)
  }

  // ---------------------------------------------------------------------
  // Domain extraction: split("@")[1] and replace(/\.+$/, "")
  // ---------------------------------------------------------------------

  /** No position of `s` holds `c`. */
  predicate Lacks(s: string, c: char) {
    forall j :: 0 <= j < |s| ==> s[j] != c
  }

  function IndexOf(s: string, c: char): (r: Option<nat>)
    ensures r.None? <==> Lacks(s, c)
    ensures r.Some? ==> r.value < |s| && s[r.value] == c && forall j :: 0 <= j < r.value ==> s[j] != c
  {
    if s == [] then None
    else if s[0] == c then Some(0)
    else match IndexOf(s[1..], c)
      case None =>
        assert forall j :: 1 <= j < |s| ==> s[j] == s[1..][j - 1];
        None
      case Some(j) =>
        assert forall m :: 1 <= m < |s| ==> s[m] == s[1..][m - 1];
        Some(j + 1)
  }

  /** `s.split("@")[1]`: the text between the first `@` and the next one (or
      the end); `undefined` when there is no `@`. */
  function SecondField(s: string): (r: Option<string>)
    ensures r.None? <==> Lacks(s, '@')
    ensures r.Some? ==> Lacks(r.value, '@')
    ensures r.Some? ==> IndexOf(s, '@').Some?
    ensures r.Some? ==> (
      var i := IndexOf(s, '@').value;
      && i + 1 + |r.value| <= |s|
      && r.value == s[i + 1..i + 1 + |r.value|]
      && (i + 1 + |r.value| == |s| || s[i + 1 + |r.value|] == '@'))
  {
    match IndexOf(s, '@')
    case None => None
    case Some(i) =>
      var rest := s[i + 1..];
      match IndexOf(rest, '@')
      case None => Some(rest)
      case Some(j) =>
        assert forall m :: 0 <= m < j ==> rest[..j][m] == rest[m];
        Some(rest[..j])
  }

  /** On a string of the regex's shape, `split("@")[1]` is the whole domain:
      the tail of the string after its only `@`, which follows a non-empty
      local part. */
  lemma ShapedSecondField(s: string)
    requires MatchesShape(s)
    ensures exists i :: 0 < i < |s| && s[i] == '@' && OnlyAt(s, i) && SecondField(s) == Some(s[i + 1..])
  {
    var i :| 0 < i < |s| && s[i] == '@' && PlainOutside(s, i) && HasInnerDot(s, i);
    assert IndexOf(s, '@') == Some(i);
    var rest := s[i + 1..];
    assert Lacks(rest, '@') by {
      forall j | 0 <= j < |rest| ensures rest[j] != '@' {
        assert rest[j] == s[i + 1 + j] && PlainChar(s[i + 1 + j]);
      }
    }
    assert OnlyAt(s, i) by {
      forall j | 0 <= j < |s| && j != i ensures s[j] != '@' {
        assert PlainChar(s[j]);
      }
    }
  }

  /** `replace(/\.+$/, "")`: the longest prefix that does not end in `.`, where
      everything removed is a dot. */
  function StripTrailingDots(d: string): (r: string)
    ensures |r| <= |d| && r == d[..|r|]
    ensures r == [] || r[|r| - 1] != '.'
    ensures forall k :: |r| <= k < |d| ==> d[k] == '.'
  {
    if |d| > 0 && d[|d| - 1] == '.' then StripTrailingDots(d[..|d| - 1]) else d
  }
}
