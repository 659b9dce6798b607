/**
 The regular expression `(\d{3,})(.{2,15})(PRIMARY|UNIQUE)` that
 `sqlCompatibility` runs with `Matcher.find()` to read the declared length
 of a PRIMARY KEY or UNIQUE column. The search is modelled as Java's
 backtracking matcher performs it: start positions are tried left to
 right, and at each start the digit group is greedy (longest first), then
 the `.{2,15}` group (longest first). Group 1 of the first match is
 therefore the longest feasible digit run at the leftmost feasible start.
 `\d` matches the ASCII digits only and `.` matches any character except
 the Java line terminators.
 */
module KeyLengthPattern {
  import opened JavaLang

  const MIN_DIGITS: nat := 3
  const MIN_GAP: nat := 2
  const MAX_GAP: nat := 15

  /** The characters `.` does not match without DOTALL. */
  predicate IsLineTerminator(c: char) {
    c == '\n' || c == '\r' || c == '\U{0085}' || c == '\U{2028}' || c == '\U{2029}'
  }

  /** `d` digits start at index `i`. */
  predicate DigitsAt(s: string, i: nat, d: nat) {
    i + d <= |s| && forall k :: i <= k < i + d ==> IsDigit(s[k])
  }

  /** `len` characters other than line terminators start at index `j`. */
  predicate GapAt(s: string, j: nat, len: nat) {
    j + len <= |s| && forall k :: j <= k < j + len ==> !IsLineTerminator(s[k])
  }

  predicate KeywordAt(s: string, j: nat) {
    OccursAt(s, "PRIMARY", j) || OccursAt(s, "UNIQUE", j)
  }

  /** The pattern matches at `i` with `d` digits and a gap of `len` characters. */
  predicate MatchesWith(s: string, i: nat, d: nat, len: nat) {
    && MIN_DIGITS <= d
    && MIN_GAP <= len <= MAX_GAP
    && DigitsAt(s, i, d)
    && GapAt(s, i + d, len)
    && KeywordAt(s, i + d + len)
  }

  /** Some gap length completes a match at `i` with `d` digits. */
  ghost predicate Feasible(s: string, i: nat, d: nat) {
    exists len :: MIN_GAP <= len <= MAX_GAP && MatchesWith(s, i, d, len)
  }

  /** Some match starts at `i`. */
  ghost predicate MatchStartsAt(s: string, i: nat) {
    exists d :: MIN_DIGITS <= d <= |s| && Feasible(s, i, d)
  }

  /** Tries the gap lengths `len`, `len - 1`, ..., 2 after the digits ending at `j`. */
  function TryGap(s: string, j: nat, len: nat): (ok: bool)
    requires len <= MAX_GAP
    ensures ok <==> exists l :: MIN_GAP <= l <= len && GapAt(s, j, l) && KeywordAt(s, j + l)
    decreases len
  {
    if len < MIN_GAP then false
    else if GapAt(s, j, len) && KeywordAt(s, j + len) then true
    else TryGap(s, j, len - 1)
  }

  /** The length of the run of digits starting at `i`. */
  function DigitRun(s: string, i: nat): (n: nat)
    requires i <= |s|
    ensures DigitsAt(s, i, n)
    ensures i + n == |s| || !IsDigit(s[i + n])
    decreases |s| - i
  {
    if i == |s| || !IsDigit(s[i]) then 0 else 1 + DigitRun(s, i + 1)
  }

  lemma DigitsWithinRun(s: string, i: nat, d: nat)
    requires i <= |s|
    ensures DigitsAt(s, i, d) <==> d <= DigitRun(s, i)
  {
    var n := DigitRun(s, i);
    if d > n && i + d <= |s| {
      assert i <= i + n < i + d;
    }
  }

  lemma FeasibleByGap(s: string, i: nat, d: nat)
    requires MIN_DIGITS <= d && DigitsAt(s, i, d)
    ensures Feasible(s, i, d) <==> TryGap(s, i + d, MAX_GAP)
  {
    if TryGap(s, i + d, MAX_GAP) {
      var l :| MIN_GAP <= l <= MAX_GAP && GapAt(s, i + d, l) && KeywordAt(s, i + d + l);
      assert MatchesWith(s, i, d, l);
    }
  }

  /**
   Backtracks over the digit count `d`, `d - 1`, ..., 3 at start `i`: the
   first count that admits a gap is the longest feasible one up to `d`.
   */
  function TryDigits(s: string, i: nat, d: nat): (r: Option<nat>)
    requires DigitsAt(s, i, d)
    ensures r.Some? ==> MIN_DIGITS <= r.value <= d && Feasible(s, i, r.value)
    ensures r.Some? ==> forall d' :: r.value < d' <= d ==> !Feasible(s, i, d')
    ensures r.None? ==> forall d': nat :: d' <= d ==> !Feasible(s, i, d')
    decreases d
  {
    if d < MIN_DIGITS then None
    else if TryGap(s, i + d, MAX_GAP) then
      FeasibleByGap(s, i, d);
      Some(d)
    else
      FeasibleByGap(s, i, d);
      assert DigitsAt(s, i, d - 1);
      TryDigits(s, i, d - 1)
  }

  /** Tries the pattern at `i` with the greedy digit group. */
  function TryStart(s: string, i: nat): (r: Option<nat>)
    requires i <= |s|
    ensures r.Some? ==> Feasible(s, i, r.value) && forall d' :: r.value < d' ==> !Feasible(s, i, d')
    ensures r.None? ==> !MatchStartsAt(s, i)
  {
    var run := DigitRun(s, i);
    var r := TryDigits(s, i, run);
    forall d' | run < d' ensures !Feasible(s, i, d') {
      DigitsWithinRun(s, i, d');
    }
    r
  }

  /**
   `Matcher.find()` from index `i`: the leftmost start at or after `i` where
   the pattern matches, with the digit count Java's backtracking picks.
   */
  function FindFrom(s: string, i: nat): (r: Option<(nat, nat)>)
    requires i <= |s|
    ensures r.Some? ==> var (start, d) := r.value;
      && i <= start
      && Feasible(s, start, d)
      && (forall st :: i <= st < start ==> !MatchStartsAt(s, st))
      && (forall d' :: d < d' ==> !Feasible(s, start, d'))
    ensures r.None? ==> forall st :: i <= st <= |s| ==> !MatchStartsAt(s, st)
    decreases |s| - i
  {
    match TryStart(s, i)
    case Some(d) => Some((i, d))
    case None => if i == |s| then None else FindFrom(s, i + 1)
  }

  /**
   Group 1 of the first match, or None when `find()` fails. A match is
   found iff one exists anywhere in `s`; the returned group is a run of at
   least three digits at the leftmost start, as long as a match allows.
   */
  function FirstKeyLength(s: string): (g: Option<string>)
    ensures g.None? <==> forall st :: 0 <= st <= |s| ==> !MatchStartsAt(s, st)
    ensures g.Some? ==> exists start :: 0 <= start <= |s| && IsFirstMatch(s, start, |g.value|) && g.value == s[start..start + |g.value|]
  {
    match FindFrom(s, 0)
    case Some((start, d)) =>
      assert MatchStartsAt(s, start);
      assert IsFirstMatch(s, start, d);
      Some(s[start..start + d])
    case None => None
  }

  /**
   The match Java's `find()` reports: `d` digits at `start`, no match at any
   earlier start, and no longer digit group at `start`.
   */
  ghost predicate IsFirstMatch(s: string, start: nat, d: nat) {
    && Feasible(s, start, d)
    && (forall st :: 0 <= st < start ==> !MatchStartsAt(s, st))
    && (forall d' :: d < d' ==> !Feasible(s, start, d'))
  }

  /** The group is a run of at least three ASCII digits, so `Integer.valueOf` always has digits to read. */
  lemma FirstKeyLengthIsDigits(s: string)
    ensures FirstKeyLength(s).Some? ==> |FirstKeyLength(s).value| >= MIN_DIGITS && AllDigits(FirstKeyLength(s).value)
  {
    if FirstKeyLength(s).None? {
      return;
    }
    var g := FirstKeyLength(s).value;
    var start :| 0 <= start <= |s| && IsFirstMatch(s, start, |g|) && g == s[start..start + |g|];
    var len :| MIN_GAP <= len <= MAX_GAP && MatchesWith(s, start, |g|, len);
  }
}
