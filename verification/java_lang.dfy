/**
 The small part of the Java platform the model relies on: `int` division
 and remainder (which truncate toward zero; the one overflowing case,
 `Integer.MIN_VALUE / -1`, is not modelled), the `String` methods
 `startsWith`, `contains` and `replace`, `StringUtils.join` from commons-lang
 (with a splitting inverse used to state its round trip), and the decimal
 conversions behind `Integer.valueOf` and `Integer.toString`.
 */
module JavaLang {

  datatype Option<+T> = None | Some(value: T)

  /** A value, or the exception a Java method would have thrown instead. */
  datatype Result<+T, +E> = Success(value: T) | Failure(error: E)

  /** `order` lists every key of a `HashMap`'s key set exactly once, as its iterator does. */
  predicate EnumeratesKeys<K(==)>(order: seq<K>, keys: set<K>) {
    && (forall i, j :: 0 <= i < j < |order| ==> order[i] != order[j])
    && (forall i :: 0 <= i < |order| ==> order[i] in keys)
    && (forall k :: k in keys ==> k in order)
  }

  // ---------------------------------------------------------------------
  // int arithmetic
  // ---------------------------------------------------------------------

  const INT_MIN: int := -0x8000_0000
  const INT_MAX: int := 0x7FFF_FFFF

  /** True iff `x` is representable as a Java `int`. */
  predicate InIntRange(x: int) {
    INT_MIN <= x <= INT_MAX
  }

  function Abs(x: int): nat {
    if x < 0 then -x else x
  }

  lemma NatDivNonneg(x: nat, y: nat)
    requires y > 0
    ensures x / y >= 0
  {
  }

  /**
   Java's `a / b` on integers: the quotient truncated toward zero. Java's
   `Integer.MIN_VALUE / -1` overflows back to `Integer.MIN_VALUE`; here it
   is 2^31. The model divides only 767 by the configured byte count, which
   cannot overflow.
   */
  function Div(a: int, b: int): (q: int)
    requires b != 0
    ensures Abs(q) == Abs(a) / Abs(b)
    ensures q != 0 ==> ((q < 0) <==> ((a < 0) != (b < 0)))
  {
    NatDivNonneg(Abs(a), Abs(b));
    if (a < 0) == (b < 0) then Abs(a) / Abs(b) else -(Abs(a) / Abs(b))
  }

  /** Java's `a % b` on integers: the remainder takes the sign of the dividend. */
  function Rem(a: int, b: int): (r: int)
    requires b != 0
    ensures Abs(r) < Abs(b)
    ensures a >= 0 ==> r >= 0
    ensures a <= 0 ==> r <= 0
  {
    if a >= 0 then a % Abs(b) else -((-a) % Abs(b))
  }

  /** Quotient and remainder reassemble the dividend, as the Java language requires. */
  lemma DivRemIdentity(a: int, b: int)
    requires b != 0
    ensures b * Div(a, b) + Rem(a, b) == a
  {
    var q, m := Abs(a) / Abs(b), Abs(a) % Abs(b);
    assert Abs(b) * q + m == Abs(a);
    if a >= 0 && b > 0 {
    } else if a >= 0 {
      assert b * (-q) == Abs(b) * q;
    } else if b > 0 {
      assert b * (-q) == -(Abs(b) * q);
    } else {
      assert b * q == -(Abs(b) * q);
    }
  }

  // ---------------------------------------------------------------------
  // String
  // ---------------------------------------------------------------------

  /** `s.startsWith(p)`. */
  predicate StartsWith(s: string, p: string) {
    |p| <= |s| && s[..|p|] == p
  }

  /** `p` occurs in `s` starting at index `k`. */
  predicate OccursAt(s: string, p: string, k: nat) {
    k + |p| <= |s| && s[k..k + |p|] == p
  }

  /** `s.contains(p)`. */
  predicate Contains(s: string, p: string) {
    exists k :: 0 <= k <= |s| && OccursAt(s, p, k)
  }

  lemma OccursAtShift(c: char, s: string, p: string, k: nat)
    ensures OccursAt([c] + s, p, k + 1) <==> OccursAt(s, p, k)
  {
    if k + |p| <= |s| {
      assert ([c] + s)[k + 1..k + 1 + |p|] == s[k..k + |p|];
    }
  }

  /**
   `s.replace(target, replacement)`: every non-overlapping occurrence of
   `target`, scanning left to right, is replaced. A target absent from `s`
   leaves it unchanged, which makes the `contains` test the source performs
   before calling `replace` redundant.
   */
  function Replace(s: string, target: string, replacement: string): (r: string)
    requires |target| > 0
    ensures !Contains(s, target) ==> r == s
    decreases |s|
  {
    if |s| < |target| then s
    else if s[..|target|] == target then
      assert OccursAt(s, target, 0);
      replacement + Replace(s[|target|..], target, replacement)
    else
      var rest := Replace(s[1..], target, replacement);
      assert !Contains(s, target) ==> !Contains(s[1..], target) by {
        if Contains(s[1..], target) {
          var k :| 0 <= k <= |s[1..]| && OccursAt(s[1..], target, k);
          assert s == [s[0]] + s[1..];
          OccursAtShift(s[0], s[1..], target, k);
        }
      }
      assert !Contains(s, target) ==> [s[0]] + rest == s;
      [s[0]] + rest
  }

  /**
   The replacement cannot reintroduce the target when: the target's first
   character does not recur later in the target, the replacement starts
   with that character, never repeats it, and does not itself begin with the
   target.
   */
  predicate CannotReintroduce(target: string, replacement: string) {
    && |target| > 0
    && (forall k :: 1 <= k < |target| ==> target[k] != target[0])
    && |replacement| >= |target|
    && replacement[0] == target[0]
    && (forall k :: 1 <= k < |replacement| ==> replacement[k] != target[0])
    && replacement[..|target|] != target
  }

  /** After `replace`, no occurrence of the target remains. */
  lemma {:induction false} ReplaceRemovesTarget(s: string, target: string, replacement: string)
    requires CannotReintroduce(target, replacement)
    ensures !Contains(Replace(s, target, replacement), target)
    decreases |s|
  {
    var r := Replace(s, target, replacement);
    if |s| < |target| {
      forall k | 0 <= k <= |r| ensures !OccursAt(r, target, k) { }
    } else if s[..|target|] == target {
      ReplaceRemovesTarget(s[|target|..], target, replacement);
      NoTargetAfterReplacement(replacement, Replace(s[|target|..], target, replacement), target);
    } else {
      ReplaceRemovesTarget(s[1..], target, replacement);
      NoTargetAfterSkipped(s, target, replacement);
    }
  }

  /** A replacement followed by target-free text holds no target. */
  lemma NoTargetAfterReplacement(replacement: string, tail: string, target: string)
    requires CannotReintroduce(target, replacement)
    requires !Contains(tail, target)
    ensures !Contains(replacement + tail, target)
  {
    var r := replacement + tail;
    forall k | 0 <= k <= |r| ensures !OccursAt(r, target, k) {
      if k == 0 {
        assert r[..|target|] == replacement[..|target|];
      } else if k < |replacement| {
        assert r[k] == replacement[k];
      } else if k + |target| <= |r| {
        assert r[k..k + |target|] == tail[k - |replacement|..k - |replacement| + |target|];
        assert !OccursAt(tail, target, k - |replacement|);
      }
    }
  }

  /** A character that does not start the target, kept before a target-free replacement, creates no target. */
  lemma NoTargetAfterSkipped(s: string, target: string, replacement: string)
    requires CannotReintroduce(target, replacement)
    requires |s| >= |target| && s[..|target|] != target
    requires !Contains(Replace(s[1..], target, replacement), target)
    ensures !Contains(Replace(s, target, replacement), target)
  {
    var r := Replace(s, target, replacement);
    var tail := Replace(s[1..], target, replacement);
    assert r == [s[0]] + tail;
    SkippedHeadNotTarget(s, target, replacement);
    forall k | 1 <= k <= |r| ensures !OccursAt(r, target, k) {
      OccursAtShift(s[0], tail, target, k - 1);
    }
  }

  /** The target can begin the replaced text only where it began the original. */
  lemma SkippedHeadNotTarget(s: string, target: string, replacement: string)
    requires CannotReintroduce(target, replacement)
    requires |s| >= |target|
    ensures OccursAt([s[0]] + Replace(s[1..], target, replacement), target, 0) ==> s[..|target|] == target
  {
    var tail := Replace(s[1..], target, replacement);
    var w := target[1..];
    if s[0] == target[0] && StartsWith(tail, w) {
      ReplacePreservesPrefix(s[1..], target, replacement, w);
      assert s[..|target|] == [s[0]] + s[1..][..|w|];
    }
  }

  lemma ReplaceStartsWithReplacement(t: string, target: string, replacement: string)
    requires |target| > 0 && StartsWith(t, target)
    ensures StartsWith(Replace(t, target, replacement), replacement)
  {
    assert t[..|target|] == target;
  }

  /**
   A prefix free of the target's first character appears at the front of
   the replaced text only if it was already at the front of the original.
   */
  lemma {:induction false} ReplacePreservesPrefix(t: string, target: string, replacement: string, w: string)
    requires CannotReintroduce(target, replacement)
    requires forall k :: 0 <= k < |w| ==> w[k] != target[0]
    requires StartsWith(Replace(t, target, replacement), w)
    ensures StartsWith(t, w)
    decreases |t|
  {
    if |w| == 0 || |t| < |target| {
    } else if t[..|target|] == target {
      ReplaceStartsWithReplacement(t, target, replacement);
      assert false;
    } else {
      var tail := Replace(t[1..], target, replacement);
      assert Replace(t, target, replacement) == [t[0]] + tail;
      assert StartsWith(tail, w[1..]) by {
        assert tail[..|w| - 1] == Replace(t, target, replacement)[1..|w|];
      }
      ReplacePreservesPrefix(t[1..], target, replacement, w[1..]);
      assert t[..|w|] == [t[0]] + t[1..][..|w| - 1];
    }
  }

  // ---------------------------------------------------------------------
  // StringUtils.join and its inverse
  // ---------------------------------------------------------------------

  /** `StringUtils.join(parts, sep)`: the parts with `sep` between neighbours. */
  function Join(parts: seq<string>, sep: string): (r: string)
    ensures |parts| > 0 ==> StartsWith(r, parts[0])
    ensures |parts| > 0 ==> |r| == TotalLength(parts) + (|parts| - 1) * |sep|
    ensures |parts| == 0 ==> r == ""
    decreases |parts|
  {
    if |parts| == 0 then ""
    else if |parts| == 1 then parts[0]
    else parts[0] + sep + Join(parts[1..], sep)
  }

  /** The combined length of `parts`. */
  function TotalLength(parts: seq<string>): nat
    decreases |parts|
  {
    if |parts| == 0 then 0 else |parts[0]| + TotalLength(parts[1..])
  }

  /** Splits `s` at every occurrence of `sep`, scanning left to right. */
  function Split(s: string, sep: string): (parts: seq<string>)
    requires |sep| > 0
    ensures |parts| >= 1
    decreases |s|
  {
    if |s| == 0 then [""]
    else if StartsWith(s, sep) then [""] + Split(s[|sep|..], sep)
    else
      var rest := Split(s[1..], sep);
      [[s[0]] + rest[0]] + rest[1..]
  }

  /** No character of `x` is `c`. */
  predicate Avoids(x: string, c: char) {
    forall k :: 0 <= k < |x| ==> x[k] != c
  }

  lemma {:induction false} SplitAfterPlainText(x: string, t: string, sep: string)
    requires |sep| > 0
    requires Avoids(x, sep[0])
    ensures Split(x + t, sep) == [x + Split(t, sep)[0]] + Split(t, sep)[1..]
    decreases |x|
  {
    if |x| == 0 {
      var parts := Split(t, sep);
      assert x + t == t;
      assert x + parts[0] == parts[0];
      assert parts == [parts[0]] + parts[1..];
    } else {
      assert (x + t)[1..] == x[1..] + t;
      assert !StartsWith(x + t, sep);
      SplitAfterPlainText(x[1..], t, sep);
      assert [x[0]] + (x[1..] + Split(t, sep)[0]) == x + Split(t, sep)[0];
    }
  }

  /** Joining parts that avoid the separator's first character and splitting again gives the parts back. */
  lemma {:induction false} SplitJoinRoundTrip(parts: seq<string>, sep: string)
    requires |sep| > 0 && |parts| > 0
    requires forall i :: 0 <= i < |parts| ==> Avoids(parts[i], sep[0])
    ensures Split(Join(parts, sep), sep) == parts
    decreases |parts|
  {
    if |parts| == 1 {
      SplitAfterPlainText(parts[0], "", sep);
      assert parts[0] + "" == parts[0];
    } else {
      var rest := Join(parts[1..], sep);
      assert Join(parts, sep) == parts[0] + (sep + rest);
      SplitAfterPlainText(parts[0], sep + rest, sep);
      assert StartsWith(sep + rest, sep);
      assert (sep + rest)[|sep|..] == rest;
      SplitJoinRoundTrip(parts[1..], sep);
      assert Split(sep + rest, sep) == [""] + parts[1..];
      assert parts[0] + "" == parts[0];
    }
  }

  /** Keeping the first part's head character outside the join. */
  lemma JoinHead(c: char, rest: seq<string>, sep: string)
    requires |rest| >= 1
    ensures Join([[c] + rest[0]] + rest[1..], sep) == [c] + Join(rest, sep)
  {
    var parts := [[c] + rest[0]] + rest[1..];
    if |rest| > 1 {
      assert parts[1..] == rest[1..];
    }
  }

  /**
   `String.replace` is splitting at the target, left to right, and joining
   the pieces with the replacement: every occurrence the scan meets is
   replaced and every other character is kept, in order.
   */
  lemma {:induction false} ReplaceIsJoinOfSplit(s: string, target: string, replacement: string)
    requires |target| > 0
    ensures Replace(s, target, replacement) == Join(Split(s, target), replacement)
    decreases |s|
  {
    if |s| == 0 {
    } else if StartsWith(s, target) {
      ReplaceIsJoinOfSplit(s[|target|..], target, replacement);
      var rest := Split(s[|target|..], target);
      var parts := [""] + rest;
      assert parts[1..] == rest;
      assert Join(parts, replacement) == "" + replacement + Join(rest, replacement);
    } else {
      ReplaceIsJoinOfSplit(s[1..], target, replacement);
      JoinHead(s[0], Split(s[1..], target), replacement);
      assert s == [s[0]] + s[1..];
    }
  }

  // ---------------------------------------------------------------------
  // Decimal conversions
  // ---------------------------------------------------------------------

  predicate IsDigit(c: char) {
    '0' <= c <= '9'
  }

  predicate AllDigits(s: string) {
    forall k :: 0 <= k < |s| ==> IsDigit(s[k])
  }

  function DigitValue(c: char): nat
    requires IsDigit(c)
  {
    (c as int) - ('0' as int)
  }

  /** The value of a string of decimal digits, most significant first. */
  function DecimalValue(s: string): nat
    requires AllDigits(s)
    decreases |s|
  {
    if |s| == 0 then 0 else 10 * DecimalValue(s[..|s| - 1]) + DigitValue(s[|s| - 1])
  }

  /**
   `Integer.valueOf` on a string of ASCII digits: the value, or None where
   Java throws NumberFormatException because the value exceeds `int`.
   */
  function ParseInt(s: string): (r: Option<int>)
    requires |s| > 0 && AllDigits(s)
    ensures r.Some? <==> DecimalValue(s) <= INT_MAX
    ensures r.Some? ==> r.value == DecimalValue(s) && InIntRange(r.value)
  {
    var v := DecimalValue(s);
    if v <= INT_MAX then Some(v) else None
  }

  function DigitChar(d: nat): (c: char)
    requires d < 10
    ensures IsDigit(c) && DigitValue(c) == d
  {
    ('0' as int + d) as char
  }

  /** The shortest decimal spelling of `n`. */
  function NatToString(n: nat): (s: string)
    ensures |s| > 0 && AllDigits(s)
    ensures DecimalValue(s) == n
    ensures |s| > 1 ==> s[0] != '0'
    decreases n
  {
    if n < 10 then [DigitChar(n)]
    else
      var prefix := NatToString(n / 10);
      var s := prefix + [DigitChar(n % 10)];
      assert s[..|s| - 1] == prefix;
      s
  }

  /** `Integer.toString(n)`, as used by string concatenation. */
  function IntToString(n: int): (s: string)
    ensures n >= 0 ==> |s| > 0 && AllDigits(s) && DecimalValue(s) == n
    ensures n >= 0 && |s| > 1 ==> s[0] != '0'
    ensures n < 0 ==> |s| > 1 && s[1] != '0'
    ensures n < 0 ==> |s| > 1 && s[0] == '-' && AllDigits(s[1..]) && DecimalValue(s[1..]) == -n
  {
    if n < 0 then
      var digits := NatToString(-n);
      assert ("-" + digits)[1..] == digits;
      "-" + digits
    else NatToString(n)
  }
}
