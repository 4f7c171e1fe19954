/**
 * The Python string operations the ASVS parser relies on: `int()` on a
 * plain digit string, `str()` of a non-negative int, `str.replace` with a
 * one-character pattern and an empty replacement, `str.partition(...)[2]`,
 * `str.rpartition(...)[2]`, `str.split(...)[0]` and `str.strip()`.
 */
module Text {
  import opened Results

  // ---------------------------------------------------------------------
  // Decimal numerals: `int(s)` and `str(n)`
  // ---------------------------------------------------------------------

  predicate IsDigit(c: char) {
    '0' <= c <= '9'
  }

  /** A non-empty string of ASCII digits; leading zeros are allowed, as `int()` allows them. */
  predicate IsDecimal(s: string) {
    |s| > 0 && forall t :: 0 <= t < |s| ==> IsDigit(s[t])
  }

  /** A decimal numeral without superfluous leading zeros: what `str(n)` prints. */
  predicate IsCanonicalDecimal(s: string) {
    IsDecimal(s) && (s[0] == '0' ==> |s| == 1)
  }

  function DigitValue(c: char): nat
    requires IsDigit(c)
  {
    c as int - '0' as int
  }

  function DigitChar(d: nat): char
    requires d < 10
  {
    ('0' as int + d) as char
  }

  /** The value of a digit string, most significant digit first. */
  function DigitsValue(s: string): nat
    requires forall t :: 0 <= t < |s| ==> IsDigit(s[t])
    decreases |s|
  {
    if s == [] then 0 else 10 * DigitsValue(s[..|s| - 1]) + DigitValue(s[|s| - 1])
  }

  /** `int(s)`, restricted to plain digit strings; `None` stands for `ValueError`. */
  function ParseDecimal(s: string): Option<nat>
  {
    if IsDecimal(s) then Some(DigitsValue(s)) else None
  }

  /** `str(n)` for a non-negative int. */
  function NatToString(n: nat): (r: string)
    ensures IsCanonicalDecimal(r)
    ensures r[0] == '0' <==> n == 0
    decreases n
  {
    if n < 10 then [DigitChar(n)] else NatToString(n / 10) + [DigitChar(n % 10)]
  }

  /** `int(str(n)) == n`. */
  lemma {:induction false} ParseNatToString(n: nat)
    ensures ParseDecimal(NatToString(n)) == Some(n)
    decreases n
  {
    var r := NatToString(n);
    if n < 10 {
      assert DigitValue(DigitChar(n)) == n;
      assert r[..0] == [];
    } else {
      ParseNatToString(n / 10);
      assert r[..|r| - 1] == NatToString(n / 10);
      assert DigitValue(DigitChar(n % 10)) == n % 10;
      assert DigitsValue(r) == 10 * (n / 10) + n % 10;
    }
  }

  /** `str(int(s)) == s` exactly when `s` has no superfluous leading zero. */
  lemma {:induction false} NatToStringOfCanonical(s: string)
    requires IsCanonicalDecimal(s)
    ensures NatToString(DigitsValue(s)) == s
    decreases |s|
  {
    if |s| > 1 {
      var p := s[..|s| - 1];
      assert IsCanonicalDecimal(p);
      NatToStringOfCanonical(p);
      var v := DigitsValue(p);
      assert v != 0;
      var d := DigitValue(s[|s| - 1]);
      assert DigitsValue(s) == 10 * v + d;
      assert (10 * v + d) / 10 == v && (10 * v + d) % 10 == d;
      assert s == p + [s[|s| - 1]];
    }
  }

  // ---------------------------------------------------------------------
  // Searching
  // ---------------------------------------------------------------------

  /** The index of the first `x` in `xs`, or `|xs|` when there is none. */
  function IndexOf<T(==)>(xs: seq<T>, x: T): (r: nat)
    ensures r <= |xs|
    ensures r < |xs| <==> x in xs
    ensures r < |xs| ==> xs[r] == x
    ensures forall k :: 0 <= k < r ==> xs[k] != x
  {
    if xs == [] then 0 else if xs[0] == x then 0 else 1 + IndexOf(xs[1..], x)
  }

  /** The index of the last `x` in `xs`, or `-1` when there is none. */
  function LastIndexOf<T(==)>(xs: seq<T>, x: T): (r: int)
    ensures -1 <= r < |xs|
    ensures r >= 0 ==> xs[r] == x
    ensures forall k :: r < k < |xs| ==> xs[k] != x
  {
    if xs == [] then -1
    else if xs[|xs| - 1] == x then |xs| - 1
    else LastIndexOf(xs[..|xs| - 1], x)
  }

  /** `pat` occurs in `s` at position `t`. */
  predicate Occurs(s: string, pat: string, t: int) {
    0 <= t && t + |pat| <= |s| && s[t..t + |pat|] == pat
  }

  lemma OccursChar(s: string, pat: string, t: int, m: int)
    requires Occurs(s, pat, t) && 0 <= m < |pat|
    ensures s[t + m] == pat[m]
  {
    assert s[t..t + |pat|][m] == s[t + m];
  }

  /** `s.find(pat, from)`: the first position at or after `from` where `pat` occurs. */
  function FindFrom(s: string, pat: string, from: nat): (r: Option<nat>)
    ensures r.Some? ==> from <= r.value && Occurs(s, pat, r.value)
    ensures r.Some? ==> forall t :: from <= t < r.value ==> !Occurs(s, pat, t)
    ensures r.None? ==> forall t :: from <= t ==> !Occurs(s, pat, t)
    decreases |s| - from
  {
    if from + |pat| > |s| then None
    else if Occurs(s, pat, from) then Some(from)
    else FindFrom(s, pat, from + 1)
  }

  // ---------------------------------------------------------------------
  // Slicing
  // ---------------------------------------------------------------------

  /** `s.replace(c, "")`: `s` with every `c` removed. */
  function RemoveAll(s: string, c: char): (r: string)
    ensures c !in r
    ensures |r| <= |s|
  {
    if s == [] then [] else (if s[0] == c then [] else [s[0]]) + RemoveAll(s[1..], c)
  }

  lemma {:induction false} RemoveAllAbsent(s: string, c: char)
    requires c !in s
    ensures RemoveAll(s, c) == s
  {
    if s != [] {
      RemoveAllAbsent(s[1..], c);
      assert s == [s[0]] + s[1..];
    }
  }

  /**
   * `replace(c, "")` works character by character: a single character
   * other than `c` is kept, `c` itself is dropped, and the result for a
   * concatenation is the concatenation of the results, so every other
   * character survives in order.
   */
  lemma {:induction false} RemoveAllAppend(a: string, b: string, c: char)
    ensures RemoveAll(a + b, c) == RemoveAll(a, c) + RemoveAll(b, c)
    decreases |a|
  {
    if a != [] {
      assert (a + b)[0] == a[0] && (a + b)[1..] == a[1..] + b;
      RemoveAllAppend(a[1..], b, c);
    } else {
      assert a + b == b;
    }
  }

  /** On one character, `replace(c, "")` drops it exactly when it is `c`. */
  lemma RemoveAllOne(x: char, c: char)
    ensures RemoveAll([x], c) == if x == c then [] else [x]
  {
  }

  /** `s.partition(c)[2]`: what follows the first `c`, or `""` when there is none. */
  function PartitionTail(s: string, c: char): string
  {
    var p := IndexOf(s, c);
    if p < |s| then s[p + 1..] else []
  }

  /** `s.rpartition(c)[2]`: what follows the last `c`, or all of `s` when there is none. */
  function RPartitionTail(s: string, c: char): string
  {
    s[LastIndexOf(s, c) + 1..]
  }

  lemma PartitionTailSplit(p: string, c: char, q: string)
    requires c !in p
    ensures PartitionTail(p + [c] + q, c) == q
  {
    var s := p + [c] + q;
    var i := IndexOf(s, c);
    assert s[|p|] == c;
    assert i == |p|;
    assert s[|p| + 1..] == q;
  }

  lemma PartitionTailAbsent(s: string, c: char)
    requires c !in s
    ensures PartitionTail(s, c) == []
  {
  }

  lemma RPartitionTailSplit(p: string, c: char, q: string)
    requires c !in q
    ensures RPartitionTail(p + [c] + q, c) == q
  {
    var s := p + [c] + q;
    var i := LastIndexOf(s, c);
    assert s[|p|] == c;
    assert i == |p|;
    assert s[|p| + 1..] == q;
  }

  lemma RPartitionTailAbsent(s: string, c: char)
    requires c !in s
    ensures RPartitionTail(s, c) == s
  {
  }

  /** `s.split(pat)[0]`: what precedes the first occurrence of `pat`, or all of `s`. */
  function SplitHead(s: string, pat: string): string
  {
    match FindFrom(s, pat, 0)
    case Some(t) => s[..t]
    case None => s
  }

  // ---------------------------------------------------------------------
  // Whitespace
  // ---------------------------------------------------------------------

  /** Python's `str.isspace` for one character. */
  predicate IsSpace(c: char) {
    ('\t' <= c <= '\r') || ('\U{1C}' <= c <= ' ') || c == '\U{85}' || c == '\U{A0}'
    || c == '\U{1680}' || ('\U{2000}' <= c <= '\U{200A}') || c == '\U{2028}' || c == '\U{2029}'
    || c == '\U{202F}' || c == '\U{205F}' || c == '\U{3000}'
  }

  predicate AllSpace(s: string) {
    forall t :: 0 <= t < |s| ==> IsSpace(s[t])
  }

  /** `s.lstrip()`. */
  function StripStart(s: string): string {
    if s != [] && IsSpace(s[0]) then StripStart(s[1..]) else s
  }

  /** `s.rstrip()`. */
  function StripEnd(s: string): string {
    if s != [] && IsSpace(s[|s| - 1]) then StripEnd(s[..|s| - 1]) else s
  }

  /** `s.strip()`. */
  function Strip(s: string): string {
    StripEnd(StripStart(s))
  }

  /** `lstrip` cuts a leading run of whitespace and nothing more. */
  lemma {:induction false} StripStartCuts(s: string)
    ensures var r := StripStart(s);
      |r| <= |s| && r == s[|s| - |r|..] && AllSpace(s[..|s| - |r|]) && (r == [] || !IsSpace(r[0]))
  {
    if s != [] && IsSpace(s[0]) {
      StripStartCuts(s[1..]);
      var r := StripStart(s);
      assert s[1..][|s| - 1 - |r|..] == s[|s| - |r|..];
      assert s[..|s| - |r|] == [s[0]] + s[1..][..|s| - 1 - |r|];
    }
  }

  /** `rstrip` cuts a trailing run of whitespace and nothing more. */
  lemma {:induction false} StripEndCuts(s: string)
    ensures var r := StripEnd(s);
      |r| <= |s| && r == s[..|r|] && AllSpace(s[|r|..]) && (r == [] || !IsSpace(r[|r| - 1]))
  {
    if s != [] && IsSpace(s[|s| - 1]) {
      StripEndCuts(s[..|s| - 1]);
      var r := StripEnd(s);
      assert s[..|s| - 1][..|r|] == s[..|r|];
      assert s[|r|..] == s[..|s| - 1][|r|..] + [s[|s| - 1]];
    }
  }

  /**
   * `s.strip()`: the result is `s` with a leading and a trailing run of
   * whitespace cut off, and it neither starts nor ends with whitespace.
   */
  lemma StripCuts(s: string)
    ensures var r := Strip(s);
      && (exists a :: 0 <= a && a + |r| <= |s| && r == s[a..a + |r|] && AllSpace(s[..a]) && AllSpace(s[a + |r|..]))
      && (r == [] || (!IsSpace(r[0]) && !IsSpace(r[|r| - 1])))
  {
    var m := StripStart(s);
    var r := StripEnd(m);
    StripStartCuts(s);
    StripEndCuts(m);
    var a := |s| - |m|;
    assert s[a..a + |r|] == r;
    assert s[a + |r|..] == m[|r|..];
  }
}
