/**
 * The link a requirement description carries: what Python's
 * `re.search(r" \(\[.*]\((.*)\)\)", s).group(1)` returns.
 *
 * The pattern is " ([", then any run of characters other than a newline,
 * then "](", then the captured run (again without a newline), then "))".
 * `re.search` takes the leftmost start; at that start both `.*` are greedy,
 * so the engine keeps the longest first run that still lets the rest match,
 * and then the longest captured run. `IsMatch` states the pattern,
 * `IsSearchResult` the choice, and `Link` computes it by a plain search.
 */
module LinkSearch {
  import opened Results
  import opened Text

  const LinkOpen: string := " (["
  const LinkMid: string := "]("
  const LinkClose: string := "))"

  /** No newline in `s[lo..hi]`: Python's `.` matches anything else. */
  predicate NoNewline(s: string, lo: int, hi: int) {
    forall t :: lo <= t < hi && 0 <= t < |s| ==> s[t] != '\n'
  }

  /**
   * The pattern matches `s[i..k + 2]`, the first `.*` spanning `s[i + 3..j]`
   * and the captured group spanning `s[j + 2..k]`.
   */
  predicate IsMatch(s: string, i: int, j: int, k: int) {
    Occurs(s, LinkOpen, i) && i + 3 <= j && Occurs(s, LinkMid, j) && j + 2 <= k && Occurs(s, LinkClose, k)
    && NoNewline(s, i + 3, j) && NoNewline(s, j + 2, k)
  }

  /** The match `re.search` reports: leftmost start, then longest first run, then longest group. */
  ghost predicate IsSearchResult(s: string, i: int, j: int, k: int) {
    && IsMatch(s, i, j, k)
    && (forall i', j', k' :: i' < i ==> !IsMatch(s, i', j', k'))
    && (forall j', k' :: j < j' ==> !IsMatch(s, i, j', k'))
    && (forall k' :: k < k' ==> !IsMatch(s, i, j, k'))
  }

  /** The search result, when there is one, is unique. */
  lemma SearchResultUnique(s: string, i: int, j: int, k: int, i': int, j': int, k': int)
    requires IsSearchResult(s, i, j, k) && IsSearchResult(s, i', j', k')
    ensures i == i' && j == j' && k == k'
  {
  }

  /** The end of the line that starts at `p`: the first newline at or after `p`, or `|s|`. */
  function LineEnd(s: string, p: nat): (e: nat)
    requires p <= |s|
    ensures p <= e <= |s| && NoNewline(s, p, e)
    ensures e < |s| ==> s[e] == '\n'
    decreases |s| - p
  {
    if p == |s| || s[p] == '\n' then p else LineEnd(s, p + 1)
  }

  /** A match from `i` whose delimiters all lie before the line end `e`. */
  predicate LineMatch(s: string, i: int, e: int, j: int, k: int) {
    i + 3 <= j && Occurs(s, LinkMid, j) && j + 2 <= k && Occurs(s, LinkClose, k) && k + 2 <= e
  }

  /** Once " ([" is found at `i`, the rest of the pattern must fit on the same line. */
  lemma MatchOnLine(s: string, i: int, j: int, k: int)
    requires Occurs(s, LinkOpen, i)
    ensures IsMatch(s, i, j, k) <==> LineMatch(s, i, LineEnd(s, i + 3), j, k)
  {
    var e := LineEnd(s, i + 3);
    if IsMatch(s, i, j, k) {
      OccursChar(s, LinkMid, j, 0);
      OccursChar(s, LinkMid, j, 1);
      OccursChar(s, LinkClose, k, 0);
      OccursChar(s, LinkClose, k, 1);
      assert NoNewline(s, i + 3, k + 2);
    }
  }

  /** The last position in `[lo, hi]` where `pat` occurs. */
  function LastOccurrence(s: string, pat: string, lo: int, hi: int): (r: Option<nat>)
    requires 0 <= lo
    ensures r.Some? ==> lo <= r.value <= hi && Occurs(s, pat, r.value)
    ensures r.Some? ==> forall k :: r.value < k <= hi ==> !Occurs(s, pat, k)
    ensures r.None? ==> forall k :: lo <= k <= hi ==> !Occurs(s, pat, k)
    decreases hi - lo + 1
  {
    if hi < lo then None
    else if Occurs(s, pat, hi) then Some(hi)
    else LastOccurrence(s, pat, lo, hi - 1)
  }

  /**
   * For a start `i` and line end `e`: the largest "](" position `j <= jhi`
   * that some "))" after it completes, with the largest such "))" position.
   */
  function LastMid(s: string, i: nat, e: int, jhi: int): (r: Option<(nat, nat)>)
    ensures r.Some? ==> LineMatch(s, i, e, r.value.0, r.value.1) && r.value.0 <= jhi
    ensures r.Some? ==> forall j', k' :: r.value.0 < j' <= jhi ==> !LineMatch(s, i, e, j', k')
    ensures r.Some? ==> forall k' :: r.value.1 < k' ==> !LineMatch(s, i, e, r.value.0, k')
    ensures r.None? ==> forall j', k' :: j' <= jhi ==> !LineMatch(s, i, e, j', k')
    decreases jhi - i
  {
    if jhi < i + 3 then None
    else
      var close := LastOccurrence(s, LinkClose, jhi + 2, e - 2);
      if Occurs(s, LinkMid, jhi) && close.Some? then Some((jhi, close.value))
      else LastMid(s, i, e, jhi - 1)
  }

  /** The greedy choice among the matches that start at `i`. */
  function BestAt(s: string, i: nat): (r: Option<(nat, nat)>)
    requires i + 3 <= |s|
    ensures r.Some? ==> IsMatch(s, i, r.value.0, r.value.1)
    ensures r.Some? ==> forall j', k' :: r.value.0 < j' ==> !IsMatch(s, i, j', k')
    ensures r.Some? ==> forall k' :: r.value.1 < k' ==> !IsMatch(s, i, r.value.0, k')
    ensures r.None? ==> forall j', k' :: !IsMatch(s, i, j', k')
  {
    if !Occurs(s, LinkOpen, i) then None
    else
      var e := LineEnd(s, i + 3);
      var r := LastMid(s, i, e, e - 2);
      assert forall j', k' :: IsMatch(s, i, j', k') <==> LineMatch(s, i, e, j', k') by {
        forall j', k' ensures IsMatch(s, i, j', k') <==> LineMatch(s, i, e, j', k') {
          MatchOnLine(s, i, j', k');
        }
      }
      r
  }

  /** The leftmost start at or after `i` with a match, and the greedy choice there. */
  function FirstMatch(s: string, i: nat): (r: Option<(nat, nat, nat)>)
    ensures r.Some? ==> i <= r.value.0 && IsMatch(s, r.value.0, r.value.1, r.value.2)
    ensures r.Some? ==> forall i', j', k' :: i <= i' < r.value.0 ==> !IsMatch(s, i', j', k')
    ensures r.Some? ==> forall j', k' :: r.value.1 < j' ==> !IsMatch(s, r.value.0, j', k')
    ensures r.Some? ==> forall k' :: r.value.2 < k' ==> !IsMatch(s, r.value.0, r.value.1, k')
    ensures r.None? ==> forall i', j', k' :: i <= i' ==> !IsMatch(s, i', j', k')
    decreases |s| - i
  {
    if i + 3 > |s| then None
    else
      match BestAt(s, i)
      case Some((j, k)) => Some((i, j, k))
      case None => FirstMatch(s, i + 1)
  }

  /**
   * `group(1)` of the search, or `None` when the pattern does not match:
   * `None` exactly when no match exists, otherwise the group of the match
   * `re.search` chooses.
   */
  function Link(s: string): (r: Option<string>)
    ensures r.None? <==> forall i, j, k :: !IsMatch(s, i, j, k)
    ensures r.Some? ==> exists i, j, k :: IsSearchResult(s, i, j, k) && 0 <= j + 2 <= k <= |s| && r.value == s[j + 2..k]
  {
    match FirstMatch(s, 0)
    case Some((i, j, k)) =>
      assert IsSearchResult(s, i, j, k);
      Some(s[j + 2..k])
    case None => None
  }

  /**
   * An extracted link `u` sits in the raw text after " ([", after a later
   * "](", and right before "))".
   */
  lemma LinkInRaw(s: string, u: string)
    requires Link(s) == Some(u)
    ensures exists i, j, k ::
              && Occurs(s, LinkOpen, i) && Occurs(s, LinkMid, j) && Occurs(s, LinkClose, k)
              && i + 3 <= j && j + 2 <= k && s[j + 2..k] == u
  {
    var i, j, k :| IsSearchResult(s, i, j, k) && 0 <= j + 2 <= k <= |s| && u == s[j + 2..k];
    assert IsMatch(s, i, j, k);
  }
}
