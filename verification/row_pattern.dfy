/**
 * The leftmost match of the regular expression `([0-9]*)\.([0-9]*)` in a row's text,
 * as `Matcher.find()` reports it (ImdbTvShowParser.java, lines 321 and 327-328).
 *
 * At a start position the greedy `[0-9]*` can only succeed with the whole run of
 * digits there (a shorter run leaves a digit, not a dot, next), so a match starts at
 * `i` exactly when the digit run from `i` is followed by a dot. Both groups may be
 * empty.
 */
module RowPattern {
  import opened Wrappers
  import opened JavaText

  /** The end of the run of digits that starts at `i`. */
  function DigitRunEnd(s: string, i: nat): (j: nat)
    requires i <= |s|
    ensures i <= j <= |s|
    ensures forall k :: i <= k < j ==> IsDigit(s[k])
    ensures j == |s| || !IsDigit(s[j])
    decreases |s| - i
  {
    if i < |s| && IsDigit(s[i]) then DigitRunEnd(s, i + 1) else i
  }

  /** The pattern matches at start position `i`. */
  predicate MatchesAt(s: string, i: nat)
    requires i <= |s|
  {
    DigitRunEnd(s, i) < |s| && s[DigitRunEnd(s, i)] == '.'
  }

  /** A match: where it starts and the text of its two groups. */
  datatype RowMatch = RowMatch(start: nat, season: string, episode: string)

  /** The match found at start position `i`: the digits before the dot and the digits after it. */
  function MatchAt(s: string, i: nat): RowMatch
    requires i <= |s| && MatchesAt(s, i)
  {
    var dot := DigitRunEnd(s, i);
    RowMatch(i, s[i..dot], s[dot + 1..DigitRunEnd(s, dot + 1)])
  }

  /** The first match at a start position `i` or later. */
  function FindFrom(s: string, i: nat): (r: Option<RowMatch>)
    requires i <= |s|
    ensures r.Some? ==> i <= r.value.start <= |s| && MatchesAt(s, r.value.start)
                        && r == Some(MatchAt(s, r.value.start))
    ensures r.Some? ==> forall k :: i <= k < r.value.start ==> !MatchesAt(s, k)
    ensures r.None? <==> forall k :: i <= k <= |s| ==> !MatchesAt(s, k)
    decreases |s| - i
  {
    if MatchesAt(s, i) then Some(MatchAt(s, i))
    else if i == |s| then None
    else FindFrom(s, i + 1)
  }

  /** `matcher.find()` on a fresh matcher: the leftmost match. */
  function Find(s: string): Option<RowMatch> {
    FindFrom(s, 0)
  }

  /** Both groups of any match consist of ASCII digits only. */
  lemma GroupsAreDigits(s: string)
    requires Find(s).Some?
    ensures AllDigits(Find(s).value.season) && AllDigits(Find(s).value.episode)
  {
    var m := Find(s).value;
    var dot := DigitRunEnd(s, m.start);
    assert forall k :: 0 <= k < |m.season| ==> m.season[k] == s[m.start + k];
    assert forall k :: 0 <= k < |m.episode| ==> m.episode[k] == s[dot + 1 + k];
  }

  /** A run of digits ending at `j` (end of text or a non-digit) is the whole run. */
  lemma RunEndsAt(s: string, i: nat, j: nat)
    requires i <= j <= |s|
    requires forall k :: i <= k < j ==> IsDigit(s[k])
    requires j == |s| || !IsDigit(s[j])
    ensures DigitRunEnd(s, i) == j
  {
  }

  /** A match at `p` with none before it is the leftmost one. */
  lemma LeftmostAt(s: string, p: nat)
    requires p <= |s| && MatchesAt(s, p)
    requires forall k :: 0 <= k < p ==> !MatchesAt(s, k)
    ensures Find(s) == Some(MatchAt(s, p))
  {
  }

  /** No match can start before `p` when the text before `p` has no dot and does not end in a digit. */
  lemma NoMatchBefore(s: string, p: nat)
    requires p <= |s|
    requires forall k :: 0 <= k < p ==> s[k] != '.'
    requires p == 0 || !IsDigit(s[p - 1])
    ensures forall k :: 0 <= k < p ==> !MatchesAt(s, k)
  {
    forall k | 0 <= k < p
      ensures !MatchesAt(s, k)
    {
      assert DigitRunEnd(s, k) < p;
    }
  }

  /**
   * A text laid out as: no dot before `p` and no digit just before it, digits up to a
   * dot at `dot`, then digits up to `end` and no digit at `end`, has its leftmost
   * match at `p` with groups `s[p..dot]` and `s[dot + 1..end]`.
   */
  lemma ShapedMatch(s: string, p: nat, dot: nat, end: nat)
    requires p <= dot < end <= |s|
    requires forall k :: 0 <= k < p ==> s[k] != '.'
    requires p == 0 || !IsDigit(s[p - 1])
    requires forall k :: p <= k < dot ==> IsDigit(s[k])
    requires s[dot] == '.'
    requires forall k :: dot < k < end ==> IsDigit(s[k])
    requires end == |s| || !IsDigit(s[end])
    ensures Find(s) == Some(RowMatch(p, s[p..dot], s[dot + 1..end]))
  {
    RunEndsAt(s, p, dot);
    RunEndsAt(s, dot + 1, end);
    NoMatchBefore(s, p);
    LeftmostAt(s, p);
  }

  /**
   * A text laid out as `prefix + S + "." + E + suffix`, with S and E runs of digits
   * (possibly empty), has its leftmost match exactly on "S.E", provided the prefix
   * holds no dot and does not end in a digit and the suffix does not start with a
   * digit.
   */
  lemma NumberedText(prefix: string, ds: string, de: string, suffix: string)
    requires forall k :: 0 <= k < |prefix| ==> prefix[k] != '.'
    requires prefix == [] || !IsDigit(prefix[|prefix| - 1])
    requires AllDigits(ds) && AllDigits(de)
    requires suffix == [] || !IsDigit(suffix[0])
    ensures Find(prefix + ds + "." + de + suffix) == Some(RowMatch(|prefix|, ds, de))
  {
    var a := prefix + ds;
    var b := a + ".";
    var c := b + de;
    var s := c + suffix;
    var p, dot, end := |prefix|, |a|, |c|;
    assert forall k :: 0 <= k < |c| ==> s[k] == c[k];
    assert forall k :: 0 <= k < |b| ==> c[k] == b[k];
    assert forall k :: 0 <= k < |a| ==> b[k] == a[k];
    assert forall k :: 0 <= k < p ==> a[k] == prefix[k];
    assert forall k :: p <= k < dot ==> a[k] == ds[k - p];
    assert forall k :: dot < k < end ==> c[k] == de[k - dot - 1];
    assert end < |s| ==> s[end] == suffix[0];
    assert s[p..dot] == ds;
    assert s[dot + 1..end] == de;
    ShapedMatch(s, p, dot, end);
  }

  /**
   * The leftmost match of a title such as "Pilot. 1.1" is the lone dot after
   * "Pilot", with two empty groups, not the episode number that follows.
   */
  lemma PilotTitleMatch()
    ensures Find("Pilot. 1.1") == Some(RowMatch(5, "", ""))
  {
    NumberedText("Pilot", "", "", " 1.1");
    assert "Pilot" + "" + "." + "" + " 1.1" == "Pilot. 1.1";
  }
}
