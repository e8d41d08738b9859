// The race-control panel (src/components/RaceControlPanel.tsx): the five most
// recent messages, chosen by sorting the caller's array newest first in place
// and keeping its first five, and the flag and category classifiers.

module RaceControlPanel {
  import opened Wrappers
  import opened Records
  import opened Ordering
  import opened Text

  const MaxMessages := 5

  /** The messages the panel lists: the first five of the newest-first order. */
  function RecentMessages(s: seq<RaceControl>): (r: seq<RaceControl>)
    ensures |r| == Min(MaxMessages, |s|)
  {
    SortDesc(RaceControlDate, s)[..Min(MaxMessages, |s|)]
  }

  /** In a newest-first list, every element of a prefix is at least as new
      as every element after it. */
  lemma PrefixIsNewest(sorted: seq<RaceControl>, n: nat)
    requires SortedDesc(RaceControlDate, sorted) && n <= |sorted|
    ensures forall x, y :: x in sorted[..n] && y in sorted[n..] ==> y.date <= x.date
  {
    forall x, y | x in sorted[..n] && y in sorted[n..]
      ensures y.date <= x.date
    {
      var i :| 0 <= i < n && sorted[..n][i] == x;
      var j :| 0 <= j < |sorted| - n && sorted[n..][j] == y;
      assert sorted[i] == x && sorted[n + j] == y;
    }
  }

  /** The listed messages are newest first, come from the input, and every
      message left out is no newer than any listed one. */
  lemma RecentMessagesAreNewest(s: seq<RaceControl>)
    ensures SortedDesc(RaceControlDate, RecentMessages(s))
    ensures multiset(RecentMessages(s)) <= multiset(s)
    ensures |s| > 0 ==> |RecentMessages(s)| > 0
    ensures forall x, y :: x in RecentMessages(s) && y in multiset(s) - multiset(RecentMessages(s)) ==> y.date <= x.date
  {
    var sorted := SortDesc(RaceControlDate, s);
    var n := Min(MaxMessages, |s|);
    SortDescSorted(RaceControlDate, s);
    assert RecentMessages(s) == sorted[..n];
    PrefixSplit(sorted, n);
    PrefixIsNewest(sorted, n);
  }

  /** A prefix takes its elements from the list, and the rest are the suffix's. */
  lemma PrefixSplit(sorted: seq<RaceControl>, n: nat)
    requires n <= |sorted|
    ensures multiset(sorted[..n]) <= multiset(sorted)
    ensures multiset(sorted) - multiset(sorted[..n]) == multiset(sorted[n..])
  {
    assert sorted == sorted[..n] + sorted[n..];
  }

  /** One step of the in-place sort: `a[i - 1]` moves right past the elements
      of the sorted tail `a[i..]` that are newer than it. */
  method InsertIntoSortedTail(a: array<RaceControl>, i: nat)
    requires 0 < i <= a.Length
    modifies a
    ensures a[..i - 1] == old(a[..i - 1])
    ensures a[i - 1..] == Insert(RaceControlDate, old(a[i - 1]), old(a[i..]))
  {
    ghost var pre := a[..i - 1];
    ghost var t := a[i..];
    var x := a[i - 1];
    var j := i - 1;
    while j + 1 < a.Length && a[j + 1].date > x.date
      invariant i - 1 <= j < a.Length
      invariant a[..i - 1] == pre
      invariant forall m :: i - 1 <= m < j ==> a[m] == t[m - i + 1]
      invariant forall m :: j < m < a.Length ==> a[m] == t[m - i]
      invariant forall m :: i - 1 <= m < j ==> a[m].date > x.date
      decreases a.Length - j
    {
      a[j] := a[j + 1];
      j := j + 1;
    }
    assert j + 1 == a.Length || RaceControlDate(t[j - (i - 1)]) <= RaceControlDate(x) by {
      if j + 1 < a.Length {
        assert a[j + 1] == t[j + 1 - i];
      }
    }
    a[j] := x;
    PlacedInArray(a, i - 1, t, x, j - (i - 1));
  }

  /** `Placed`, read off the array from index `lo` on. */
  lemma PlacedInArray(a: array<RaceControl>, lo: nat, t: seq<RaceControl>, x: RaceControl, k: nat)
    requires lo + |t| + 1 == a.Length && k <= |t|
    requires forall m :: lo <= m < lo + k ==> a[m] == t[m - lo] && a[m].date > x.date
    requires a[lo + k] == x
    requires forall m :: lo + k < m < a.Length ==> a[m] == t[m - lo - 1]
    requires k == |t| || RaceControlDate(t[k]) <= RaceControlDate(x)
    ensures a[lo..] == Insert(RaceControlDate, x, t)
  {
    var placed := a[lo..];
    assert forall m :: 0 <= m < k ==> placed[m] == t[m] && RaceControlDate(t[m]) > RaceControlDate(x);
    assert forall m :: k < m < |placed| ==> placed[m] == t[m - 1];
    Placed(t, x, k, placed);
  }

  /** The list made by moving `x` past the first `k` elements of `t` is
      `Insert`'s result, when exactly those `k` are newer than `x`. */
  lemma Placed(t: seq<RaceControl>, x: RaceControl, k: nat, placed: seq<RaceControl>)
    requires k <= |t| && |placed| == |t| + 1
    requires forall m :: 0 <= m < k ==> placed[m] == t[m] && RaceControlDate(t[m]) > RaceControlDate(x)
    requires placed[k] == x
    requires forall m :: k < m < |placed| ==> placed[m] == t[m - 1]
    requires k == |t| || RaceControlDate(t[k]) <= RaceControlDate(x)
    ensures placed == Insert(RaceControlDate, x, t)
  {
    InsertAt(RaceControlDate, x, t, k);
    var spliced := t[..k] + [x] + t[k..];
    forall m | 0 <= m < |placed|
      ensures placed[m] == spliced[m]
    {
      if m > k {
        assert spliced[m] == t[k..][m - k - 1];
      }
    }
    assert placed == spliced;
  }

  /** Sorts `a` newest first, in place and stably, as `Array.prototype.sort`
      does with the comparator `b.date - a.date`: an insertion sort from the
      back, each element placed in front of the later elements no newer than it. */
  method SortNewestFirst(a: array<RaceControl>)
    modifies a
    ensures a[..] == SortDesc(RaceControlDate, old(a[..]))
  {
    ghost var s := a[..];
    var i := a.Length;
    assert s[i..] == [];
    while i > 0
      invariant 0 <= i <= a.Length
      invariant a[..i] == s[..i]
      invariant a[i..] == SortDesc(RaceControlDate, s[i..])
      decreases i
    {
      assert a[i - 1] == s[i - 1] && a[..i - 1] == s[..i - 1] by {
        assert a[..i][..i - 1] == a[..i - 1];
        assert s[..i][..i - 1] == s[..i - 1];
      }
      InsertIntoSortedTail(a, i);
      SortDescSuffix(s, i - 1);
      i := i - 1;
    }
    assert s[0..] == s;
  }

  /** Sorting a suffix one element longer inserts that element into the sorted rest. */
  lemma SortDescSuffix(s: seq<RaceControl>, i: nat)
    requires i < |s|
    ensures SortDesc(RaceControlDate, s[i..]) == Insert(RaceControlDate, s[i], SortDesc(RaceControlDate, s[i + 1..]))
  {
    assert s[i..][1..] == s[i + 1..];
  }

  /** The panel's selection: nothing to render for an absent or empty list;
      otherwise the caller's array is left sorted newest first and its first
      five messages are listed. */
  method SelectRecent(raceControl: array?<RaceControl>) returns (recent: Option<seq<RaceControl>>)
    modifies raceControl
    ensures raceControl == null || raceControl.Length == 0 ==> recent == None
    ensures raceControl != null && raceControl.Length > 0 ==>
      && raceControl[..] == SortDesc(RaceControlDate, old(raceControl[..]))
      && recent == Some(RecentMessages(old(raceControl[..])))
  {
    if raceControl == null || raceControl.Length == 0 {
      return None;
    }
    SortNewestFirst(raceControl);
    recent := Some(raceControl[..Min(MaxMessages, raceControl.Length)]);
  }

  /** After the selection the caller's array holds the same messages, newest first. */
  lemma SortedInPlaceIsPermutation(before: seq<RaceControl>)
    ensures multiset(SortDesc(RaceControlDate, before)) == multiset(before)
    ensures SortedDesc(RaceControlDate, SortDesc(RaceControlDate, before))
  {
    SortDescSorted(RaceControlDate, before);
  }

  // ---------------------------------------------------------------------------
  // Classifiers (RaceControlPanel.tsx:29-50)
  // ---------------------------------------------------------------------------

  /** The flag names the panel knows, upper-case. */
  const KnownFlags: seq<string> := ["YELLOW", "DOUBLE YELLOW", "RED", "GREEN", "BLUE", "CLEAR", "CHEQUERED"]

  const UnknownFlagEmoji: string := "\U{1F3F3}\U{FE0F}"

  /** The emoji of an upper-cased flag name. */
  function FlagEmojiOfName(name: string): (r: string)
    ensures r == UnknownFlagEmoji <==> name !in KnownFlags
  {
    match name
    case "YELLOW" => "\U{1F7E1}"
    case "DOUBLE YELLOW" => "\U{1F7E1}\U{1F7E1}"
    case "RED" => "\U{1F534}"
    case "GREEN" => "\U{1F7E2}"
    case "BLUE" => "\U{1F535}"
    case "CLEAR" => "\U{26AA}"
    case "CHEQUERED" => "\U{1F3C1}"
    case _ => UnknownFlagEmoji
  }

  /** `getFlagEmoji`: nothing for a null or empty flag, otherwise the emoji of
      the flag name compared without regard to case. */
  function FlagEmoji(flag: Nullable<string>): (r: string)
    ensures r == "" <==> flag.Null? || flag.value == ""
    ensures flag.NonNull? && flag.value != "" && Upper(flag.value) !in KnownFlags ==> r == UnknownFlagEmoji
  {
    if flag.Null? || flag.value == "" then "" else FlagEmojiOfName(Upper(flag.value))
  }

  /** Reads back the flag name from its emoji. */
  function FlagOfEmoji(emoji: string): Option<string>
  {
    if emoji == "\U{1F7E1}" then Some("YELLOW")
    else if emoji == "\U{1F7E1}\U{1F7E1}" then Some("DOUBLE YELLOW")
    else if emoji == "\U{1F534}" then Some("RED")
    else if emoji == "\U{1F7E2}" then Some("GREEN")
    else if emoji == "\U{1F535}" then Some("BLUE")
    else if emoji == "\U{26AA}" then Some("CLEAR")
    else if emoji == "\U{1F3C1}" then Some("CHEQUERED")
    else None
  }

  /** Each known flag, in any case, gets its own emoji, distinct from the
      others and from the unknown-flag emoji. */
  lemma FlagEmojiIdentifiesFlag(flag: string)
    requires Upper(flag) in KnownFlags
    ensures FlagOfEmoji(FlagEmoji(NonNull(flag))) == Some(Upper(flag))
    ensures FlagEmoji(NonNull(flag)) != UnknownFlagEmoji
  {
    assert |Upper(flag)| == |flag|;
  }

  /** The flag's case does not change its emoji. */
  lemma FlagEmojiIgnoresCase(a: string, b: string)
    requires SameIgnoringCase(a, b)
    ensures FlagEmoji(NonNull(a)) == FlagEmoji(NonNull(b))
  {
    assert |a| == |Upper(a)| == |Upper(b)| == |b|;
  }

  const FlagColour := "#f59e0b"
  const SafetyCarColour := "#ef4444"
  const OtherColour := "#06b6d4"
  const DefaultColour := "#6b7280"

  /** `getCategoryColor`: amber for flags, red for the safety car, cyan for
      other messages, grey for anything else, compared without regard to case. */
  function CategoryColour(category: string): (r: string)
    ensures r in {FlagColour, SafetyCarColour, OtherColour, DefaultColour}
    ensures r == DefaultColour <==> Lower(category) !in {"flag", "safetycar", "other"}
    ensures r == FlagColour <==> Lower(category) == "flag"
    ensures r == SafetyCarColour <==> Lower(category) == "safetycar"
    ensures r == OtherColour <==> Lower(category) == "other"
  {
    match Lower(category)
    case "flag" => FlagColour
    case "safetycar" => SafetyCarColour
    case "other" => OtherColour
    case _ => DefaultColour
  }

  /** The category's case does not change its colour. */
  lemma CategoryColourIgnoresCase(a: string, b: string)
    requires SameIgnoringCase(a, b)
    ensures CategoryColour(a) == CategoryColour(b)
  {
    LowerIgnoresCase(a, b);
  }
}
