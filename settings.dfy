/** The list logic of the standalone settings window: the display name of a
    pair of output channels, the list of channel pairs a device offers, and
    the list of buffer sizes offered for the current device. */
module Settings {
  import opened Common

  function Min(a: int, b: int): int
  {
    if a <= b then a else b
  }

  // ---------------------------------------------------------------------
  // Channel pair names

  /** The first j characters of name1 equal, ignoring case, the first j
      characters of name2 (all of name2 when it is shorter, which then never
      matches). */
  predicate PrefixMatch(name1: string, name2: string, j: nat)
    requires j <= |name1|
  {
    EqualsIgnoreCase(name1[..j], name2[..Min(j, |name2|)])
  }

  /** The largest j below n whose prefix matches, or 0 when n is 0. */
  function LastMatchBelow(name1: string, name2: string, n: nat): (r: nat)
    requires n <= |name1|
    ensures r <= n && (n > 0 ==> r < n)
    ensures r <= |name2| && PrefixMatch(name1, name2, r)
    ensures forall j :: r < j < n ==> !PrefixMatch(name1, name2, j)
  {
    if n == 0 then 0
    else if PrefixMatch(name1, name2, n - 1) then n - 1
    else LastMatchBelow(name1, name2, n - 1)
  }

  /** A matching prefix stays matching when it is shortened. */
  lemma PrefixMatchShortens(name1: string, name2: string, j: nat, k: nat)
    requires k <= j <= |name1| && PrefixMatch(name1, name2, j)
    ensures PrefixMatch(name1, name2, k)
  {
    assert j <= |name2|;
    assert forall i :: 0 <= i < k ==> name1[..k][i] == name1[..j][i] && name2[..k][i] == name2[..j][i];
  }

  /** The length of the common part the loop of getNameForChannelPair settles on. */
  function CommonPrefixLength(name1: string, name2: string): (k: nat)
    ensures k <= |name1| && k <= |name2|
  {
    LastMatchBelow(name1, name2, |name1|)
  }

  /** The common part is the longest prefix of name1, shorter than name1
      itself, that equals the prefix of name2 of the same length ignoring
      case: every shorter prefix matches and no longer one does. */
  lemma CommonPrefixIsLongest(name1: string, name2: string)
    ensures var k := CommonPrefixLength(name1, name2);
      && (|name1| > 0 ==> k < |name1|)
      && EqualsIgnoreCase(name1[..k], name2[..k])
      && (forall j :: 0 <= j <= k ==> PrefixMatch(name1, name2, j))
      && (forall j :: k < j < |name1| ==> !PrefixMatch(name1, name2, j))
  {
    var k := CommonPrefixLength(name1, name2);
    forall j | 0 <= j <= k
      ensures PrefixMatch(name1, name2, j)
    {
      PrefixMatchShortens(name1, name2, k, j);
    }
  }

  /** s cut back until it is empty or ends in whitespace. */
  function CutAtWhitespace(s: string): (r: string)
    ensures |r| <= |s| && r == s[..|r|]
    ensures r == [] || IsWhitespace(r[|r| - 1])
    ensures forall i :: |r| <= i < |s| ==> !IsWhitespace(s[i])
  {
    if s == [] || IsWhitespace(s[|s| - 1]) then s else CutAtWhitespace(s[..|s| - 1])
  }

  /** How many leading characters of name2 are dropped: the common part, cut
      back to a word boundary. */
  function SplitPoint(name1: string, name2: string): (k: nat)
    ensures k <= CommonPrefixLength(name1, name2)
  {
    |CutAtWhitespace(name1[..CommonPrefixLength(name1, name2)])|
  }

  /** The name shown for a pair of channels. */
  function ChannelPairName(name1: string, name2: string): string
  {
    Trim(name1) + " + " + Trim(name2[SplitPoint(name1, name2)..])
  }

  /** The pair's name is the first channel's trimmed name, " + ", and what
      remains of the second name after a shared run of whole words: that run
      ends in whitespace (or is empty) and equals the first name's start
      ignoring case. */
  lemma PairNameDropsSharedWords(name1: string, name2: string)
    ensures var k := SplitPoint(name1, name2);
      && k <= |name1| && k <= |name2|
      && EqualsIgnoreCase(name1[..k], name2[..k])
      && (k == 0 || IsWhitespace(name1[k - 1]))
      && ChannelPairName(name1, name2) == Trim(name1) + " + " + Trim(name2[k..])
  {
    var c := CommonPrefixLength(name1, name2);
    var k := SplitPoint(name1, name2);
    CommonPrefixIsLongest(name1, name2);
    PrefixMatchShortens(name1, name2, c, k);
    assert name1[..c][..k] == name1[..k];
  }

  /** The reason for cutting at whitespace: the second of two numbered
      inputs keeps its whole number. */
  lemma NumberedInputsKeepTheirNumbers()
    ensures ChannelPairName("input 11", "input 12") == "input 11 + 12"
  {
    var n1, n2 := "input 11", "input 12";
    assert PrefixMatch(n1, n2, 7) by {
      assert n1[..7] == n2[..7] == "input 1";
    }
    assert CommonPrefixLength(n1, n2) == 7;
    assert n1[..7] == "input 1";
    assert CutAtWhitespace("input 1") == "input ";
    assert n2[6..] == "12";
    assert Trim("12") == "12" by {
      assert LeadingWhitespace("12") == 0;
      assert TrimEnd("12") == "12";
    }
    assert Trim(n1) == n1 by {
      assert LeadingWhitespace(n1) == 0;
      assert TrimEnd(n1) == n1;
    }
  }

  /** CustomSettingsWindow::getNameForChannelPair: keeps the longest matching
      prefix seen by its loop, then drops characters until the prefix ends
      at whitespace. */
  method GetNameForChannelPair(name1: string, name2: string) returns (r: string)
    ensures r == ChannelPairName(name1, name2)
  {
    var commonBit := "";
    for j := 0 to |name1|
      invariant commonBit == name1[..LastMatchBelow(name1, name2, j)]
    {
      if EqualsIgnoreCase(name1[..j], name2[..Min(j, |name2|)]) {
        commonBit := name1[..j];
      }
    }
    ghost var cut := CutAtWhitespace(commonBit);
    while commonBit != [] && !IsWhitespace(commonBit[|commonBit| - 1])
      invariant CutAtWhitespace(commonBit) == cut
      decreases |commonBit|
    {
      commonBit := commonBit[..|commonBit| - 1];
    }
    r := Trim(name1) + " + " + Trim(name2[|commonBit|..]);
  }

  /** The k-th entry of the channel-pair list: names 2k and 2k+1 paired, or
      name 2k alone and trimmed when it is the last one. */
  function PairEntry(items: seq<string>, k: nat): string
    requires 2 * k < |items|
  {
    if 2 * k + 1 < |items| then ChannelPairName(items[2 * k], items[2 * k + 1]) else Trim(items[2 * k])
  }

  /** Each entry of pairs is the entry the list holds at its position. */
  predicate PairsSoFar(items: seq<string>, pairs: seq<string>)
  {
    forall k {:trigger pairs[k]} :: 0 <= k < |pairs| ==> 2 * k < |items| && pairs[k] == PairEntry(items, k)
  }

  lemma PairsExtend(items: seq<string>, pairs: seq<string>, entry: string)
    requires PairsSoFar(items, pairs) && 2 * |pairs| < |items|
    requires entry == PairEntry(items, |pairs|)
    ensures PairsSoFar(items, pairs + [entry])
  {
    var next := pairs + [entry];
    forall k | 0 <= k < |next|
      ensures 2 * k < |items| && next[k] == PairEntry(items, k)
    {
      if k < |pairs| {
        assert next[k] == pairs[k];
      } else {
        assert k == |pairs| && next[k] == entry;
      }
    }
  }

  /** CustomSettingsWindow::getChannelPairs: no device gives no pairs;
      otherwise consecutive output names are paired and a trailing odd name
      appears alone, trimmed, so there are half as many entries as names,
      rounded up. */
  method GetChannelPairs(outputChannelNames: Option<seq<string>>) returns (pairs: seq<string>)
    ensures outputChannelNames.None? ==> pairs == []
    ensures outputChannelNames.Some? ==>
      && |pairs| == (|outputChannelNames.value| + 1) / 2
      && PairsSoFar(outputChannelNames.value, pairs)
  {
    if outputChannelNames.None? {
      return [];
    }
    var items := outputChannelNames.value;
    pairs := [];
    var i := 0;
    while i < |items|
      invariant i == 2 * |pairs| && i <= |items| + 1
      invariant PairsSoFar(items, pairs)
    {
      var name := items[i];
      var entry;
      if i + 1 >= |items| {
        entry := Trim(name);
        assert items[2 * |pairs|] == name && !(2 * |pairs| + 1 < |items|);
      } else {
        entry := GetNameForChannelPair(name, items[i + 1]);
        assert items[2 * |pairs|] == name && items[2 * |pairs| + 1] == items[i + 1];
      }
      PairsExtend(items, pairs, entry);
      pairs := pairs + [entry];
      i := i + 2;
    }
  }

  // ---------------------------------------------------------------------
  // Buffer sizes

  predicate Sorted(s: seq<int>)
  {
    forall i, j :: 0 <= i < j < |s| ==> s[i] <= s[j]
  }

  predicate StrictlySorted(s: seq<int>)
  {
    forall i, j :: 0 <= i < j < |s| ==> s[i] < s[j]
  }

  /** No value occurs twice. */
  ghost predicate Distinct(s: seq<int>)
  {
    forall x :: multiset(s)[x] <= 1
  }

  /** The sizes the window prefers when a device offers many. */
  const PowerOfTwoCandidates: seq<int> := [64, 128, 256, 512, 1024]

  /** One test of the buffer-size block: the size is appended when the
      device offers it. */
  function AppendIfOffered(sizes: seq<int>, size: int, available: seq<int>): seq<int>
  {
    if size in available then sizes + [size] else sizes
  }

  /** The candidates the device offers, in the candidates' order. */
  function KeepOffered(candidates: seq<int>, available: seq<int>): (r: seq<int>)
    ensures |r| <= |candidates|
    ensures forall x :: x in r <==> x in candidates && x in available
  {
    if candidates == [] then []
    else
      var init := candidates[..|candidates| - 1];
      var c := candidates[|candidates| - 1];
      assert candidates == init + [c];
      AppendIfOffered(KeepOffered(init, available), c, available)
  }

  /** Appending a value above all others keeps a list strictly increasing. */
  lemma StrictAppend(s: seq<int>, c: int)
    requires StrictlySorted(s) && forall y :: y in s ==> y < c
    ensures StrictlySorted(s + [c])
  {
    var t := s + [c];
    forall i, j | 0 <= i < j < |t|
      ensures t[i] < t[j]
    {
      assert t[i] == s[i];
      if j == |s| {
        assert s[i] in s;
      } else {
        assert t[j] == s[j];
      }
    }
  }

  /** Keeping the offered candidates of an increasing list leaves an
      increasing list. */
  lemma {:induction false} KeepOfferedStrict(candidates: seq<int>, available: seq<int>)
    requires StrictlySorted(candidates)
    ensures StrictlySorted(KeepOffered(candidates, available))
  {
    if candidates != [] {
      var init := candidates[..|candidates| - 1];
      var c := candidates[|candidates| - 1];
      assert StrictlySorted(init);
      KeepOfferedStrict(init, available);
      var prev := KeepOffered(init, available);
      if c in available {
        forall y | y in prev
          ensures y < c
        {
          var j :| 0 <= j < |init| && init[j] == y;
          assert candidates[j] == y;
        }
        StrictAppend(prev, c);
      }
    }
  }

  /** One more candidate examined: appended when it is offered. */
  lemma KeepOfferedStep(candidates: seq<int>, available: seq<int>, n: nat)
    requires n < |candidates|
    ensures KeepOffered(candidates[..n + 1], available)
      == AppendIfOffered(KeepOffered(candidates[..n], available), candidates[n], available)
  {
    assert candidates[..n + 1][..n] == candidates[..n];
  }

  /** The power-of-two sizes the device offers, in increasing order. */
  function PowerOfTwoSizes(available: seq<int>): (r: seq<int>)
    ensures StrictlySorted(r) && |r| <= 5
    ensures forall x :: x in r <==> x in available && x in PowerOfTwoCandidates
  {
    KeepOfferedStrict(PowerOfTwoCandidates, available);
    KeepOffered(PowerOfTwoCandidates, available)
  }

  /** The list the window starts from: the power-of-two subset, when the
      device offers more than seven sizes and more than two of the five. */
  function ChosenSizes(available: seq<int>): seq<int>
  {
    var powers := PowerOfTwoSizes(available);
    if |available| > 7 && |powers| > 2 then powers else available
  }

  /** When the window switches to the power-of-two list, every size offered
      is one of the five and was offered by the device, and there are at
      least three of them; otherwise the device's list is kept as it is. */
  lemma ChosenSizesFromPowers(available: seq<int>)
    ensures |available| > 7 && |PowerOfTwoSizes(available)| > 2 ==>
      && |ChosenSizes(available)| >= 3
      && (forall x :: x in ChosenSizes(available) ==> x in available && x in PowerOfTwoCandidates)
    ensures !(|available| > 7 && |PowerOfTwoSizes(available)| > 2) ==> ChosenSizes(available) == available
  {
  }

  /** The array's addIfNotAlreadyThere(). */
  function AddIfMissing(s: seq<int>, x: int): (r: seq<int>)
    ensures x in r
    ensures multiset(r) == multiset(s) + (if x in s then multiset{} else multiset{x})
  {
    if x in s then s else s + [x]
  }

  /** x inserted into a list before the first larger element. */
  function InsertSorted(x: int, s: seq<int>): (r: seq<int>)
    ensures multiset(r) == multiset(s) + multiset{x}
  {
    if s == [] then [x]
    else if x <= s[0] then [x] + s
    else
      assert s == [s[0]] + s[1..];
      [s[0]] + InsertSorted(x, s[1..])
  }

  /** A value no larger than any of a sorted list's can go in front of it. */
  lemma SortedCons(h: int, t: seq<int>)
    requires Sorted(t) && forall y :: y in t ==> h <= y
    ensures Sorted([h] + t)
  {
    var s := [h] + t;
    forall i, j | 0 <= i < j < |s|
      ensures s[i] <= s[j]
    {
      assert s[j] == t[j - 1];
      if i > 0 {
        assert s[i] == t[i - 1];
      } else {
        assert t[j - 1] in t;
      }
    }
  }

  /** Inserting into a sorted list keeps it sorted. */
  lemma {:induction false} InsertKeepsSorted(x: int, s: seq<int>)
    requires Sorted(s)
    ensures Sorted(InsertSorted(x, s))
  {
    if s == [] {
    } else if x <= s[0] {
      assert forall y :: y in s ==> x <= y;
      SortedCons(x, s);
    } else {
      var t := s[1..];
      var rest := InsertSorted(x, t);
      assert Sorted(t);
      InsertKeepsSorted(x, t);
      forall y | y in rest
        ensures s[0] <= y
      {
        assert y in multiset(rest);
        assert y == x || y in multiset(t);
      }
      SortedCons(s[0], rest);
    }
  }

  /** The list in increasing order, as the array's sort() leaves it. */
  function SortSeq(s: seq<int>): (r: seq<int>)
    ensures Sorted(r) && multiset(r) == multiset(s)
  {
    if s == [] then []
    else
      assert s == s[..|s| - 1] + [s[|s| - 1]];
      var sorted := SortSeq(s[..|s| - 1]);
      InsertKeepsSorted(s[|s| - 1], sorted);
      InsertSorted(s[|s| - 1], sorted)
  }

  /** A value found at two positions occurs at least twice. */
  lemma TwoPositions(s: seq<int>, i: nat, j: nat)
    requires i < j < |s| && s[i] == s[j]
    ensures multiset(s)[s[i]] >= 2
  {
    assert s == s[..i] + [s[i]] + s[i + 1..j] + [s[j]] + s[j + 1..];
  }

  /** A sorted list without repeated values is strictly increasing. */
  lemma SortedDistinctIsStrict(s: seq<int>)
    requires Sorted(s) && Distinct(s)
    ensures StrictlySorted(s)
  {
    forall i, j | 0 <= i < j < |s|
      ensures s[i] < s[j]
    {
      if s[i] == s[j] {
        TwoPositions(s, i, j);
        assert false;
      }
    }
  }

  /** A strictly increasing list has no repeated values. */
  lemma {:induction false} StrictIsDistinct(s: seq<int>)
    requires StrictlySorted(s)
    ensures Distinct(s)
  {
    if s != [] {
      var t := s[1..];
      assert s == [s[0]] + t;
      assert StrictlySorted(t);
      StrictIsDistinct(t);
      assert s[0] !in t;
    }
  }

  /** Without repeated sizes on the device, the chosen list has none. */
  lemma ChosenSizesDistinct(available: seq<int>)
    requires Distinct(available)
    ensures Distinct(ChosenSizes(available))
  {
    if ChosenSizes(available) != available {
      StrictIsDistinct(PowerOfTwoSizes(available));
    }
  }

  /** Adding the default to a list without repeats and sorting it gives a
      strictly increasing list holding the default exactly once. */
  lemma AddAndSortDistinct(base: seq<int>, defaultSize: int)
    requires Distinct(base)
    ensures var r := SortSeq(AddIfMissing(base, defaultSize));
      StrictlySorted(r) && multiset(r)[defaultSize] == 1
  {
    var added := AddIfMissing(base, defaultSize);
    var r := SortSeq(added);
    assert multiset(base)[defaultSize] <= 1;
    assert Distinct(r);
    SortedDistinctIsStrict(r);
  }

  /** The five membership tests of the buffer-size block, each appending its
      size when the device offers it. */
  method CollectPowerOfTwoSizes(bufferSizes: seq<int>) returns (powerOfTwoBufferSizes: seq<int>)
    ensures powerOfTwoBufferSizes == PowerOfTwoSizes(bufferSizes)
  {
    ghost var c := PowerOfTwoCandidates;
    assert c[..0] == [] && c[..5] == c;
    powerOfTwoBufferSizes := [];
    KeepOfferedStep(c, bufferSizes, 0);
    powerOfTwoBufferSizes := AppendIfOffered(powerOfTwoBufferSizes, 64, bufferSizes);
    KeepOfferedStep(c, bufferSizes, 1);
    powerOfTwoBufferSizes := AppendIfOffered(powerOfTwoBufferSizes, 128, bufferSizes);
    KeepOfferedStep(c, bufferSizes, 2);
    powerOfTwoBufferSizes := AppendIfOffered(powerOfTwoBufferSizes, 256, bufferSizes);
    KeepOfferedStep(c, bufferSizes, 3);
    powerOfTwoBufferSizes := AppendIfOffered(powerOfTwoBufferSizes, 512, bufferSizes);
    KeepOfferedStep(c, bufferSizes, 4);
    powerOfTwoBufferSizes := AppendIfOffered(powerOfTwoBufferSizes, 1024, bufferSizes);
  }

  /** The buffer-size block of CustomSettingsWindow::rebuildMenus: possibly
      swaps in the power-of-two list, adds the default size if missing and
      sorts. The result is sorted, holds the chosen list's sizes plus the
      default, and, when the device's list has no repeated size, holds every
      size once, the default included. */
  method RebuildBufferSizes(available: seq<int>, defaultBufferSize: int) returns (bufferSizes: seq<int>)
    ensures Sorted(bufferSizes) && defaultBufferSize in bufferSizes
    ensures var base := ChosenSizes(available);
      multiset(bufferSizes) == multiset(base) + (if defaultBufferSize in base then multiset{} else multiset{defaultBufferSize})
    ensures Distinct(available) ==> StrictlySorted(bufferSizes) && multiset(bufferSizes)[defaultBufferSize] == 1
  {
    bufferSizes := available;
    if |bufferSizes| > 7 {
      var powerOfTwoBufferSizes := CollectPowerOfTwoSizes(bufferSizes);
      if |powerOfTwoBufferSizes| > 2 {
        bufferSizes := powerOfTwoBufferSizes;
      }
    }
    ghost var base := bufferSizes;
    assert base == ChosenSizes(available);
    if defaultBufferSize !in bufferSizes {
      bufferSizes := bufferSizes + [defaultBufferSize];
    }
    assert bufferSizes == AddIfMissing(base, defaultBufferSize);
    bufferSizes := SortSeq(bufferSizes);
    assert defaultBufferSize in multiset(bufferSizes);
    if Distinct(available) {
      ChosenSizesDistinct(available);
      AddAndSortDistinct(base, defaultBufferSize);
    }
  }
}
