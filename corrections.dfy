/** Correction spans over an original text and the merging of overlapping or
    touching spans into coalesced edits. */
module Corrections {
  import opened Wrappers

  /** An edit replacing the half-open span [start, end) of the original text. */
  datatype Correction = Correction(start: int, end: int, replacement: string)

  /** The construction invariant: a span never ends before it starts. */
  predicate WellFormed(c: Correction) {
    c.start <= c.end
  }

  predicate AllWellFormed(cs: seq<Correction>) {
    forall c | c in cs :: WellFormed(c)
  }

  /** The exception raised by the constructor check. */
  datatype ValueError = ValueError(message: string)

  const EndBeforeStart: string := "Correction.end must be greater than or equal to Correction.start"

  /** Building a correction: succeeds exactly when end >= start, and then keeps all three fields. */
  function NewCorrection(start: int, end: int, replacement: string): (r: Result<Correction, ValueError>)
    ensures r.Success? <==> start <= end
    ensures r.Success? ==>
      WellFormed(r.value) && r.value.start == start && r.value.end == end && r.value.replacement == replacement
    ensures r.Failure? ==> r.error == ValueError(EndBeforeStart)
  {
    if end < start then Failure(ValueError(EndBeforeStart))
    else Success(Correction(start, end, replacement))
  }

  function Max(a: int, b: int): (r: int) { if a >= b then a else b }

  function Min(a: int, b: int): (r: int) { if a <= b then a else b }

  // ---------------------------------------------------------------------------
  // Sorting by the key (start, end)
  // ---------------------------------------------------------------------------

  /** Lexicographic order on (start, end). */
  predicate KeyLe(a: Correction, b: Correction) {
    a.start < b.start || (a.start == b.start && a.end <= b.end)
  }

  predicate SortedByKey(s: seq<Correction>) {
    forall i, j :: 0 <= i < j < |s| ==> KeyLe(s[i], s[j])
  }

  /** Inserts c before the first element whose key is not smaller, so that
      among equal keys the inserted element comes first. */
  function Insert(c: Correction, s: seq<Correction>): (r: seq<Correction>)
    ensures |r| == |s| + 1
  {
    if |s| == 0 then [c]
    else if KeyLe(c, s[0]) then [c] + s
    else [s[0]] + Insert(c, s[1..])
  }

  /** A stable sort by (start, end): equal keys keep their input order. */
  function SortByKey(s: seq<Correction>): (r: seq<Correction>)
    ensures |r| == |s|
  {
    if |s| == 0 then [] else Insert(s[0], SortByKey(s[1..]))
  }

  lemma {:induction false} InsertPermutation(c: Correction, s: seq<Correction>)
    ensures multiset(Insert(c, s)) == multiset(s) + multiset{c}
  {
    if |s| > 0 && !KeyLe(c, s[0]) {
      InsertPermutation(c, s[1..]);
      assert s == [s[0]] + s[1..];
    }
  }

  /** The sort keeps every correction as often as it occurs, and adds none. */
  lemma {:induction false} SortByKeyPermutation(s: seq<Correction>)
    ensures multiset(SortByKey(s)) == multiset(s)
  {
    if |s| > 0 {
      SortByKeyPermutation(s[1..]);
      InsertPermutation(s[0], SortByKey(s[1..]));
      assert s == [s[0]] + s[1..];
    }
  }

  predicate LowerBound(x: Correction, s: seq<Correction>) {
    forall k :: 0 <= k < |s| ==> KeyLe(x, s[k])
  }

  lemma {:induction false} InsertLowerBound(x: Correction, c: Correction, s: seq<Correction>)
    requires LowerBound(x, s) && KeyLe(x, c)
    ensures LowerBound(x, Insert(c, s))
  {
    if |s| > 0 && !KeyLe(c, s[0]) {
      InsertLowerBound(x, c, s[1..]);
    }
  }

  lemma {:induction false} InsertSorted(c: Correction, s: seq<Correction>)
    requires SortedByKey(s)
    ensures SortedByKey(Insert(c, s))
  {
    if |s| > 0 && !KeyLe(c, s[0]) {
      var tail := s[1..];
      assert SortedByKey(tail);
      InsertSorted(c, tail);
      assert LowerBound(s[0], tail);
      InsertLowerBound(s[0], c, tail);
    }
  }

  /** The result of the sort is ordered by (start, end). */
  lemma {:induction false} SortByKeySorted(s: seq<Correction>)
    ensures SortedByKey(SortByKey(s))
  {
    if |s| > 0 {
      SortByKeySorted(s[1..]);
      InsertSorted(s[0], SortByKey(s[1..]));
    }
  }

  /** Sorting an already sorted sequence leaves it as it is. */
  lemma {:induction false} SortByKeyOfSorted(s: seq<Correction>)
    requires SortedByKey(s)
    ensures SortByKey(s) == s
  {
    if |s| > 0 {
      assert SortedByKey(s[1..]);
      SortByKeyOfSorted(s[1..]);
      assert s == [s[0]] + s[1..];
    }
  }

  /** Sorting keeps every correction and adds none, so it keeps well-formedness. */
  lemma SortByKeyWellFormed(s: seq<Correction>)
    requires AllWellFormed(s)
    ensures AllWellFormed(SortByKey(s))
  {
    var r := SortByKey(s);
    SortByKeyPermutation(s);
    forall c | c in r
      ensures WellFormed(c)
    {
      assert c in multiset(r);
    }
  }

  // ---------------------------------------------------------------------------
  // Coalescing two corrections
  // ---------------------------------------------------------------------------

  /** How much of the previous replacement is kept in front: the distance
      between the two starts, clamped to [0, |previous.replacement|]. */
  function PrefixLength(previous: Correction, current: Correction): (n: nat)
    ensures n <= |previous.replacement|
    ensures n <= Max(current.start - previous.start, 0)
  {
    Min(Max(current.start - previous.start, 0), |previous.replacement|)
  }

  /** How much of the previous replacement is kept behind: the distance
      between the two ends, clamped to what the prefix left over. */
  function SuffixLength(previous: Correction, current: Correction): (n: nat)
    ensures PrefixLength(previous, current) + n <= |previous.replacement|
    ensures n <= Max(previous.end - current.end, 0)
  {
    var suffixSpan := Max(previous.end - current.end, 0);
    var availableForSuffix := Max(|previous.replacement| - PrefixLength(previous, current), 0);
    Min(suffixSpan, availableForSuffix)
  }

  /** The single edit that replaces previous once current overlaps or touches it:
      it spans from previous.start to the further of the two ends, and its text is
      never longer than the two texts together. */
  function Coalesce(previous: Correction, current: Correction): (r: Correction)
    ensures r.start == previous.start && r.end == Max(previous.end, current.end)
    ensures WellFormed(previous) ==> WellFormed(r)
    ensures |r.replacement| <= |previous.replacement| + |current.replacement|
  {
    var newEnd := Max(previous.end, current.end);
    var prefixLength := PrefixLength(previous, current);
    var prefix := previous.replacement[..prefixLength];
    var suffixLength := SuffixLength(previous, current);
    var suffix := if suffixLength > 0 then previous.replacement[|previous.replacement| - suffixLength..] else "";
    Correction(previous.start, newEnd, prefix + current.replacement + suffix)
  }

  /** The merged text, piece by piece: a prefix of previous's text, current's text
      verbatim, then a suffix of previous's text that does not overlap that prefix. */
  lemma CoalesceParts(previous: Correction, current: Correction)
    ensures var r, p, q, n := Coalesce(previous, current), PrefixLength(previous, current),
                              SuffixLength(previous, current), |previous.replacement|;
      p + q <= n &&
      |r.replacement| == p + |current.replacement| + q &&
      r.replacement[..p] == previous.replacement[..p] &&
      r.replacement[p..p + |current.replacement|] == current.replacement &&
      r.replacement[p + |current.replacement|..] == previous.replacement[n - q..]
  {
  }

  /** Touching edits: the merged text is current's text after as much of
      previous's text as previous's span is long; when previous's text is no
      longer than its span this is the plain concatenation. */
  lemma TouchingCoalesce(previous: Correction, current: Correction)
    requires WellFormed(previous) && WellFormed(current)
    requires current.start == previous.end
    ensures Coalesce(previous, current) ==
      Correction(previous.start, current.end,
                 previous.replacement[..Min(previous.end - previous.start, |previous.replacement|)] + current.replacement)
    ensures |previous.replacement| <= previous.end - previous.start ==>
      Coalesce(previous, current) == Correction(previous.start, Max(previous.end, current.end), previous.replacement + current.replacement)
  {
    var r := Coalesce(previous, current);
    assert SuffixLength(previous, current) == 0;
    assert r.replacement == previous.replacement[..PrefixLength(previous, current)] + current.replacement;
    if |previous.replacement| <= previous.end - previous.start {
      assert previous.replacement[..|previous.replacement|] == previous.replacement;
    }
  }

  /** A current edit nested inside a previous edit whose text is as long as its
      span: the merged text is previous's text with current's span replaced in place. */
  lemma NestedCoalesce(previous: Correction, current: Correction)
    requires WellFormed(current)
    requires previous.start <= current.start && current.end <= previous.end
    requires |previous.replacement| == previous.end - previous.start
    ensures Coalesce(previous, current) ==
      Correction(previous.start, previous.end,
                 previous.replacement[..current.start - previous.start] + current.replacement +
                 previous.replacement[current.end - previous.start..])
  {
    var n := |previous.replacement|;
    assert PrefixLength(previous, current) == current.start - previous.start;
    assert SuffixLength(previous, current) == previous.end - current.end;
    assert n - (previous.end - current.end) == current.end - previous.start;
  }

  // ---------------------------------------------------------------------------
  // A reference meaning for edits: applying them to a text
  // ---------------------------------------------------------------------------

  predicate FitsIn(text: string, c: Correction) {
    0 <= c.start <= c.end <= |text|
  }

  /** The text with c's span replaced by c's text. */
  function Apply(text: string, c: Correction): (r: string)
    requires FitsIn(text, c)
    ensures |r| == |text| - (c.end - c.start) + |c.replacement|
    ensures r[..c.start] == text[..c.start]
    ensures r[c.start..c.start + |c.replacement|] == c.replacement
    ensures r[c.start + |c.replacement|..] == text[c.end..]
  {
    text[..c.start] + c.replacement + text[c.end..]
  }

  /** Replacing [p, q) after [q, e) has been replaced by x. */
  lemma SpliceAfterSplice<T>(text: seq<T>, p: int, q: int, e: int, r: seq<T>, x: seq<T>)
    requires 0 <= p <= q <= e <= |text|
    ensures var mid := text[..q] + x + text[e..];
      mid[..p] + r + mid[q..] == text[..p] + (r + x) + text[e..]
  {
    var mid := text[..q] + x + text[e..];
    assert mid[..p] == text[..p];
    assert mid[q..] == x + text[e..];
  }

  /** For touching edits whose first text is no longer than its span, the merged
      edit has the same effect as applying the later edit and then the earlier one. */
  lemma TouchingMergeSameEffect(text: string, previous: Correction, current: Correction)
    requires FitsIn(text, previous) && FitsIn(text, current)
    requires current.start == previous.end
    requires |previous.replacement| <= previous.end - previous.start
    ensures FitsIn(text, Coalesce(previous, current))
    ensures FitsIn(Apply(text, current), previous)
    ensures Apply(text, Coalesce(previous, current)) == Apply(Apply(text, current), previous)
  {
    var r, x := previous.replacement, current.replacement;
    var merged := Coalesce(previous, current);
    assert merged == Correction(previous.start, current.end, r + x) by {
      TouchingCoalesce(previous, current);
    }
    var mid := Apply(text, current);
    assert mid == text[..current.start] + x + text[current.end..];
    assert Apply(mid, previous) == text[..previous.start] + (r + x) + text[current.end..] by {
      assert Apply(mid, previous) == mid[..previous.start] + r + mid[previous.end..];
      SpliceAfterSplice(text, previous.start, current.start, current.end, r, x);
    }
  }

  /** The merge the documentation of merge_corrections describes: touching edits
      are merged by concatenating their texts in full; other overlaps as in Coalesce. */
  function CoalesceConcatenating(previous: Correction, current: Correction): (r: Correction)
    ensures r.start == previous.start && r.end == Max(previous.end, current.end)
    ensures current.start == previous.end ==> r.replacement == previous.replacement + current.replacement
    ensures current.start != previous.end ==> r == Coalesce(previous, current)
  {
    if current.start == previous.end then
      Correction(previous.start, Max(previous.end, current.end), previous.replacement + current.replacement)
    else Coalesce(previous, current)
  }

  /** For every pair of touching edits, the concatenating merge has the same effect
      as applying the later edit and then the earlier one, whatever the lengths. */
  lemma ConcatenatingMergeSameEffect(text: string, previous: Correction, current: Correction)
    requires FitsIn(text, previous) && FitsIn(text, current)
    requires current.start == previous.end
    ensures FitsIn(text, CoalesceConcatenating(previous, current))
    ensures FitsIn(Apply(text, current), previous)
    ensures Apply(text, CoalesceConcatenating(previous, current)) == Apply(Apply(text, current), previous)
  {
    var r, x := previous.replacement, current.replacement;
    var mid := Apply(text, current);
    assert mid == text[..current.start] + x + text[current.end..];
    assert Apply(mid, previous) == mid[..previous.start] + r + mid[previous.end..];
    SpliceAfterSplice(text, previous.start, current.start, current.end, r, x);
  }

  /** The two merges differ only where the code cuts: when the earlier text is no
      longer than its span they agree. */
  lemma ConcatenatingAgreesWhenShort(previous: Correction, current: Correction)
    requires WellFormed(previous) && WellFormed(current)
    requires |previous.replacement| <= previous.end - previous.start
    ensures CoalesceConcatenating(previous, current) == Coalesce(previous, current)
  {
    if current.start == previous.end {
      TouchingCoalesce(previous, current);
    }
  }

  /** Replacing [a, b) inside the middle piece of head + body + tail. */
  lemma SpliceInMiddle<T>(head: seq<T>, body: seq<T>, tail: seq<T>, x: seq<T>, a: int, b: int)
    requires 0 <= a <= b <= |body|
    ensures var whole := head + body + tail;
      whole[..|head| + a] + x + whole[|head| + b..] == head + (body[..a] + x + body[b..]) + tail
  {
    var whole := head + body + tail;
    assert whole[..|head| + a] == head + body[..a];
    assert whole[|head| + b..] == body[b..] + tail;
  }

  /** For a nested edit inside a length-preserving edit, the merged edit has the same
      effect as applying the earlier edit and then the later one. */
  lemma NestedMergeSameEffect(text: string, previous: Correction, current: Correction)
    requires FitsIn(text, previous) && FitsIn(text, current)
    requires previous.start <= current.start && current.end <= previous.end
    requires |previous.replacement| == previous.end - previous.start
    ensures FitsIn(Apply(text, previous), current)
    ensures Apply(text, Coalesce(previous, current)) == Apply(Apply(text, previous), current)
  {
    var head, body, tail := text[..previous.start], previous.replacement, text[previous.end..];
    var a, b := current.start - previous.start, current.end - previous.start;
    var x := current.replacement;
    var merged := Coalesce(previous, current);
    assert merged == Correction(previous.start, previous.end, body[..a] + x + body[b..]) by {
      NestedCoalesce(previous, current);
    }
    var mid := Apply(text, previous);
    assert mid == head + body + tail;
    assert Apply(mid, current) == head + (body[..a] + x + body[b..]) + tail by {
      assert Apply(mid, current) == mid[..|head| + a] + x + mid[|head| + b..];
      SpliceInMiddle(head, body, tail, x, a, b);
    }
    assert Apply(text, merged) == head + (body[..a] + x + body[b..]) + tail;
  }

  // ---------------------------------------------------------------------------
  // The left fold that merges a sorted sequence
  // ---------------------------------------------------------------------------

  /** One step of the fold: coalesce into the last output when current starts
      at or before its end, otherwise append current. */
  function MergeStep(merged: seq<Correction>, current: Correction): (r: seq<Correction>)
    requires |merged| > 0
    ensures 0 < |r| <= |merged| + 1
  {
    var previous := merged[|merged| - 1];
    if current.start <= previous.end then merged[..|merged| - 1] + [Coalesce(previous, current)]
    else merged + [current]
  }

  /** Folding MergeStep over the first n corrections of s from left to right,
      starting with [s[0]]. */
  function MergePrefix(s: seq<Correction>, n: nat): (r: seq<Correction>)
    requires n <= |s|
    ensures |r| <= n
    ensures |r| == 0 <==> n == 0
  {
    if n == 0 then []
    else if n == 1 then [s[0]]
    else MergeStep(MergePrefix(s, n - 1), s[n - 1])
  }

  /** The fold over the whole of s. */
  function MergeSorted(s: seq<Correction>): (r: seq<Correction>)
    ensures |r| <= |s|
    ensures |r| == 0 <==> |s| == 0
  {
    MergePrefix(s, |s|)
  }

  /** Consecutive spans are separated by a gap: touching spans do not occur. */
  predicate Separated(m: seq<Correction>) {
    forall k :: 0 <= k < |m| - 1 ==> m[k].end < m[k + 1].start
  }

  predicate Within(c: Correction, m: Correction) {
    m.start <= c.start && c.end <= m.end
  }

  /** Each of the first n spans of s lies inside some span of m. */
  predicate CoversFirst(m: seq<Correction>, s: seq<Correction>, n: int)
    requires n <= |s|
  {
    forall i :: 0 <= i < n ==> exists k :: 0 <= k < |m| && Within(s[i], m[k])
  }

  lemma MergeStepWellFormed(merged: seq<Correction>, current: Correction)
    requires |merged| > 0 && AllWellFormed(merged) && WellFormed(current)
    ensures AllWellFormed(MergeStep(merged, current))
  {
    var r := MergeStep(merged, current);
    forall c | c in r
      ensures WellFormed(c)
    {
      var k :| 0 <= k < |r| && r[k] == c;
      if k < |merged| - 1 {
        assert r[k] == merged[k];
      }
    }
  }

  /** Every merged span is well-formed. */
  lemma {:induction false} MergePrefixWellFormed(s: seq<Correction>, n: nat)
    requires n <= |s| && AllWellFormed(s)
    ensures AllWellFormed(MergePrefix(s, n))
  {
    if n > 1 {
      MergePrefixWellFormed(s, n - 1);
      MergeStepWellFormed(MergePrefix(s, n - 1), s[n - 1]);
    }
  }

  lemma MergeStepSeparated(merged: seq<Correction>, current: Correction)
    requires |merged| > 0 && Separated(merged)
    ensures Separated(MergeStep(merged, current))
  {
    var r := MergeStep(merged, current);
    var n := |merged|;
    if current.start <= merged[n - 1].end {
      forall k | 0 <= k < |r| - 1
        ensures r[k].end < r[k + 1].start
      {
        assert r[k] == merged[k];
        if k + 1 < n - 1 {
          assert r[k + 1] == merged[k + 1];
        } else {
          assert r[k + 1].start == merged[n - 1].start;
        }
      }
    }
  }

  /** The merged spans are separated by gaps, whatever the input order. */
  lemma {:induction false} MergePrefixSeparated(s: seq<Correction>, n: nat)
    requires n <= |s|
    ensures Separated(MergePrefix(s, n))
  {
    if n > 1 {
      MergePrefixSeparated(s, n - 1);
      MergeStepSeparated(MergePrefix(s, n - 1), s[n - 1]);
    }
  }

  /** The last merged span starts no later than the last correction folded in. */
  lemma {:induction false} MergePrefixLastStart(s: seq<Correction>, n: nat)
    requires 0 < n <= |s| && SortedByKey(s)
    ensures var m := MergePrefix(s, n); m[|m| - 1].start <= s[n - 1].start
  {
    if n > 1 {
      MergePrefixLastStart(s, n - 1);
      assert KeyLe(s[n - 2], s[n - 1]);
    }
  }

  lemma MergeStepCovers(merged: seq<Correction>, s: seq<Correction>, n: nat)
    requires n < |s| && |merged| > 0 && CoversFirst(merged, s, n)
    requires merged[|merged| - 1].start <= s[n].start
    ensures CoversFirst(MergeStep(merged, s[n]), s, n + 1)
  {
    var r := MergeStep(merged, s[n]);
    var last := |merged| - 1;
    forall i | 0 <= i < n + 1
      ensures exists k :: 0 <= k < |r| && Within(s[i], r[k])
    {
      if i == n {
        assert Within(s[i], r[|r| - 1]);
      } else {
        var k :| 0 <= k < |merged| && Within(s[i], merged[k]);
        if k < last {
          assert r[k] == merged[k];
        } else if s[n].start <= merged[last].end {
          assert Within(s[i], r[last]);
        } else {
          assert r[k] == merged[k];
        }
      }
    }
  }

  lemma MergePrefixCoversStep(s: seq<Correction>, n: nat)
    requires 1 < n <= |s| && CoversFirst(MergePrefix(s, n - 1), s, n - 1)
    requires var m := MergePrefix(s, n - 1); m[|m| - 1].start <= s[n - 1].start
    ensures CoversFirst(MergePrefix(s, n), s, n)
  {
    var m := MergePrefix(s, n - 1);
    assert MergePrefix(s, n) == MergeStep(m, s[n - 1]);
    MergeStepCovers(m, s, n - 1);
  }

  /** Every correction folded in lies inside some merged span. */
  lemma {:induction false} MergePrefixCovers(s: seq<Correction>, n: nat)
    requires n <= |s| && SortedByKey(s)
    ensures CoversFirst(MergePrefix(s, n), s, n)
  {
    if n == 1 {
      assert Within(s[0], MergePrefix(s, n)[0]);
    } else if n > 1 {
      MergePrefixCovers(s, n - 1);
      MergePrefixLastStart(s, n - 1);
      assert KeyLe(s[n - 2], s[n - 1]);
      MergePrefixCoversStep(s, n);
    }
  }

  /** x is the start of one of the first n corrections of s. */
  predicate StartsAmong(x: int, s: seq<Correction>, n: int)
    requires n <= |s|
  {
    exists i :: 0 <= i < n && s[i].start == x
  }

  /** x is the end of one of the first n corrections of s. */
  predicate EndsAmong(x: int, s: seq<Correction>, n: int)
    requires n <= |s|
  {
    exists i :: 0 <= i < n && s[i].end == x
  }

  /** Each span of m starts where one of the first n corrections of s starts and
      ends where one of them ends: no span is wider than what it merged. */
  predicate EndpointsFrom(m: seq<Correction>, s: seq<Correction>, n: int)
    requires n <= |s|
  {
    forall k :: 0 <= k < |m| ==> StartsAmong(m[k].start, s, n) && EndsAmong(m[k].end, s, n)
  }

  lemma MergeStepEndpoints(merged: seq<Correction>, s: seq<Correction>, n: nat)
    requires n < |s| && |merged| > 0 && EndpointsFrom(merged, s, n)
    ensures EndpointsFrom(MergeStep(merged, s[n]), s, n + 1)
  {
    var r := MergeStep(merged, s[n]);
    var last := |merged| - 1;
    forall k | 0 <= k < |r|
      ensures StartsAmong(r[k].start, s, n + 1) && EndsAmong(r[k].end, s, n + 1)
    {
      if k < last || s[n].start > merged[last].end {
        if k < |merged| {
          assert r[k] == merged[k];
          var i :| 0 <= i < n && s[i].start == merged[k].start;
          var j :| 0 <= j < n && s[j].end == merged[k].end;
          assert s[i].start == r[k].start && s[j].end == r[k].end;
        } else {
          assert r[k] == s[n];
        }
      } else {
        assert r[k] == Coalesce(merged[last], s[n]);
        var i :| 0 <= i < n && s[i].start == merged[last].start;
        assert s[i].start == r[k].start;
        if merged[last].end >= s[n].end {
          var j :| 0 <= j < n && s[j].end == merged[last].end;
          assert s[j].end == r[k].end;
        } else {
          assert s[n].end == r[k].end;
        }
      }
    }
  }

  /** Every merged span runs from the start of a correction folded in to the end
      of a correction folded in. */
  lemma {:induction false} MergePrefixEndpoints(s: seq<Correction>, n: nat)
    requires n <= |s|
    ensures EndpointsFrom(MergePrefix(s, n), s, n)
  {
    if n == 1 {
      assert MergePrefix(s, n)[0] == s[0];
    } else if n > 1 {
      MergePrefixEndpoints(s, n - 1);
      var m := MergePrefix(s, n - 1);
      assert MergePrefix(s, n) == MergeStep(m, s[n - 1]);
      MergeStepEndpoints(m, s, n - 1);
    }
  }

  /** Position x of span out lies inside one of the first n corrections of s,
      and that correction lies inside out. */
  predicate CoveredPoint(x: int, out: Correction, s: seq<Correction>, n: int)
    requires n <= |s|
  {
    exists i :: 0 <= i < n && Within(s[i], out) && s[i].start <= x < s[i].end
  }

  /** Every position inside a span of m is covered by a correction merged into it:
      no span bridges a gap between the corrections it merged. */
  predicate InteriorCovered(m: seq<Correction>, s: seq<Correction>, n: int)
    requires n <= |s|
  {
    forall k, x :: 0 <= k < |m| && m[k].start <= x < m[k].end ==> CoveredPoint(x, m[k], s, n)
  }

  lemma MergeStepInterior(merged: seq<Correction>, s: seq<Correction>, n: nat)
    requires n < |s| && |merged| > 0 && InteriorCovered(merged, s, n)
    requires merged[|merged| - 1].start <= s[n].start
    ensures InteriorCovered(MergeStep(merged, s[n]), s, n + 1)
  {
    var r := MergeStep(merged, s[n]);
    var last, count := |merged| - 1, n + 1;
    forall k, x | 0 <= k < |r| && r[k].start <= x < r[k].end
      ensures CoveredPoint(x, r[k], s, count)
    {
      if k < last || s[n].start > merged[last].end {
        if k < |merged| {
          assert r[k] == merged[k];
          assert CoveredPoint(x, merged[k], s, n);
          var i :| 0 <= i < n && Within(s[i], merged[k]) && s[i].start <= x < s[i].end;
          assert Within(s[i], r[k]);
        } else {
          assert r[k] == s[n];
          assert Within(s[n], r[k]);
        }
      } else {
        var previous := merged[last];
        assert r[k] == Coalesce(previous, s[n]);
        if x < previous.end {
          assert CoveredPoint(x, previous, s, n);
          var i :| 0 <= i < n && Within(s[i], previous) && s[i].start <= x < s[i].end;
          assert Within(s[i], r[k]);
        } else {
          assert Within(s[n], r[k]) && s[n].start <= x < s[n].end;
        }
      }
    }
  }

  /** On sorted input every position inside a merged span lies inside a correction
      that was merged into that span. */
  lemma {:induction false} MergePrefixInterior(s: seq<Correction>, n: nat)
    requires n <= |s| && SortedByKey(s)
    ensures InteriorCovered(MergePrefix(s, n), s, n)
  {
    if n == 1 {
      assert MergePrefix(s, n)[0] == s[0];
      assert Within(s[0], s[0]);
    } else if n > 1 {
      MergePrefixInterior(s, n - 1);
      MergePrefixLastStart(s, n - 1);
      assert KeyLe(s[n - 2], s[n - 1]);
      var m := MergePrefix(s, n - 1);
      assert MergePrefix(s, n) == MergeStep(m, s[n - 1]);
      MergeStepInterior(m, s, n - 1);
    }
  }

  /** Corrections already separated by gaps are folded in unchanged. */
  lemma {:induction false} MergePrefixOfSeparated(s: seq<Correction>, n: nat)
    requires n <= |s| && Separated(s)
    ensures MergePrefix(s, n) == s[..n]
  {
    if n > 1 {
      MergePrefixOfSeparated(s, n - 1);
      assert s[..n - 1] + [s[n - 1]] == s[..n];
    }
  }

  lemma {:induction false} SeparatedAt(s: seq<Correction>, i: int, j: int)
    requires AllWellFormed(s) && Separated(s)
    requires 0 <= i < j < |s|
    ensures s[i].end < s[j].start
    decreases j - i
  {
    if j > i + 1 {
      SeparatedAt(s, i, j - 1);
      assert WellFormed(s[j - 1]);
    }
  }

  /** Well-formed spans separated by gaps are pairwise separated. */
  lemma SeparatedPairwise(s: seq<Correction>)
    requires AllWellFormed(s) && Separated(s)
    ensures PairwiseSeparated(s)
  {
    forall i, j | 0 <= i < j < |s|
      ensures s[i].end < s[j].start
    {
      SeparatedAt(s, i, j);
    }
  }

  /** Well-formed spans separated by gaps are sorted by (start, end). */
  lemma SeparatedSorted(s: seq<Correction>)
    requires AllWellFormed(s) && Separated(s)
    ensures SortedByKey(s)
  {
    SeparatedPairwise(s);
    forall i, j | 0 <= i < j < |s|
      ensures KeyLe(s[i], s[j])
    {
      assert WellFormed(s[i]);
    }
  }

  // ---------------------------------------------------------------------------
  // merge_corrections
  // ---------------------------------------------------------------------------

  predicate PairwiseSeparated(m: seq<Correction>) {
    forall i, j :: 0 <= i < j < |m| ==> m[i].end < m[j].start
  }

  predicate StartsIncrease(m: seq<Correction>) {
    forall i, j :: 0 <= i < j < |m| ==> m[i].start < m[j].start
  }

  /** Every correction of cs lies inside some span of m. */
  predicate CoversAll(m: seq<Correction>, cs: seq<Correction>) {
    forall c | c in cs :: exists k :: 0 <= k < |m| && Within(c, m[k])
  }

  /** Each span of m starts where some correction of cs starts and ends where
      some correction of cs ends. */
  predicate EndpointsFromAll(m: seq<Correction>, cs: seq<Correction>) {
    (forall k {:trigger StartOfSome(m[k].start, cs)} :: 0 <= k < |m| ==> StartOfSome(m[k].start, cs)) &&
    (forall k {:trigger EndOfSome(m[k].end, cs)} :: 0 <= k < |m| ==> EndOfSome(m[k].end, cs))
  }

  predicate StartOfSome(x: int, cs: seq<Correction>) {
    exists c | c in cs :: c.start == x
  }

  predicate EndOfSome(x: int, cs: seq<Correction>) {
    exists c | c in cs :: c.end == x
  }

  /** Position x of span out lies inside some correction of cs that lies inside out. */
  predicate PointOfSome(x: int, out: Correction, cs: seq<Correction>) {
    exists c | c in cs :: Within(c, out) && c.start <= x < c.end
  }

  /** Every position inside a span of m lies inside a correction of cs merged into it. */
  predicate InteriorCoveredAll(m: seq<Correction>, cs: seq<Correction>) {
    forall k, x :: 0 <= k < |m| && m[k].start <= x < m[k].end ==> PointOfSome(x, m[k], cs)
  }

  /** The loop of merge_corrections over the sorted corrections: folds them left to
      right, coalescing each one that starts at or before the previous output's end. */
  method CoalesceSorted(sortedCorrections: seq<Correction>) returns (merged: seq<Correction>)
    ensures merged == MergeSorted(sortedCorrections)
  {
    if |sortedCorrections| == 0 {
      return [];
    }
    merged := [sortedCorrections[0]];
    var i := 1;
    while i < |sortedCorrections|
      invariant 1 <= i <= |sortedCorrections|
      invariant merged == MergePrefix(sortedCorrections, i)
    {
      var current := sortedCorrections[i];
      var previous := merged[|merged| - 1];
      ghost var before := merged;
      if current.start <= previous.end {
        merged := merged[..|merged| - 1] + [Coalesce(previous, current)];
      } else {
        merged := merged + [current];
      }
      assert merged == MergeStep(before, current);
      i := i + 1;
    }
  }

  /** merge_corrections: sorts the corrections by (start, end), then coalesces them. */
  method MergeCorrections(corrections: seq<Correction>) returns (merged: seq<Correction>)
    requires AllWellFormed(corrections)
    ensures merged == MergeSorted(SortByKey(corrections))
    ensures |merged| <= |corrections|
    ensures merged == [] <==> corrections == []
    ensures AllWellFormed(merged) && Separated(merged) && PairwiseSeparated(merged) && StartsIncrease(merged)
    ensures CoversAll(merged, corrections) && EndpointsFromAll(merged, corrections)
    ensures InteriorCoveredAll(merged, corrections)
  {
    var sortedCorrections := SortByKey(corrections);
    merged := CoalesceSorted(sortedCorrections);
    MergeCorrectionsProperties(corrections, merged);
  }

  /** What merge_corrections promises of its result: well-formed spans, ordered by
      start and separated by gaps, that together cover every input correction. */
  lemma MergeCorrectionsProperties(corrections: seq<Correction>, m: seq<Correction>)
    requires AllWellFormed(corrections)
    requires m == MergeSorted(SortByKey(corrections))
    ensures AllWellFormed(m) && Separated(m) && PairwiseSeparated(m) && StartsIncrease(m)
    ensures CoversAll(m, corrections) && EndpointsFromAll(m, corrections)
    ensures InteriorCoveredAll(m, corrections)
  {
    var s := SortByKey(corrections);
    assert AllWellFormed(m) && Separated(m) by {
      SortByKeyWellFormed(corrections);
      MergePrefixWellFormed(s, |s|);
      MergePrefixSeparated(s, |s|);
    }
    assert PairwiseSeparated(m) && StartsIncrease(m) by {
      SeparatedPairwise(m);
      StartsIncreasing(m);
    }
    assert CoversAll(m, corrections) by {
      SortByKeySorted(corrections);
      MergePrefixCovers(s, |s|);
      SortByKeyPermutation(corrections);
      CoversPermutation(m, s, corrections);
    }
    assert EndpointsFromAll(m, corrections) by {
      MergePrefixEndpoints(s, |s|);
      SortByKeyPermutation(corrections);
      EndpointsPermutation(m, s, corrections);
    }
    assert InteriorCoveredAll(m, corrections) by {
      SortByKeySorted(corrections);
      MergePrefixInterior(s, |s|);
      SortByKeyPermutation(corrections);
      InteriorPermutation(m, s, corrections);
    }
  }

  /** Pairwise separation of well-formed spans orders their starts strictly. */
  lemma StartsIncreasing(m: seq<Correction>)
    requires AllWellFormed(m) && Separated(m)
    ensures StartsIncrease(m)
  {
    SeparatedPairwise(m);
    forall i, j | 0 <= i < j < |m|
      ensures m[i].start < m[j].start
    {
      assert WellFormed(m[i]);
    }
  }

  /** Covering a permutation of the input covers every input correction. */
  lemma CoversPermutation(m: seq<Correction>, s: seq<Correction>, corrections: seq<Correction>)
    requires CoversFirst(m, s, |s|) && multiset(s) == multiset(corrections)
    ensures CoversAll(m, corrections)
  {
    forall c | c in corrections
      ensures exists k :: 0 <= k < |m| && Within(c, m[k])
    {
      assert c in multiset(s);
      var i :| 0 <= i < |s| && s[i] == c;
    }
  }

  /** Endpoints taken from the sorted input are endpoints of original corrections. */
  lemma EndpointsPermutation(m: seq<Correction>, s: seq<Correction>, corrections: seq<Correction>)
    requires EndpointsFrom(m, s, |s|) && multiset(s) == multiset(corrections)
    ensures EndpointsFromAll(m, corrections)
  {
    forall k | 0 <= k < |m|
      ensures StartOfSome(m[k].start, corrections) && EndOfSome(m[k].end, corrections)
    {
      var i :| 0 <= i < |s| && s[i].start == m[k].start;
      var j :| 0 <= j < |s| && s[j].end == m[k].end;
      assert s[i] in multiset(corrections) && s[j] in multiset(corrections);
      assert s[i] in corrections && s[j] in corrections;
    }
  }

  /** Positions covered by the sorted input are covered by original corrections. */
  lemma InteriorPermutation(m: seq<Correction>, s: seq<Correction>, corrections: seq<Correction>)
    requires InteriorCovered(m, s, |s|) && multiset(s) == multiset(corrections)
    ensures InteriorCoveredAll(m, corrections)
  {
    forall k, x | 0 <= k < |m| && m[k].start <= x < m[k].end
      ensures PointOfSome(x, m[k], corrections)
    {
      assert CoveredPoint(x, m[k], s, |s|);
      var i :| 0 <= i < |s| && Within(s[i], m[k]) && s[i].start <= x < s[i].end;
      assert s[i] in multiset(corrections);
      assert s[i] in corrections;
    }
  }

  /** Corrections already in order and separated by gaps come back identical. */
  lemma MergeOfSeparatedIsIdentity(corrections: seq<Correction>)
    requires AllWellFormed(corrections) && Separated(corrections)
    ensures MergeSorted(SortByKey(corrections)) == corrections
  {
    SeparatedSorted(corrections);
    SortByKeyOfSorted(corrections);
    MergePrefixOfSeparated(corrections, |corrections|);
    assert corrections[..|corrections|] == corrections;
  }
}

/** The cases pinned by the repository's tests of merge_corrections. */
module CorrectionsExamples {
  import opened Wrappers
  import opened Corrections

  /** Two touching corrections coalesce into one whose text is the concatenation. */
  lemma MergesTouchingCorrections()
    ensures MergeSorted(SortByKey([Correction(0, 4, "This"), Correction(4, 7, " is")]))
         == [Correction(0, 7, "This is")]
  {
    var a, b := Correction(0, 4, "This"), Correction(4, 7, " is");
    assert SortByKey([a, b]) == [a, b] by {
      assert SortedByKey([a, b]);
      SortByKeyOfSorted([a, b]);
    }
    assert Coalesce(a, b) == Correction(0, 7, "This is") by {
      TouchingCoalesce(a, b);
      assert a.replacement + b.replacement == "This is";
    }
    assert MergePrefix([a, b], 1) == [a];
    assert MergeSorted([a, b]) == MergeStep([a], b);
    assert MergeSorted([a, b]) == [Correction(0, 7, "This is")];
  }

  lemma SortsUnsortedExample()
    ensures SortByKey([Correction(10, 11, "e"), Correction(0, 4, "This"), Correction(4, 7, " is")])
         == [Correction(0, 4, "This"), Correction(4, 7, " is"), Correction(10, 11, "e")]
  {
    var a, b, c := Correction(0, 4, "This"), Correction(4, 7, " is"), Correction(10, 11, "e");
    assert [c, a, b][1..] == [a, b];
    assert SortByKey([a, b]) == [a, b] by {
      assert SortedByKey([a, b]);
      SortByKeyOfSorted([a, b]);
    }
    assert Insert(c, [b]) == [b, c] by {
      assert [b][1..] == [];
    }
    assert Insert(c, [a, b]) == [a, b, c] by {
      assert [a, b][1..] == [b];
    }
  }

  /** Unsorted input: the correction at 10 listed first ends up last, and the
      touching pair before it is coalesced. */
  lemma PreservesSortedOrder()
    ensures MergeSorted(SortByKey([Correction(10, 11, "e"), Correction(0, 4, "This"), Correction(4, 7, " is")]))
         == [Correction(0, 7, "This is"), Correction(10, 11, "e")]
  {
    var a, b, c := Correction(0, 4, "This"), Correction(4, 7, " is"), Correction(10, 11, "e");
    SortsUnsortedExample();
    assert MergeSorted([a, b]) == [Correction(0, 7, "This is")] by {
      MergesTouchingCorrections();
    }
    assert MergePrefix([a, b, c], 2) == MergePrefix([a, b], 2);
  }

  /** A gap between the corrections keeps them apart, unchanged. */
  lemma DoesNotMergeWhenGapExists()
    ensures MergeSorted(SortByKey([Correction(0, 4, "This"), Correction(6, 7, "!")]))
         == [Correction(0, 4, "This"), Correction(6, 7, "!")]
  {
    MergeOfSeparatedIsIdentity([Correction(0, 4, "This"), Correction(6, 7, "!")]);
  }

  /** Touching edits whose earlier text is longer than its span: the merged text
      keeps only as much of "abcd" as [0, 3) is long, so merging is not the same as
      applying the two edits one after the other. */
  lemma TouchingMergeCutsLongerText()
    ensures Coalesce(Correction(0, 3, "abcd"), Correction(3, 5, "xy")) == Correction(0, 5, "abcxy")
    ensures Apply("0123456", Correction(0, 5, "abcxy")) == "abcxy56"
    ensures Apply(Apply("0123456", Correction(3, 5, "xy")), Correction(0, 3, "abcd")) == "abcdxy56"
  {
    var a, b := Correction(0, 3, "abcd"), Correction(3, 5, "xy");
    assert Coalesce(a, b) == Correction(0, 5, "abcd"[..3] + "xy") by {
      TouchingCoalesce(a, b);
    }
    assert "abcd"[..3] + "xy" == "abcxy";
    var text := "0123456";
    assert Apply(text, Correction(0, 5, "abcxy")) == "abcxy" + text[5..];
    var mid := Apply(text, b);
    assert mid == text[..3] + "xy" + text[5..];
    assert mid == "012xy56";
    assert Apply(mid, a) == "abcd" + mid[3..];
  }

  /** The concatenating merge on the same input keeps all of "abcd". */
  lemma ConcatenatingMergeKeepsLongerText()
    ensures CoalesceConcatenating(Correction(0, 3, "abcd"), Correction(3, 5, "xy")) == Correction(0, 5, "abcdxy")
    ensures Apply("0123456", Correction(0, 5, "abcdxy")) == "abcdxy56"
  {
    assert "abcd" + "xy" == "abcdxy";
    assert Apply("0123456", Correction(0, 5, "abcdxy")) == "abcdxy" + "0123456"[5..];
  }

  lemma EmptyInputReturnsEmptyList()
    ensures MergeSorted(SortByKey([])) == []
  {
  }

  lemma InvalidRangeIsRefused()
    ensures NewCorrection(5, 4, "oops").Failure?
  {
  }
}
