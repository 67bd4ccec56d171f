/** The string and selection logic of the extension's debug page: redacting the
    stored API key, the guarded splice of a textarea's selection, and the local
    self-test that drives that splice on a sample text. */
module Debug {
  import opened Wrappers

  // ---------------------------------------------------------------------------
  // maskKey
  // ---------------------------------------------------------------------------

  const NoKeyLabel: string := "(none)"
  const ShortKeyMask: string := "\U{2022}\U{2022}\U{2022}\U{2022}"
  const Ellipsis: char := '\U{2026}'

  /** True for the values JavaScript treats as false here: no key, or the empty string. */
  predicate Blank(key: Option<string>) {
    key.None? || key.value == ""
  }

  /** Redacts a key: no key gives "(none)", a key of up to 8 characters gives four
      bullets, and a longer key keeps only its first and last four characters. */
  function MaskKey(key: Option<string>): (r: string)
    ensures r == NoKeyLabel <==> Blank(key)
    ensures !Blank(key) && |key.value| <= 8 ==> r == ShortKeyMask
    ensures !Blank(key) && |key.value| > 8 ==>
      |r| == 9 && r[..4] == key.value[..4] && r[4] == Ellipsis && r[5..] == key.value[|key.value| - 4..]
  {
    if Blank(key) then NoKeyLabel
    else if |key.value| <= 8 then ShortKeyMask
    else
      var prefix := key.value[..4];
      var suffix := key.value[|key.value| - 4..];
      prefix + [Ellipsis] + suffix
  }

  /** The mask depends on nothing but the first four and the last four characters
      of a long key, and on nothing at all of a short one. */
  lemma MaskKeyRevealsOnlyEnds(a: string, b: string)
    requires |a| > 8 && |b| > 8
    requires a[..4] == b[..4] && a[|a| - 4..] == b[|b| - 4..]
    ensures MaskKey(Some(a)) == MaskKey(Some(b))
  {
    var ma, mb := MaskKey(Some(a)), MaskKey(Some(b));
    assert ma == ma[..4] + [ma[4]] + ma[5..];
    assert mb == mb[..4] + [mb[4]] + mb[5..];
  }

  lemma MaskKeyHidesShortKeys(a: string, b: string)
    requires 0 < |a| <= 8 && 0 < |b| <= 8
    ensures MaskKey(Some(a)) == MaskKey(Some(b)) == ShortKeyMask
  {
  }

  // ---------------------------------------------------------------------------
  // Text search (String.prototype.indexOf and includes)
  // ---------------------------------------------------------------------------

  /** pattern occurs in s starting at index i. */
  predicate OccursAt(s: string, pattern: string, i: int) {
    0 <= i && i + |pattern| <= |s| && s[i..i + |pattern|] == pattern
  }

  function IndexFrom(s: string, pattern: string, from: nat): (r: int)
    requires from <= |s| + 1
    ensures r == -1 || (from <= r && OccursAt(s, pattern, r))
    ensures forall i :: from <= i && (r == -1 || i < r) ==> !OccursAt(s, pattern, i)
    decreases |s| + 1 - from
  {
    if from + |pattern| > |s| then -1
    else if s[from..from + |pattern|] == pattern then from
    else IndexFrom(s, pattern, from + 1)
  }

  /** The index of the first occurrence of pattern in s, or -1 when there is none. */
  function IndexOf(s: string, pattern: string): (r: int)
    ensures r == -1 || OccursAt(s, pattern, r)
    ensures r == -1 <==> forall i :: !OccursAt(s, pattern, i)
    ensures forall i :: 0 <= i && (r == -1 || i < r) ==> !OccursAt(s, pattern, i)
  {
    IndexFrom(s, pattern, 0)
  }

  /** Whether pattern occurs anywhere in s. */
  function Includes(s: string, pattern: string): (b: bool)
    ensures b <==> exists i :: OccursAt(s, pattern, i)
  {
    IndexOf(s, pattern) != -1
  }

  // ---------------------------------------------------------------------------
  // The textarea and its guarded splice
  // ---------------------------------------------------------------------------

  /** A textarea's value and selection. An offset is None when the element's
      selection offsets are not numbers. */
  datatype Snapshot = Snapshot(value: string, selectionStart: Option<nat>, selectionEnd: Option<nat>)

  /** What the browser maintains: numeric offsets lie within the value and the
      start does not pass the end. */
  predicate ValidSnapshot(t: Snapshot) {
    (t.selectionStart.Some? ==> t.selectionStart.value <= |t.value|) &&
    (t.selectionEnd.Some? ==> t.selectionEnd.value <= |t.value|) &&
    (t.selectionStart.Some? && t.selectionEnd.Some? ==> t.selectionStart.value <= t.selectionEnd.value)
  }

  /** The splice may go ahead: both offsets are numbers, the selection is not
      empty and it still holds exactly originalText. */
  predicate SpliceAllowed(t: Snapshot, originalText: string)
    requires ValidSnapshot(t)
  {
    t.selectionStart.Some? && t.selectionEnd.Some? &&
    t.selectionStart.value < t.selectionEnd.value &&
    t.value[t.selectionStart.value..t.selectionEnd.value] == originalText
  }

  /** The state after a successful splice, or None when the splice is refused.
      On success the selected span holds replacementText, which is then selected,
      and every character before or after the old selection is kept in place. */
  function Splice(t: Snapshot, replacementText: string, originalText: string): (r: Option<Snapshot>)
    requires ValidSnapshot(t)
    ensures r.Some? <==> SpliceAllowed(t, originalText)
    ensures r.Some? ==>
      var start, end, u := t.selectionStart.value, t.selectionEnd.value, r.value;
      ValidSnapshot(u) &&
      |u.value| == |t.value| - (end - start) + |replacementText| &&
      u.value[..start] == t.value[..start] &&
      u.value[start..start + |replacementText|] == replacementText &&
      u.value[start + |replacementText|..] == t.value[end..] &&
      u.selectionStart == Some(start) && u.selectionEnd == Some(start + |replacementText|)
  {
    if !SpliceAllowed(t, originalText) then None
    else
      var start, end := t.selectionStart.value, t.selectionEnd.value;
      var value := t.value[..start] + replacementText + t.value[end..];
      Some(Snapshot(value, Some(start), Some(start + |replacementText|)))
  }

  /** Characters outside the replaced span keep their positions before it and
      shift by the change in length after it. */
  lemma SpliceKeepsOutside(t: Snapshot, replacementText: string, originalText: string)
    requires ValidSnapshot(t) && SpliceAllowed(t, originalText)
    ensures var start, end, u := t.selectionStart.value, t.selectionEnd.value, Splice(t, replacementText, originalText).value;
      (forall i :: 0 <= i < start ==> u.value[i] == t.value[i]) &&
      (forall i :: end <= i < |t.value| ==> u.value[i - end + start + |replacementText|] == t.value[i])
  {
    var start, end := t.selectionStart.value, t.selectionEnd.value;
    var head, tail := t.value[..start], t.value[end..];
    var v := Splice(t, replacementText, originalText).value.value;
    assert v == head + replacementText + tail;
    forall i | 0 <= i < start
      ensures v[i] == t.value[i]
    {
      assert v[i] == head[i];
    }
    forall i | end <= i < |t.value|
      ensures v[i - end + start + |replacementText|] == t.value[i]
    {
      assert v[i - end + start + |replacementText|] == tail[i - end];
    }
  }

  /** A successful splice can be undone: splicing the original text back over the
      inserted span restores the value and reselects the original span. */
  lemma SpliceUndo(t: Snapshot, replacementText: string, originalText: string)
    requires ValidSnapshot(t) && SpliceAllowed(t, originalText)
    requires replacementText != ""
    ensures var u := Splice(t, replacementText, originalText).value;
      SpliceAllowed(u, replacementText) &&
      Splice(u, originalText, replacementText) == Some(t)
  {
    var start, end := t.selectionStart.value, t.selectionEnd.value;
    var u := Splice(t, replacementText, originalText).value;
    var w := Splice(u, originalText, replacementText).value;
    assert |originalText| == end - start;
    assert w.value == t.value by {
      assert w.value == u.value[..start] + originalText + u.value[start + |replacementText|..];
      assert t.value == t.value[..start] + t.value[start..end] + t.value[end..];
    }
  }

  /** The textarea element, whose value and selection the page updates in place. */
  class Textarea {
    var value: string
    var selectionStart: Option<nat>
    var selectionEnd: Option<nat>

    ghost predicate Valid()
      reads this
    {
      ValidSnapshot(State())
    }

    function State(): Snapshot
      reads this
    {
      Snapshot(value, selectionStart, selectionEnd)
    }

    constructor (value: string, selectionStart: Option<nat>, selectionEnd: Option<nat>)
      requires ValidSnapshot(Snapshot(value, selectionStart, selectionEnd))
      ensures Valid() && State() == Snapshot(value, selectionStart, selectionEnd)
    {
      this.value := value;
      this.selectionStart := selectionStart;
      this.selectionEnd := selectionEnd;
    }

    /** setRangeText(text): replaces the selected span with text. With the default
        "preserve" mode the selection start stays, and a non-empty selection ends
        after the inserted text. */
    method SetRangeText(text: string)
      requires Valid() && selectionStart.Some? && selectionEnd.Some?
      modifies this
      ensures Valid()
      ensures value == old(value[..selectionStart.value]) + text + old(value[selectionEnd.value..])
      ensures selectionStart == old(selectionStart)
      ensures selectionEnd == if old(selectionEnd.value > selectionStart.value)
                              then Some(old(selectionStart.value) + |text|) else old(selectionEnd)
    {
      var start, end := selectionStart.value, selectionEnd.value;
      value := value[..start] + text + value[end..];
      if end > start {
        selectionEnd := Some(start + |text|);
      }
    }

    /** setSelectionRange(start, end): both offsets are clamped to the value's
        length, and a start past the end is moved back to the end. */
    method SetSelectionRange(start: nat, end: nat)
      requires Valid() && selectionStart.Some? && selectionEnd.Some?
      modifies this
      ensures Valid() && value == old(value)
      ensures var e := if end <= |value| then end else |value|;
              var s := if start <= |value| then start else |value|;
              selectionStart == Some(if s <= e then s else e) && selectionEnd == Some(e)
    {
      var e := if end <= |value| then end else |value|;
      var s := if start <= |value| then start else |value|;
      selectionStart := Some(if s <= e then s else e);
      selectionEnd := Some(e);
    }

    /** Assigning value: a changed value moves the caret to its end. */
    method SetValue(newValue: string)
      requires Valid()
      modifies this
      ensures Valid() && value == newValue
      ensures newValue == old(value) ==> selectionStart == old(selectionStart) && selectionEnd == old(selectionEnd)
      ensures newValue != old(value) ==>
        selectionStart == (if old(selectionStart).Some? then Some(|newValue|) else None) &&
        selectionEnd == (if old(selectionEnd).Some? then Some(|newValue|) else None)
    {
      if newValue != value {
        value := newValue;
        if selectionStart.Some? {
          selectionStart := Some(|newValue|);
        }
        if selectionEnd.Some? {
          selectionEnd := Some(|newValue|);
        }
      }
    }
  }

  /** replaceSelectionInTextarea: refuses when there is no textarea, when its
      offsets are not numbers, when the selection is empty or when the selection no
      longer holds originalText; otherwise splices replacementText in and selects it. */
  method ReplaceSelectionInTextarea(textarea: Textarea?, replacementText: string, originalText: string)
    returns (replaced: bool)
    requires textarea != null ==> textarea.Valid()
    modifies textarea
    ensures textarea != null ==> textarea.Valid()
    ensures replaced <==> textarea != null && SpliceAllowed(old(textarea.State()), originalText)
    ensures textarea != null && replaced ==>
      textarea.State() == Splice(old(textarea.State()), replacementText, originalText).value
    ensures textarea != null && !replaced ==> textarea.State() == old(textarea.State())
  {
    if textarea == null || textarea.selectionStart.None? || textarea.selectionEnd.None? {
      return false;
    }
    var start := textarea.selectionStart.value;
    var end := textarea.selectionEnd.value;
    if end <= start {
      return false;
    }
    var selected := textarea.value[start..end];
    if selected != originalText {
      return false;
    }
    textarea.SetRangeText(replacementText);
    textarea.SetSelectionRange(start, start + |replacementText|);
    return true;
  }

  const Misspelt: string := "borwn"
  const CorrectedWord: string := "brown"

  /** runLocalReplacementCheck: selects the first "borwn" of the sample, splices
      "brown" over it, checks the result and restores the sample. It passes exactly
      when the sample contains "borwn"; without one nothing is changed, and with one
      the value ends up equal to the sample again. */
  method RunLocalReplacementCheck(input: Textarea) returns (passed: bool)
    requires input.Valid() && input.selectionStart.Some? && input.selectionEnd.Some?
    modifies input
    ensures input.Valid()
    ensures passed <==> Includes(old(input.value), Misspelt)
    ensures input.value == old(input.value)
    ensures !passed ==> input.State() == old(input.State())
    ensures passed ==> input.selectionStart == Some(|input.value|) && input.selectionEnd == Some(|input.value|)
  {
    var sample := input.value;
    var startIndex := IndexOf(sample, Misspelt);
    if startIndex == -1 {
      return false;
    }
    input.SetSelectionRange(startIndex, startIndex + |Misspelt|);
    var replaced := ReplaceSelectionInTextarea(input, CorrectedWord, Misspelt);
    if !replaced {
      // The selection was just set over an occurrence of Misspelt, so the splice
      // cannot be refused.
      assert false;
    }
    assert OccursAt(input.value, CorrectedWord, startIndex);
    passed := Includes(input.value, CorrectedWord);
    assert input.value != sample by {
      assert input.value[startIndex..startIndex + 5] != sample[startIndex..startIndex + 5];
    }
    input.SetValue(sample);
    if !passed {
      // The spliced value holds CorrectedWord at startIndex.
      assert false;
    }
    return true;
  }
}
