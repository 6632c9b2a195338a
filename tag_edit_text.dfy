/** The TagEditText widget: a text buffer, the ordered list of tags committed
    from it, the one-shot flag that keeps the widget's own setText calls from
    being taken for user deletions, and the selection, which is pinned to the
    end of the text. Each method is proved to leave the state that the
    functions of module TagRanges describe. */
module TagEditText {
  import opened TagRanges

  datatype Option<T> = None | Some(value: T)

  // ---------------------------------------------------------------------------
  // The input filter (mFilter)
  // ---------------------------------------------------------------------------

  /** mFilter.filter: Some("") (replace the insertion by nothing) when the
      source holds a comma anywhere, None (keep the insertion) otherwise,
      including for a null source. The destination arguments are ignored. */
  function Filter(source: Option<string>): (r: Option<string>)
    ensures r.Some? <==> source.Some? && ',' in source.value
    ensures r.Some? ==> r.value == ""
  {
    if source.Some? && ',' in source.value then Some("") else None
  }

  /** The text inserted for source[start..end] once the filter has been
      consulted: the filter's replacement when it gives one, the slice
      itself otherwise. */
  function Accepted(source: string, start: int, end: int): (r: string)
    requires 0 <= start <= end <= |source|
    ensures ',' !in r
    ensures ',' in source ==> r == ""
    ensures ',' !in source ==> r == source[start..end]
  {
    match Filter(Some(source))
    case Some(out) => out
    case None =>
      assert forall c :: c in source[start..end] ==> c in source;
      source[start..end]
  }

  /** The filter drops the whole insertion, not only its commas: a slice
      that holds a comma is replaced by nothing, and so is a slice without
      one when the rest of the source has one. */
  lemma {:induction false} FilterDropsWholeInsertion(source: string, start: int, end: int)
    requires 0 <= start <= end <= |source|
    ensures ',' in source[start..end] ==> Accepted(source, start, end) == ""
    ensures Accepted(source, start, end) == source[start..end] || Accepted(source, start, end) == ""
  {
    if ',' in source[start..end] {
      var i :| start <= i < end && source[i] == ',';
      assert source[i] in source;
    }
  }

  /** Cutting a range out of a comma-free text leaves it comma-free. */
  lemma CutKeepsCommaFree(s: string, i: int, j: int)
    requires 0 <= i <= |s| && 0 <= j <= |s|
    ensures ',' !in s ==> ',' !in s[..i] + s[j..]
  {
    assert forall c :: c in s[..i] + s[j..] ==> c in s;
  }

  /** A user deletion that starts inside the last tag strands it. Committing
      a two-character buffer gives one tag over [0, 2); deleting the second
      character (an edit at 1 that inserts nothing) leaves that tag in place,
      since no tag starts at 1, while the buffer shrinks to one character.
      The tag now ends past the buffer, so the next commit's
      substring(lastTag.to) is out of bounds. */
  lemma InnerDeletionStrandsLastTag(text: string)
    requires |text| == 2 && ',' !in text
    ensures var tags := Commit(text, []);
            var edited := text[..1] + Accepted("", 0, 0) + text[2..];
            && tags == [Tag(text, 0, 2)]
            && Covers(tags, text)
            && RemoveAtPosition(tags, 1) == tags
            && |edited| == 1
            && tags[|tags| - 1].to > |edited|
  {
    assert text[0..2] == text;
  }

  /** Typing at the end of the buffer keeps the coverage invariant: the
      edit removes no tag (nothing shrinks) and every tag indexes the same
      characters of the longer buffer. */
  lemma {:induction false} AppendKeepsCovers(tags: seq<Tag>, text: string, s: string)
    requires Covers(tags, text)
    ensures Covers(tags, text + s)
  {
    forall i {:trigger tags[i]} | 0 <= i < |tags|
      ensures (text + s)[tags[i].from..tags[i].to] == tags[i].value
    {
      assert (text + s)[tags[i].from..tags[i].to] == text[tags[i].from..tags[i].to];
    }
  }

  /** A slice read through a longer prefix is the slice itself. */
  lemma PrefixSlice(text: string, m: int, from: int, to: int)
    requires 0 <= from <= to <= m <= |text|
    ensures text[..m][from..to] == text[from..to]
  {
    assert forall k :: 0 <= k < to - from ==> text[..m][from..to][k] == text[from..to][k];
  }

  /** Deleting exactly the last tag, when it ends the buffer, keeps the
      coverage invariant: the deletion starts at that tag's from, so the
      watcher drops that tag and no other. */
  lemma {:induction false} DeleteLastTagKeepsCovers(tags: seq<Tag>, text: string)
    requires Covers(tags, text) && tags != [] && tags[|tags| - 1].to == |text|
    ensures var last := tags[|tags| - 1];
            && RemoveAtPosition(tags, last.from) == tags[..|tags| - 1]
            && Covers(RemoveAtPosition(tags, last.from), text[..last.from])
  {
    var n := |tags| - 1;
    var last := tags[n];
    forall j {:trigger tags[j]} | 0 <= j < n
      ensures tags[j].from != last.from
    {
      assert tags[j].to <= last.from;
    }
    assert FirstAt(tags, last.from) == n;
    var r := tags[..n];
    assert RemoveAtPosition(tags, last.from) == r;
    forall i {:trigger r[i]} | 0 <= i < n
      ensures r[i].to <= last.from
      ensures text[..last.from][r[i].from..r[i].to] == r[i].value
    {
      assert r[i] == tags[i];
      assert tags[i].to <= last.from;
      PrefixSlice(text, last.from, tags[i].from, tags[i].to);
    }
  }

  /** A deletion that starts at a tag's from but spans further tags breaks
      the invariant: the watcher drops only the first tag starting there.
      Over the buffer x + y with tags x and y, deleting both characters at
      0 leaves the tag y over [1, 2) of an empty buffer, so the next commit's
      substring(lastTag.to) is out of bounds. */
  lemma MultiTagDeletionBreaksCovers(x: string, y: string)
    requires |x| == 1 && |y| == 1 && ',' !in x + y
    ensures var tags := [Tag(x, 0, 1), Tag(y, 1, 2)];
            var edited := (x + y)[..0] + Accepted("", 0, 0) + (x + y)[2..];
            && Covers(tags, x + y)
            && RemoveAtPosition(tags, 0) == [Tag(y, 1, 2)]
            && edited == []
            && !Covers(RemoveAtPosition(tags, 0), edited)
            && RemoveAtPosition(tags, 0)[0].to > |edited|
  {
    var tags := [Tag(x, 0, 1), Tag(y, 1, 2)];
    assert (x + y)[0..1] == x && (x + y)[1..2] == y;
    assert WellFormed(tags);
    assert Covers(tags, x + y);
    assert |x + y| == 2 && (x + y)[..0] == [] && (x + y)[2..] == [];
    assert Accepted("", 0, 0) == [];
    assert !Covers([Tag(y, 1, 2)], []) by {
      var rest := [Tag(y, 1, 2)];
      assert rest[0].to > |""|;
    }
    assert FirstAt(tags, 0) == 0;
    assert tags[..0] + tags[1..] == [Tag(y, 1, 2)];
  }

  // ---------------------------------------------------------------------------
  // The widget
  // ---------------------------------------------------------------------------

  class TagEditText {
    /** The buffer (getText()). */
    var text: string
    /** mTagList, in insertion order. */
    var tags: seq<Tag>
    /** mShouldTriggerTextWatcher. */
    var triggerWatcher: bool
    var selStart: int
    var selEnd: int

    /** init(): an empty tag list and the watcher armed; the buffer is
        whatever the platform gave the view. */
    constructor (initial: string)
      ensures text == initial && tags == [] && triggerWatcher
      ensures selStart == |initial| && selEnd == |initial|
    {
      text := initial;
      tags := [];
      triggerWatcher := true;
      selStart, selEnd := |initial|, |initial|;
    }

    /** onSelectionChanged: the platform reports a new selection; any
        selection other than (|text|, |text|) is reset to it. The reset's
        setSelection re-enters this handler with (|text|, |text|), which is
        passed on unchanged. */
    method OnSelectionChanged(start: int, end: int) returns (reset: bool)
      modifies this`selStart, this`selEnd
      ensures reset <==> start != |text| || end != |text|
      ensures selStart == |text| && selEnd == |text|
    {
      selStart, selEnd := start, end;
      reset := start != |text| || end != |text|;
      if reset {
        selStart, selEnd := |text|, |text|;
      }
    }

    /** removeByPositionInText: drop the first tag that starts at start. The
        offset shift in the source's loop sits after the break and is guarded
        by found != -1, so it never runs; no other tag moves. */
    method RemoveByPositionInText(start: int, count: int)
      modifies this`tags
      ensures tags == RemoveAtPosition(old(tags), start)
    {
      var found := -1;
      var i := 0;
      while i < |tags|
        invariant 0 <= i <= |tags| && tags == old(tags)
        invariant found == -1
        invariant forall j :: 0 <= j < i ==> tags[j].from != start
      {
        if tags[i].from == start {
          found := i;
          break;
        }
        i := i + 1;
      }
      assert found == FirstAt(tags, start);
      if found != -1 {
        tags := tags[..found] + tags[found + 1..];
      }
    }

    /** The text watcher's beforeTextChanged: count characters from start are
        about to be replaced by after characters. A shrinking edit removes a
        tag only while the watcher is armed. */
    method BeforeTextChanged(start: int, count: int, after: int)
      modifies this`tags
      ensures tags == if after < count && triggerWatcher
                      then RemoveAtPosition(old(tags), start) else old(tags)
    {
      if after < count && triggerWatcher {
        RemoveByPositionInText(start, count);
      }
    }

    /** The platform's setText: the new text first goes through the input
        filter, the watcher then hears that the whole buffer is replaced by
        the filtered text, and the buffer is replaced. */
    method SetText(newText: string)
      modifies this`text, this`tags
      ensures text == Accepted(newText, 0, |newText|)
      ensures ',' !in newText ==> text == newText
      ensures tags == if |text| < |old(text)| && triggerWatcher
                      then RemoveAtPosition(old(tags), 0) else old(tags)
    {
      var filtered := Accepted(newText, 0, |newText|);
      BeforeTextChanged(0, |text|, |filtered|);
      text := filtered;
    }

    /** setTags: the chips are spans over the same characters, so the text
        set back is the buffer itself; the caret goes to the end. A buffer
        without a comma comes back unchanged, with its tags; one with a
        comma is emptied by the filter, which the armed watcher takes for a
        deletion at 0. */
    method Render()
      modifies this`text, this`tags, this`selStart, this`selEnd
      ensures text == Accepted(old(text), 0, |old(text)|)
      ensures tags == if |text| < |old(text)| && triggerWatcher
                      then RemoveAtPosition(old(tags), 0) else old(tags)
      ensures ',' !in old(text) ==> text == old(text) && tags == old(tags)
      ensures selStart == |text| && selEnd == |text|
    {
      SetText(text);
      var _ := OnSelectionChanged(|text|, |text|);
    }

    /** checkForNewTag: the text after the last tag, or the whole buffer
        when there is no tag, becomes a new tag when it is not empty. The
        render that follows keeps a comma-free buffer and its tags; a buffer
        holding a comma is emptied and, with the watcher armed, loses the
        tag that starts at 0. */
    method CheckForNewTag()
      requires tags != [] ==> 0 <= tags[|tags| - 1].to <= |text|
      modifies this`text, this`tags, this`selStart, this`selEnd
      ensures text == Accepted(old(text), 0, |old(text)|)
      ensures tags == if ',' in old(text) && triggerWatcher
                      then RemoveAtPosition(Commit(old(text), old(tags)), 0)
                      else Commit(old(text), old(tags))
      ensures ',' !in old(text) && Covers(old(tags), old(text)) ==> Covers(tags, text)
      ensures old(tags) != [] || old(text) != [] ==> selStart == |text| && selEnd == |text|
      ensures old(tags) == [] && old(text) == [] ==>
                selStart == old(selStart) && selEnd == old(selEnd)
    {
      var wholeText := text;
      if |tags| > 0 {
        var lastTag := tags[|tags| - 1];
        var newTagValue := wholeText[lastTag.to..];
        if |newTagValue| > 0 {
          tags := tags + [Tag(newTagValue, lastTag.to, |wholeText|)];
        }
        Render();
      } else if |wholeText| > 0 {
        tags := tags + [Tag(wholeText, 0, |wholeText|)];
        Render();
      }
      if ',' !in old(text) && Covers(old(tags), old(text)) {
        CommitPreservesCovers(old(text), old(tags));
      }
    }

    /** The editor action on key release: commit, then render. */
    method CommitKey()
      requires tags != [] ==> 0 <= tags[|tags| - 1].to <= |text|
      modifies this`text, this`tags, this`selStart, this`selEnd
      ensures text == Accepted(old(text), 0, |old(text)|)
      ensures tags == if ',' in old(text) && triggerWatcher
                      then RemoveAtPosition(Commit(old(text), old(tags)), 0)
                      else Commit(old(text), old(tags))
      ensures ',' !in old(text) && Covers(old(tags), old(text)) ==> Covers(tags, text)
      ensures selStart == |text| && selEnd == |text|
    {
      CheckForNewTag();
      Render();
    }

    /** The loop of removeByTagValue: every tag after a match moves left by
        the width of the most recent match before it (the source updates
        tag.from and tag.to in place); the index of the last match, or -1,
        is returned. */
    method ScanForRemoval(value: string) returns (found: int)
      modifies this`tags
      ensures tags == ShiftedForRemoval(old(tags), value)
      ensures found == LastMatchBefore(old(tags), value, |old(tags)|)
    {
      ghost var orig := tags;
      found := -1;
      var count := -1;
      var i := 0;
      while i < |tags|
        invariant 0 <= i <= |tags| == |orig|
        invariant forall j {:trigger tags[j]} :: 0 <= j < i ==> tags[j] == ScannedTag(orig, value, j)
        invariant forall j {:trigger tags[j]} :: i <= j < |tags| ==> tags[j] == orig[j]
        invariant found == LastMatchBefore(orig, value, i)
        invariant found >= 0 ==> count == Width(orig[found])
      {
        var tag := tags[i];
        assert tag == orig[i];
        assert ScannedTag(orig, value, i) == if found < 0 then tag else ShiftLeft(tag, count);
        if found != -1 {
          tag := Tag(tag.value, tag.from - count, tag.to - count);
          tags := tags[i := tag];
        }
        assert LastMatchBefore(orig, value, i + 1) == if tag.value == value then i else found;
        if tag.value == value {
          found := i;
          count := tag.to - tag.from;
        }
        i := i + 1;
      }
      assert tags == ShiftedForRemoval(old(tags), value);
    }

    /** removeByTagValue: after the scan, remove the last match, cut its
        (shifted) range out of the buffer with the watcher disarmed, re-arm
        the watcher and render. */
    method RemoveByTagValue(value: string)
      requires SpliceInBounds(text, tags, value)
      modifies this`text, this`tags, this`triggerWatcher, this`selStart, this`selEnd
      ensures tags == RemovedTags(old(tags), value)
      ensures tags != old(tags) ==>
                text == Accepted(RemovedText(old(text), old(tags), value),
                                 0, |RemovedText(old(text), old(tags), value)|)
      ensures ',' !in old(text) ==> text == RemovedText(old(text), old(tags), value)
      ensures tags != old(tags) ==> triggerWatcher && selStart == |text| && selEnd == |text|
      ensures tags == old(tags) ==> text == old(text) && triggerWatcher == old(triggerWatcher)
                                    && selStart == old(selStart) && selEnd == old(selEnd)
    {
      ghost var oldTags, oldText := tags, text;
      var found := ScanForRemoval(value);
      ghost var sh := tags;
      if found != -1 {
        var removed := tags[found];
        tags := tags[..found] + tags[found + 1..];
        assert tags == RemovedTags(oldTags, value);
        var firstSlice := text[..removed.from];
        var secondSlice := text[removed.to..];
        assert firstSlice + secondSlice == RemovedText(oldText, oldTags, value);
        CutKeepsCommaFree(oldText, removed.from, removed.to);
        triggerWatcher := false;
        SetText(firstSlice + secondSlice);
        triggerWatcher := true;
        Render();
        assert |tags| < |oldTags|;
      } else {
        assert forall j :: 0 <= j < |oldTags| ==> oldTags[j].value != value;
        forall j | 0 <= j < |tags|
          ensures tags[j] == oldTags[j]
        {
          assert LastMatchBefore(oldTags, value, j) == -1;
        }
      }
    }

    /** An edit by the user through the platform (outside the widget's own
        code): the insertion goes through the filter, the watcher hears of
        the edit, the buffer is spliced and the caret, left after the
        insertion, is reported to the selection handler. */
    method UserEdit(start: int, count: int, source: string)
      requires 0 <= start && 0 <= count && start + count <= |text|
      modifies this`text, this`tags, this`selStart, this`selEnd
      ensures text == old(text)[..start] + Accepted(source, 0, |source|) + old(text)[start + count..]
      ensures tags == if |Accepted(source, 0, |source|)| < count && triggerWatcher
                      then RemoveAtPosition(old(tags), start) else old(tags)
      ensures ',' !in old(text) ==> ',' !in text
      ensures selStart == |text| && selEnd == |text|
    {
      var inserted := Accepted(source, 0, |source|);
      BeforeTextChanged(start, count, |inserted|);
      text := text[..start] + inserted + text[start + count..];
      var _ := OnSelectionChanged(start + |inserted|, start + |inserted|);
    }
  }
}
