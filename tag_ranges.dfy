/** The tag-range model behind TagEditText: the tags are an ordered list of
    values, each covering a half-open range [from, to) of the text buffer.
    The functions here say what each list operation of the widget computes;
    the class in module TagEditText is proved to compute exactly that. */
module TagRanges {

  /** A committed tag: its text and the range [from, to) of the buffer it covers. */
  datatype Tag = Tag(value: string, from: int, to: int)

  function Width(t: Tag): int { t.to - t.from }

  /** The same tag, moved n characters to the left. */
  function ShiftLeft(t: Tag, n: int): (r: Tag)
    ensures r.value == t.value && Width(r) == Width(t)
  {
    Tag(t.value, t.from - n, t.to - n)
  }

  /** Every tag is non-empty, starts at a non-negative offset and is exactly as
      wide as its value; the tags are sorted and do not overlap. */
  ghost predicate WellFormed(tags: seq<Tag>)
  {
    (forall i :: 0 <= i < |tags| ==>
       0 <= tags[i].from && tags[i].to - tags[i].from == |tags[i].value| > 0)
    && (forall i, j :: 0 <= i < j < |tags| ==> tags[i].to <= tags[j].from)
  }

  /** The tags are well formed and each one indexes its own value in text. */
  ghost predicate Covers(tags: seq<Tag>, text: string)
  {
    WellFormed(tags)
    && forall i :: 0 <= i < |tags| ==>
         tags[i].to <= |text| && text[tags[i].from..tags[i].to] == tags[i].value
  }

  /** No two tags carry the same value. */
  ghost predicate Unique(tags: seq<Tag>)
  {
    forall i, j :: 0 <= i < j < |tags| ==> tags[i].value != tags[j].value
  }

  // ---------------------------------------------------------------------------
  // Commit on Enter (checkForNewTag)
  // ---------------------------------------------------------------------------

  /** The tag list after a commit: the text after the last tag (or the whole
      buffer when there is no tag) becomes a new tag when it is not empty.
      The source reads the pending text with substring(lastTag.to), which
      throws unless 0 <= lastTag.to <= |text|. */
  function Commit(text: string, tags: seq<Tag>): (r: seq<Tag>)
    requires tags != [] ==> 0 <= tags[|tags| - 1].to <= |text|
    ensures |tags| <= |r| <= |tags| + 1 && r[..|tags|] == tags
    ensures |r| == |tags| + 1 <==>
              if tags == [] then text != [] else tags[|tags| - 1].to < |text|
    ensures |r| == |tags| + 1 ==>
              && r[|tags|].from == (if tags == [] then 0 else tags[|tags| - 1].to)
              && r[|tags|].to == |text|
              && r[|tags|].value == text[r[|tags|].from..]
  {
    if tags != [] then
      var from := tags[|tags| - 1].to;
      var pending := text[from..];
      if |pending| > 0 then tags + [Tag(pending, from, |text|)] else tags
    else if |text| > 0 then
      [Tag(text, 0, |text|)]
    else
      []
  }

  /** A commit keeps the list sorted, non-overlapping, width-consistent and
      indexing the buffer: the new tag starts where the last one ends. */
  lemma {:induction false} CommitPreservesCovers(text: string, tags: seq<Tag>)
    requires Covers(tags, text)
    ensures Covers(Commit(text, tags), text)
  {
    var r := Commit(text, tags);
    if |r| == |tags| + 1 {
      var n := |tags|;
      assert r[..n] == tags;
      forall i | 0 <= i < n
        ensures r[i] == tags[i] && r[i].to <= r[n].from
      {
        assert r[i] == r[..n][i];
        if n > 0 && i < n - 1 {
          assert tags[i].to <= tags[n - 1].from;
        }
      }
    }
  }

  /** Pressing Enter twice in a row commits nothing the second time. */
  lemma {:induction false} CommitIdempotent(text: string, tags: seq<Tag>)
    requires tags != [] ==> 0 <= tags[|tags| - 1].to <= |text|
    ensures Commit(text, Commit(text, tags)) == Commit(text, tags)
  {
    var r := Commit(text, tags);
    if r != [] {
      assert r[|r| - 1].to == |text| by {
        if |r| == |tags| + 1 {
        } else {
          assert r == r[..|tags|];
        }
      }
    }
  }

  // ---------------------------------------------------------------------------
  // Delete at a position (removeByPositionInText)
  // ---------------------------------------------------------------------------

  /** Index of the first tag that starts at start, or -1 if none does. */
  function FirstAt(tags: seq<Tag>, start: int): (k: int)
    ensures -1 <= k < |tags|
    ensures k >= 0 ==> tags[k].from == start
    ensures forall j :: 0 <= j < |tags| && (k < 0 || j < k) ==> tags[j].from != start
  {
    if tags == [] then -1
    else if tags[0].from == start then 0
    else
      var k := FirstAt(tags[1..], start);
      if k < 0 then -1 else k + 1
  }

  /** The tag list after a deletion starting at start: the first tag that
      starts there is dropped; no other tag moves. */
  function RemoveAtPosition(tags: seq<Tag>, start: int): (r: seq<Tag>)
    ensures r == tags <==> forall j :: 0 <= j < |tags| ==> tags[j].from != start
    ensures r != tags ==>
              exists k :: 0 <= k < |tags| && tags[k].from == start
                          && (forall j :: 0 <= j < k ==> tags[j].from != start)
                          && r == tags[..k] + tags[k + 1..]
  {
    var k := FirstAt(tags, start);
    if k < 0 then tags
    else
      assert |tags[..k] + tags[k + 1..]| < |tags|;
      tags[..k] + tags[k + 1..]
  }

  /** Removing one tag leaves a subsequence: the list stays well formed and
      every remaining tag still indexes the same buffer. */
  lemma {:induction false} RemoveAtPositionPreservesCovers(tags: seq<Tag>, text: string, start: int)
    requires Covers(tags, text)
    ensures Covers(RemoveAtPosition(tags, start), text)
  {
    var k := FirstAt(tags, start);
    if k >= 0 {
      var r := RemoveAtPosition(tags, start);
      assert r == tags[..k] + tags[k + 1..];
      assert forall i :: 0 <= i < |r| ==> r[i] == tags[if i < k then i else i + 1];
    }
  }

  // ---------------------------------------------------------------------------
  // Delete by value (removeByTagValue)
  // ---------------------------------------------------------------------------

  /** Index of the last tag before position j whose value is value, or -1. */
  function LastMatchBefore(tags: seq<Tag>, value: string, j: int): (m: int)
    requires 0 <= j <= |tags|
    ensures -1 <= m < j
    ensures m >= 0 ==> tags[m].value == value
    ensures forall i :: m < i < j ==> tags[i].value != value
    decreases j
  {
    if j == 0 then -1
    else if tags[j - 1].value == value then j - 1
    else LastMatchBefore(tags, value, j - 1)
  }

  /** Tag j as the scan of removeByTagValue leaves it: moved left by the
      width of the most recent match before it, if there is one. */
  function ScannedTag(tags: seq<Tag>, value: string, j: int): (t: Tag)
    requires 0 <= j < |tags|
    ensures t.value == tags[j].value && Width(t) == Width(tags[j])
  {
    var m := LastMatchBefore(tags, value, j);
    if m < 0 then tags[j] else ShiftLeft(tags[j], Width(tags[m]))
  }

  /** The first n tags as the scan of removeByTagValue leaves them. */
  function ScannedPrefix(tags: seq<Tag>, value: string, n: int): (r: seq<Tag>)
    requires 0 <= n <= |tags|
    ensures |r| == n
    ensures forall j {:trigger r[j]} :: 0 <= j < n ==> r[j] == ScannedTag(tags, value, j)
  {
    if n == 0 then [] else ScannedPrefix(tags, value, n - 1) + [ScannedTag(tags, value, n - 1)]
  }

  /** The whole list after the scan of removeByTagValue. */
  function ShiftedForRemoval(tags: seq<Tag>, value: string): (r: seq<Tag>)
    ensures |r| == |tags|
    ensures forall j {:trigger r[j]} :: 0 <= j < |tags| ==> r[j] == ScannedTag(tags, value, j)
  {
    ScannedPrefix(tags, value, |tags|)
  }

  /** The substring calls of removeByTagValue stay inside the buffer: the
      removed tag, as shifted by the scan, lies within text. */
  ghost predicate SpliceInBounds(text: string, tags: seq<Tag>, value: string)
  {
    var k := LastMatchBefore(tags, value, |tags|);
    var sh := ShiftedForRemoval(tags, value);
    k < 0 || (0 <= sh[k].from <= |text| && 0 <= sh[k].to <= |text|)
  }

  /** The tag list after removeByTagValue: the last match is dropped from the
      shifted list; with no match the list is unchanged. */
  function RemovedTags(tags: seq<Tag>, value: string): (r: seq<Tag>)
    ensures (forall j :: 0 <= j < |tags| ==> tags[j].value != value) <==> r == tags
    ensures r != tags ==> |r| == |tags| - 1
    ensures r != tags ==>
              exists k :: 0 <= k < |tags| && tags[k].value == value
                          && (forall j :: k < j < |tags| ==> tags[j].value != value)
                          && r == ShiftedForRemoval(tags, value)[..k] + ShiftedForRemoval(tags, value)[k + 1..]
  {
    var k := LastMatchBefore(tags, value, |tags|);
    if k < 0 then tags
    else
      var sh := ShiftedForRemoval(tags, value);
      assert |sh[..k] + sh[k + 1..]| < |tags|;
      sh[..k] + sh[k + 1..]
  }

  /** The buffer after removeByTagValue: the characters of the removed tag (at
      its shifted offsets) are cut out. */
  function RemovedText(text: string, tags: seq<Tag>, value: string): (r: string)
    requires SpliceInBounds(text, tags, value)
    ensures (forall j :: 0 <= j < |tags| ==> tags[j].value != value) ==> r == text
    ensures forall k :: 0 <= k < |tags| && tags[k].value == value
                        && (forall j :: k < j < |tags| ==> tags[j].value != value) ==>
              var sh := ShiftedForRemoval(tags, value);
              0 <= sh[k].from <= |text| && 0 <= sh[k].to <= |text|
              && r == text[..sh[k].from] + text[sh[k].to..]
  {
    var k := LastMatchBefore(tags, value, |tags|);
    if k < 0 then text
    else
      var sh := ShiftedForRemoval(tags, value);
      text[..sh[k].from] + text[sh[k].to..]
  }

  /** When the tags index the buffer, the substring calls never throw,
      whatever the value and even with duplicate values. */
  lemma {:induction false} CoversAllowsRemoval(text: string, tags: seq<Tag>, value: string)
    requires Covers(tags, text)
    ensures SpliceInBounds(text, tags, value)
  {
    var k := LastMatchBefore(tags, value, |tags|);
    if k >= 0 {
      var m := LastMatchBefore(tags, value, k);
      var sh := ShiftedForRemoval(tags, value);
      if m >= 0 {
        assert tags[m].to <= tags[k].from;
        assert sh[k] == ShiftLeft(tags[k], Width(tags[m]));
      }
    }
  }

  /** With unique values, the scan sees exactly one match: before it no match,
      after it always that one. */
  lemma UniqueLastMatch(tags: seq<Tag>, value: string, k: int, j: int)
    requires Unique(tags) && 0 <= k < |tags| && tags[k].value == value
    requires 0 <= j <= |tags|
    ensures LastMatchBefore(tags, value, j) == if k < j then k else -1
  {
  }

  /** With unique values the scan leaves the tags up to the match in place and
      moves every later tag left by the width of the match. */
  lemma {:induction false} UniqueShift(tags: seq<Tag>, value: string, k: int)
    requires Unique(tags) && 0 <= k < |tags| && tags[k].value == value
    ensures LastMatchBefore(tags, value, |tags|) == k
    ensures forall j {:trigger ShiftedForRemoval(tags, value)[j]} :: 0 <= j <= k ==>
              ShiftedForRemoval(tags, value)[j] == tags[j]
    ensures forall j {:trigger ShiftedForRemoval(tags, value)[j]} :: k < j < |tags| ==>
              ShiftedForRemoval(tags, value)[j] == ShiftLeft(tags[j], Width(tags[k]))
  {
    UniqueLastMatch(tags, value, k, |tags|);
    forall j | 0 <= j < |tags|
      ensures LastMatchBefore(tags, value, j) == if k < j then k else -1
    {
      UniqueLastMatch(tags, value, k, j);
    }
  }

  /** Cutting [s.from, s.to) out of text leaves a tag that ends before the cut
      where it was. */
  lemma SpliceKeepsEarlier(text: string, sFrom: int, sTo: int, from: int, to: int)
    requires 0 <= sFrom <= sTo <= |text| && 0 <= from <= to <= sFrom
    ensures (text[..sFrom] + text[sTo..])[from..to] == text[from..to]
  {
    var t := text[..sFrom] + text[sTo..];
    assert forall i :: 0 <= i < to - from ==> t[from..to][i] == text[from..to][i];
  }

  /** Cutting [s.from, s.to) out of text moves a tag that starts after the cut
      left by the width of the cut. */
  lemma SpliceShiftsLater(text: string, sFrom: int, sTo: int, from: int, to: int)
    requires 0 <= sFrom <= sTo <= from <= to <= |text|
    ensures (text[..sFrom] + text[sTo..])[from - (sTo - sFrom)..to - (sTo - sFrom)] == text[from..to]
  {
    var w := sTo - sFrom;
    var t := text[..sFrom] + text[sTo..];
    assert forall i :: 0 <= i < to - from ==> t[from - w..to - w][i] == text[from..to][i];
  }

  /** One element of the list left by a removal with unique values. */
  lemma RemovedTagAt(tags: seq<Tag>, value: string, k: int, i: int)
    requires Unique(tags)
    requires 0 <= k < |tags| && tags[k].value == value
    requires 0 <= i < |tags| - 1
    ensures |RemovedTags(tags, value)| == |tags| - 1
    ensures RemovedTags(tags, value)[i] ==
              if i < k then tags[i] else ShiftLeft(tags[i + 1], Width(tags[k]))
  {
    var sh := ShiftedForRemoval(tags, value);
    UniqueShift(tags, value, k);
    var r := RemovedTags(tags, value);
    assert r == sh[..k] + sh[k + 1..];
    assert r[i] == sh[if i < k then i else i + 1];
  }

  /** With unique values, removing a tag by value cuts exactly its characters
      out of the buffer, drops it from the list, leaves earlier tags alone and
      moves each later tag left by its width. */
  lemma {:induction false} RemoveByValueUnique(text: string, tags: seq<Tag>, value: string, k: int)
    requires Covers(tags, text) && Unique(tags)
    requires 0 <= k < |tags| && tags[k].value == value
    ensures SpliceInBounds(text, tags, value)
    ensures RemovedText(text, tags, value) == text[..tags[k].from] + text[tags[k].to..]
    ensures |RemovedTags(tags, value)| == |tags| - 1
    ensures forall i {:trigger RemovedTags(tags, value)[i]} :: 0 <= i < k ==>
              RemovedTags(tags, value)[i] == tags[i]
    ensures forall i {:trigger RemovedTags(tags, value)[i]} :: k <= i < |tags| - 1 ==>
              RemovedTags(tags, value)[i] == ShiftLeft(tags[i + 1], Width(tags[k]))
  {
    assert LastMatchBefore(tags, value, |tags|) == k
           && ShiftedForRemoval(tags, value)[k] == tags[k] by {
      UniqueShift(tags, value, k);
    }
    assert |RemovedTags(tags, value)| == |tags| - 1;
    forall i {:trigger RemovedTags(tags, value)[i]} | 0 <= i < |tags| - 1
      ensures RemovedTags(tags, value)[i] ==
                if i < k then tags[i] else ShiftLeft(tags[i + 1], Width(tags[k]))
    {
      RemovedTagAt(tags, value, k, i);
    }
  }

  /** Cutting tag s out of text keeps a tag t that lies entirely before the
      cut indexing its value, and a tag entirely after it once moved left by
      the width of s. */
  lemma SplicedTagIndexes(text: string, s: Tag, t: Tag, before: bool)
    requires 0 <= s.from <= s.to <= |text|
    requires 0 <= t.from && t.to - t.from == |t.value| > 0
    requires t.to <= |text| && text[t.from..t.to] == t.value
    requires if before then t.to <= s.from else s.to <= t.from
    ensures var u := if before then t else ShiftLeft(t, Width(s));
            var c := text[..s.from] + text[s.to..];
            0 <= u.from && u.to - u.from == |u.value| > 0
            && u.to <= |c| && c[u.from..u.to] == u.value
  {
    if before {
      SpliceKeepsEarlier(text, s.from, s.to, t.from, t.to);
    } else {
      SpliceShiftsLater(text, s.from, s.to, t.from, t.to);
    }
  }

  /** After a removal with unique values, remaining tags i < j do not overlap. */
  lemma RemovedTagsOrdered(text: string, tags: seq<Tag>, value: string, k: int, i: int, j: int)
    requires Covers(tags, text) && Unique(tags)
    requires 0 <= k < |tags| && tags[k].value == value
    requires 0 <= i < j < |tags| - 1
    ensures |RemovedTags(tags, value)| == |tags| - 1
    ensures RemovedTags(tags, value)[i].to <= RemovedTags(tags, value)[j].from
  {
    RemovedTagAt(tags, value, k, i);
    RemovedTagAt(tags, value, k, j);
    var ii := if i < k then i else i + 1;
    var jj := if j < k then j else j + 1;
    assert tags[ii].to <= tags[jj].from;
    if ii < k < jj {
      assert tags[ii].to <= tags[k].from && tags[k].to <= tags[jj].from;
    }
  }

  /** ... and so every remaining tag still indexes its own value, and the
      list stays sorted and non-overlapping. */
  lemma {:induction false} RemoveByValueUniquePreservesCovers(text: string, tags: seq<Tag>, value: string, k: int)
    requires Covers(tags, text) && Unique(tags)
    requires 0 <= k < |tags| && tags[k].value == value
    ensures SpliceInBounds(text, tags, value)
    ensures Covers(RemovedTags(tags, value), RemovedText(text, tags, value))
  {
    CoversAllowsRemoval(text, tags, value);
    var r := RemovedTags(tags, value);
    var t := RemovedText(text, tags, value);
    RemoveByValueUnique(text, tags, value, k);
    forall i {:trigger r[i]} | 0 <= i < |r|
      ensures 0 <= r[i].from && r[i].to - r[i].from == |r[i].value| > 0
      ensures r[i].to <= |t| && t[r[i].from..r[i].to] == r[i].value
    {
      if i < k {
        assert tags[i].to <= tags[k].from;
        SplicedTagIndexes(text, tags[k], tags[i], true);
      } else {
        assert tags[k].to <= tags[i + 1].from;
        SplicedTagIndexes(text, tags[k], tags[i + 1], false);
      }
    }
    forall i, j {:trigger r[i], r[j]} | 0 <= i < j < |r|
      ensures r[i].to <= r[j].from
    {
      RemovedTagsOrdered(text, tags, value, k, i, j);
    }
  }

  /** Removal by value preserves the coverage invariant whenever the values
      are unique, whether or not the value is present. */
  lemma {:induction false} RemovalPreservesCovers(text: string, tags: seq<Tag>, value: string)
    requires Covers(tags, text) && Unique(tags)
    ensures SpliceInBounds(text, tags, value)
    ensures Covers(RemovedTags(tags, value), RemovedText(text, tags, value))
  {
    var k := LastMatchBefore(tags, value, |tags|);
    if k < 0 {
      CoversAllowsRemoval(text, tags, value);
    } else {
      RemoveByValueUniquePreservesCovers(text, tags, value, k);
    }
  }

  /** With duplicate values the scan misbehaves. For tags x, y, x over the
      buffer x + y + x, removing x drops the last x but cuts out the
      characters of y (the shifted offsets of the last x), leaving tags x and
      y overlapping on a buffer x + x. */
  lemma DuplicateRemovalBreaksCovers(x: string, y: string)
    requires |x| == 1 && |y| == 1 && x != y
    ensures var tags := [Tag(x, 0, 1), Tag(y, 1, 2), Tag(x, 2, 3)];
            && Covers(tags, x + y + x)
            && SpliceInBounds(x + y + x, tags, x)
            && RemovedTags(tags, x) == [Tag(x, 0, 1), Tag(y, 0, 1)]
            && RemovedText(x + y + x, tags, x) == x + x
            && !WellFormed(RemovedTags(tags, x))
  {
    var tags := [Tag(x, 0, 1), Tag(y, 1, 2), Tag(x, 2, 3)];
    var text := x + y + x;
    assert text[0..1] == x && text[1..2] == y && text[2..3] == x;
    assert LastMatchBefore(tags, x, 1) == 0;
    assert LastMatchBefore(tags, x, 2) == 0;
    assert LastMatchBefore(tags, x, 3) == 2;
    var sh := ShiftedForRemoval(tags, x);
    assert sh[0] == ScannedTag(tags, x, 0) == Tag(x, 0, 1);
    assert sh[1] == ScannedTag(tags, x, 1) == Tag(y, 0, 1);
    assert sh[2] == ScannedTag(tags, x, 2) == Tag(x, 1, 2);
    assert sh[..2] + sh[3..] == [Tag(x, 0, 1), Tag(y, 0, 1)];
    assert text[..1] + text[2..] == x + x;
  }
}
