# TagEditText tag bookkeeping, in Dafny

TagEditText is an Android `EditText` that turns what the user types into
"tags" (chips). The widget keeps three things in step:

- the text buffer;
- an ordered list of tags, each a value with the half-open range
  `[from, to)` of the buffer it covers;
- a flag (`mShouldTriggerTextWatcher`) that `removeByTagValue` clears around
  its own `setText` (TagEditText.java:142-144), so that this one call is not
  read as a user deletion. The `setText` in `setTags` runs with the flag
  set, and is read as a deletion at 0 whenever it shortens the buffer.

It also pins the caret to the end of the text.

This project models that bookkeeping in two modules:

- `TagRanges` (tag_ranges.dfy) holds the `Tag` value and the pure functions
  that say what each list operation computes. Those are committing the
  pending text (`Commit`), deleting the tag at a position
  (`RemoveAtPosition`), and the scan-and-splice of deletion by value
  (`ShiftedForRemoval`, `RemovedTags`, `RemovedText`). It also holds the
  coverage invariant `Covers`: tags are non-empty, sorted, non-overlapping,
  exactly as wide as their values, and each indexes its own value in the
  buffer. Lemmas show that a commit, a deletion of the tag at a position
  over the same buffer, and a removal by value with unique values keep it.
  With duplicate values, removal by value breaks it
  (`DuplicateRemovalBreaksCovers`). A user edit keeps it when typing at the
  end or deleting exactly the last tag, and breaks it for some other
  deletions (see `UserEdit` under "## Left out").
- `TagEditText` (tag_edit_text.dfy) holds the input filter and a class
  `TagEditText`. The class fields are the buffer, the tag list, the flag and
  the selection, and its methods follow the Java methods statement by
  statement. Each method is proved to leave exactly the state that the
  `TagRanges` functions describe.

Two behaviours of the code are easy to miss:

- `removeByTagValue` removes the **last** tag with the given value, not the
  first. `found` is overwritten at every match. Each tag after a match is
  moved left by the width of the most recent match before it.
- `removeByPositionInText` moves no tag. Its shift sits after the `break`
  and is guarded by `found != -1`, so it can never run. The model leaves
  that dead statement out, and its contract states that only the removed
  tag is gone.

The only call of `removeByTagValue` in the source is commented out, inside the
chip's `onClick` (TagEditText.java:231). So removal by value never runs in
the program as shipped, and `RemoveByTagValue` models a direct call.

Tags are values here (`datatype Tag`). The Java loop that updates
`tag.from` and `tag.to` in place becomes `tags := tags[i := tag]`.

## Model

| member | source | states |
|---|---|---|
| TagRanges.Commit | library/src/main/java/presidente/oscar/tagedittext/TagEditText.java:172-196 | The earlier tags are kept as they are and at most one tag is appended. A tag is appended iff the pending text (after the last tag's `to`, or the whole buffer when there is no tag) is non-empty. The new tag starts at the last tag's `to` (or 0), ends at `\|text\|` and holds exactly the pending text. Requires `0 <= last.to <= \|text\|`, where `substring` would otherwise throw. |
| TagRanges.CommitPreservesCovers | library/src/main/java/presidente/oscar/tagedittext/TagEditText.java:179-193 | If the tags covered the buffer before a commit, they still do after it: the new tag is as wide as its value and starts where the last one ends. |
| TagRanges.CommitIdempotent | library/src/main/java/presidente/oscar/tagedittext/TagEditText.java:172-196 | Committing twice in a row adds nothing the second time. |
| TagRanges.FirstAt | library/src/main/java/presidente/oscar/tagedittext/TagEditText.java:152-159 | The index the position scan stops at is the first tag whose `from` equals `start`, or -1 when no tag starts there. |
| TagRanges.RemoveAtPosition | library/src/main/java/presidente/oscar/tagedittext/TagEditText.java:149-170 | The list is unchanged iff no tag starts at `start`. Otherwise exactly the first such tag is dropped and every other tag keeps its offsets. |
| TagRanges.RemoveAtPositionPreservesCovers | library/src/main/java/presidente/oscar/tagedittext/TagEditText.java:149-170 | Deleting the tag at a position keeps the coverage invariant over the same buffer. |
| TagRanges.LastMatchBefore | library/src/main/java/presidente/oscar/tagedittext/TagEditText.java:121-131 | After scanning `j` tags, `found` is the last index below `j` whose value matches, or -1 when there is none. |
| TagRanges.ShiftedForRemoval | library/src/main/java/presidente/oscar/tagedittext/TagEditText.java:121-133 | After the scan, each tag keeps its value and width. A tag is moved left by the width of the most recent match before it, if there is one. |
| TagRanges.RemovedTags | library/src/main/java/presidente/oscar/tagedittext/TagEditText.java:121-136 | The list after removal by value is unchanged iff no tag carries the value. Otherwise it is exactly one tag shorter: the scanned list with the LAST tag carrying the value dropped, so no later tag carries it. This holds with duplicate values too. |
| TagRanges.RemovedText | library/src/main/java/presidente/oscar/tagedittext/TagEditText.java:121-143 | The buffer after removal by value is unchanged when no tag carries the value. Otherwise the characters between the scanned `from` and `to` of the last tag carrying the value are cut out, and those offsets lie within the buffer. This holds with duplicate values too. |
| TagRanges.CoversAllowsRemoval | library/src/main/java/presidente/oscar/tagedittext/TagEditText.java:138-140 | When the tags cover the buffer, both `substring` calls of the removal stay in bounds for every value, duplicates included. |
| TagRanges.UniqueShift | library/src/main/java/presidente/oscar/tagedittext/TagEditText.java:121-133 | With unique values the scan finds exactly the match. It leaves the tags up to the match in place and moves every later tag left by the match's width. |
| TagRanges.RemoveByValueUnique | library/src/main/java/presidente/oscar/tagedittext/TagEditText.java:117-147 | With unique values, removing the tag at `k` cuts exactly `text[from..to)` out of the buffer and drops that tag. Earlier tags are unchanged and each later tag moves left by the removed width. |
| TagRanges.RemoveByValueUniquePreservesCovers | library/src/main/java/presidente/oscar/tagedittext/TagEditText.java:117-147 | With unique values, after removing a present value every remaining tag still indexes its own value in the new buffer, and the list stays sorted and non-overlapping. |
| TagRanges.RemovalPreservesCovers | library/src/main/java/presidente/oscar/tagedittext/TagEditText.java:117-147 | With unique values, removal by any value, present or not, keeps the coverage invariant. |
| TagRanges.DuplicateRemovalBreaksCovers | library/src/main/java/presidente/oscar/tagedittext/TagEditText.java:121-140 | With duplicate values the invariant is lost. Take tags x, y, x over the buffer x+y+x and remove x. The last x is dropped, but the characters of y are cut out, because they sit at the last x's shifted offsets. The result is tags x and y overlapping on buffer x+x. |
| TagEditText.Filter | library/src/main/java/presidente/oscar/tagedittext/TagEditText.java:37-47 | The filter returns a replacement iff the source is non-null and contains a comma, and that replacement is the empty string. Otherwise it returns null, meaning the insertion is kept. |
| TagEditText.Accepted | library/src/main/java/presidente/oscar/tagedittext/TagEditText.java:39-46 | Once the filter is applied, the inserted text never contains a comma. It is empty when the source holds a comma, and otherwise it is exactly the source slice. |
| TagEditText.FilterDropsWholeInsertion | library/src/main/java/presidente/oscar/tagedittext/TagEditText.java:41-43 | An insertion that contains a comma is dropped whole, not just its commas. The result is always either the full slice or nothing. |
| TagEditText.InnerDeletionStrandsLastTag | library/src/main/java/presidente/oscar/tagedittext/TagEditText.java:172-176 | Take a comma-free two-character buffer. Committing it gives one tag over [0, 2). Deleting its second character starts no tag, so the watcher drops nothing, while the buffer shrinks to one character. The tag then ends past the buffer, and the next commit's `substring(lastTag.to)` would be out of bounds. |
| TagEditText.AppendKeepsCovers | library/src/main/java/presidente/oscar/tagedittext/TagEditText.java:87-92 | A user edit that types at the end of the buffer shrinks nothing, so the watcher removes no tag, and every tag still indexes its value in the longer buffer. The invariant is kept. |
| TagEditText.DeleteLastTagKeepsCovers | library/src/main/java/presidente/oscar/tagedittext/TagEditText.java:149-170 | When the last tag ends the buffer, deleting exactly its characters starts at its `from`. The position removal then drops that tag and no other, and the remaining tags cover the shortened buffer. |
| TagEditText.MultiTagDeletionBreaksCovers | library/src/main/java/presidente/oscar/tagedittext/TagEditText.java:149-170 | A deletion that starts at a tag's `from` but spans further tags breaks the invariant, because the position removal drops only the first tag starting there. Take tags x, y over x+y and delete both characters at 0: the tag y over [1, 2) is left on an empty buffer, and the next commit would be out of bounds. |
| TagEditText.TagEditText.constructor | library/src/main/java/presidente/oscar/tagedittext/TagEditText.java:65-71 | The widget starts with an empty tag list and the watcher armed. |
| TagEditText.TagEditText.OnSelectionChanged | library/src/main/java/presidente/oscar/tagedittext/TagEditText.java:105-115 | Afterwards the selection is always `(\|text\|, \|text\|)`. It is reset iff the reported selection was anything else. |
| TagEditText.TagEditText.RemoveByPositionInText | library/src/main/java/presidente/oscar/tagedittext/TagEditText.java:149-170 | The loop with its `break` leaves exactly `RemoveAtPosition(old tags, start)`. |
| TagEditText.TagEditText.BeforeTextChanged | library/src/main/java/presidente/oscar/tagedittext/TagEditText.java:87-92 | The position removal runs iff the edit shrinks the text (`after < count`) and the watcher is armed. Otherwise the list is untouched. |
| TagEditText.TagEditText.SetText | library/src/main/java/presidente/oscar/tagedittext/TagEditText.java:142-144 | The new text goes through the input filter first, so the buffer becomes the text itself when it has no comma and the empty text otherwise. If the watcher is armed and the buffer gets shorter, the tag starting at 0 is dropped. Otherwise the list is unchanged. |
| TagEditText.TagEditText.Render | library/src/main/java/presidente/oscar/tagedittext/TagEditText.java:198-239 | `setTags` sets the buffer back through the filter. A comma-free buffer and its tags stay unchanged. A buffer holding a comma is emptied, and with the watcher armed the tag starting at 0 is dropped. The caret ends at the end. |
| TagEditText.TagEditText.CheckForNewTag | library/src/main/java/presidente/oscar/tagedittext/TagEditText.java:172-196 | The list becomes `Commit(old text, old tags)` and a comma-free buffer is kept. If the buffer held a comma, the render empties it and, with the watcher armed, drops the tag at 0. The coverage invariant is kept for a comma-free buffer. The caret moves to the end whenever `setTags` runs, that is unless both the list and the buffer were empty. |
| TagEditText.TagEditText.CommitKey | library/src/main/java/presidente/oscar/tagedittext/TagEditText.java:76-80 | The editor action commits the pending text, with the same effect on list and buffer as `CheckForNewTag`. It keeps the invariant for a comma-free buffer, and the caret ends at the end of the text. |
| TagEditText.TagEditText.ScanForRemoval | library/src/main/java/presidente/oscar/tagedittext/TagEditText.java:118-133 | The in-place shifting loop leaves exactly `ShiftedForRemoval(old tags, value)` and returns the index of the last match, or -1. |
| TagEditText.TagEditText.RemoveByTagValue | library/src/main/java/presidente/oscar/tagedittext/TagEditText.java:117-147 | The list becomes `RemovedTags` and the buffer `RemovedText`, passed through the filter, which keeps it as it is when the buffer had no comma. Because the watcher is disarmed around `setText`, that call removes nothing more. After a removal the watcher is re-armed and the caret is at the end. When nothing matches, the buffer, flag and selection are unchanged. |
| TagEditText.TagEditText.UserEdit | library/src/main/java/presidente/oscar/tagedittext/TagEditText.java:85-92 | A platform edit is filtered, reported to the watcher, spliced into the buffer and reported to the selection handler. A buffer without commas stays without commas, and the caret ends at the end. |

## Left out

- Bitmap and span rendering in `setTags` is not modelled: the inflated `TextView`, measuring, `Bitmap`/`Canvas`, the drawing cache and the `ImageSpan`/`ClickableSpan`. It is Android graphics with no effect on the buffer characters or offsets, so `Render` is the `setText` of the same buffer followed by the caret move.
- `ClickableSpan.onClick` is not modelled. Its body is commented out, so it does nothing.
- The constructors, `init`'s platform calls (`setMovementMethod`, `setFilters`, `LayoutInflater`), the editor-action listener registration and its `KeyEvent.ACTION_UP` test are platform wiring. `CommitKey` is the body run on key release.
- `onTextChanged` and `afterTextChanged` are empty, so they are not modelled.
- The deduplication named in the TODO comment is not implemented in the source, so it is not modelled. `Unique` appears only as a hypothesis of lemmas.
- UserEdit: the invariant is not kept by every user edit. A deletion that starts inside a tag (`InnerDeletionStrandsLastTag`) or that starts at a tag's `from` and spans several tags (`MultiTagDeletionBreaksCovers`) leaves tags that no longer index the buffer. `removeByPositionInText` drops at most one tag and moves none. The invariant is proved kept only for typing at the end (`AppendKeepsCovers`) and for deleting exactly the last tag (`DeleteLastTagKeepsCovers`).
- UserEdit: the platform's own application of an edit is outside the file. It is modelled as filter, then `beforeTextChanged`, then splice, then the selection report.
- SetText: Android's `setText` also moves the selection, which is not modelled. `setTags` moves the caret to the end right after every `setText` that counts. The input filter that `setText` runs *is* modelled. A buffer can hold a comma only through the text the platform gives the view before `init` installs the filter. Such a buffer is emptied by the next render, and `Render`, `CheckForNewTag`, `CommitKey` and `RemoveByTagValue` state what happens then.
- RemoveByTagValue: the `Covers` invariant is not stated as a postcondition of the method. It is proved about `RemovedTags`/`RemovedText` by `RemovalPreservesCovers`, which the method's postconditions connect to.
- Tag object identity and aliasing are not modelled: tags are values. Nothing outside the list holds a `Tag`, so no behaviour is lost.
- The Java exceptions that `substring` throws on a bad offset are not modelled. They become preconditions instead: `0 <= last.to <= |text|` for `CheckForNewTag` and `CommitKey`, and `SpliceInBounds` for `RemoveByTagValue`. `CoversAllowsRemoval` proves that the latter holds whenever the invariant does.
- CheckForNewTag: the precondition `0 <= last.to <= |text|` can be broken by the widget's own use. Two kinds of user deletion reach this state. One starts inside the last tag, not at its `from`, and removes no tag while shortening the buffer (`InnerDeletionStrandsLastTag`). The other spans several tags from the first one's `from` and removes only that first tag (`MultiTagDeletionBreaksCovers`). Either way the last tag ends past the buffer, and on the next Enter the source throws at `substring(lastTag.to)`. The model does not go past it.
- CommitKey: the same precondition and the same stranded state apply. The invariant results for commits (`CommitPreservesCovers` and the `Covers` postconditions) assume the invariant beforehand, so they do not cover edit sequences that include such a deletion. `UserEdit` does not preserve the invariant.
- The `count` argument of `removeByPositionInText` is accepted but unused, because it feeds only the dead shift.
- Filter: the `start`, `end`, `dest`, `dstart` and `dend` arguments are ignored by the source and are left out.
- Text is a sequence of Unicode scalar values, while Java's offsets and `length()` count UTF-16 code units. A tag holding a character outside the Basic Multilingual Plane is 1 wide here and 2 wide in the source. Offsets stay consistent within the model, so the only behaviour lost is an edit that splits a surrogate pair.
- A null buffer in `onSelectionChanged` is not modelled, because the buffer is a value that is never null.
