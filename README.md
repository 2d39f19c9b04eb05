# classpicker: the course table's selection and tag store, and the map's pin pipeline

classpicker is a course-planning web application. This project models two parts of it in
Dafny and proves properties of them.

- **The course table** (`ClassTable`) keeps the courses committed to the student's timetable
  (`selectedClasses`) and a tag index (`courseTags`). The tag index maps a course id
  (`開課序號`) to the student's tags for that course. The table also keeps the rows ticked on
  the current page (`actionClasses`) and the text of the tag input box. After each committed
  change, a handler writes the collection it changed to `localStorage` and leaves the other
  stored collection as it was. This part is modelled as the class
  `ClassTableComponent.ClassTable`:
  - one method per event handler, with `modifies this`;
  - the method `ShowCourses` for the effect that clears the checked rows when the page or the
    course list changes;
  - the helper method `TagCheckedRows`, which is the add-tag handler's work past its two guards;
  - two `persisted…` fields standing for what `localStorage` holds;
  - a ghost predicate `Synced` saying that the stored copies agree with memory.
  
  The changes a handler makes to the tag index are pure functions of module `Tags`. The add-tag
  loop is a method, `ClassTableComponent.TagRows`, proved against one of those functions.
- **The map page** (`MapPage`) builds the list of pins in four steps:
  1. Each selected course's meeting string (`地點時間`) is turned into a place key: the third and
     fourth space-separated words, glued together.
  2. The place key is looked up in the gazetteer.
  3. The landmark pins and the resulting course pins are concatenated.
  4. `shiftDuplicates` nudges every pin whose coordinates were already recorded.
  
  The course-pin loop and the `shiftDuplicates` loop are methods. Each is proved equal to a
  reference function (`ResolvedPins`, `Shifted`), and the lemmas about the pipeline are stated
  on those functions.

Courses are objects compared by identity (`includes`, `!==`), so `Courses.Course` is a class
with `const` fields, and Dafny's reference equality stands for JavaScript's. The JavaScript
built-ins the code relies on are written out with their ECMAScript meaning in module `JsText`:
- `trim`, using the ECMAScript whitespace set;
- `length`, counted in UTF-16 code units;
- `split` on a one-character separator;
- `slice` and `join("")`.

Coordinates are integers in units of 10^-7 degree. The shift of 0.000065 degree is then
exactly 650 units (`MapPage.SHIFT_AMOUNT`).

What the code does, as the model states it:

- **The tag is stored raw.** A tag is accepted when it is not blank and its *raw* length is at
  most 20. The untrimmed input is what gets stored. `" Algo"` is accepted and stored with its
  leading blank. `"Algo"` followed by 17 blanks is rejected, although it trims to 4 characters.
  The lower bound `length < 1` can never reject an input that passed the blank test.
- **Adding courses does not deduplicate.** Adding checked courses appends them to the
  selection as they are, so a course already selected is selected twice.
- **Distinct output coordinates are not guaranteed.** `shiftDuplicates` records only the
  coordinates of pins it did not move, and compares each pin's *original* coordinates against
  that record. Two cases show that the output can still hold two pins with the same
  coordinates:
  - three pins at one place: the second and third both move to the same spot;
  - a pin that moves onto a spot recorded earlier.
  
  `MapPage.ThreePinsCollide` and `MapPage.ShiftedCanHitRecorded` exhibit these cases. What the
  pass does guarantee is that two pins it leaves in place never share coordinates
  (`MapPage.UnshiftedDistinct`).

## Model

| member | source | states |
|---|---|---|
| Common.Minus | src/components/ClassTable.tsx:50 | `filter(c => !doomed.includes(c))`: keeps exactly the elements not in `doomed` and never grows the list |
| Common.MinusCount | src/components/ClassTable.tsx:50 | a kept element keeps its number of occurrences, and a removed one has none left |
| JsText.TrimStart | src/components/ClassTable.tsx:59 | the leading part of `trim`: the result is the suffix starting at the first non-whitespace character |
| JsText.TrimEnd | src/components/ClassTable.tsx:59 | the trailing part of `trim`: the result is the prefix ending at the last non-whitespace character |
| JsText.Trim | src/components/ClassTable.tsx:59 | `trim()` is the leading then the trailing strip; the result is no longer than the input and neither starts nor ends with whitespace |
| JsText.TrimEmptyIff | src/components/ClassTable.tsx:59 | `!s.trim()` holds exactly when every character of `s` is ECMAScript whitespace |
| JsText.Utf16Length | src/components/ClassTable.tsx:61 | `length` counts UTF-16 code units: between one and two per character |
| JsText.Split | src/pages/map.tsx:45 | `split(" ")` always yields at least one piece, and no piece holds the separator |
| JsText.JoinSplit | src/pages/map.tsx:45 | joining the pieces of a split with the separator gives the string back |
| JsText.SplitJoin | src/pages/map.tsx:45 | splitting a join of separator-free pieces gives the pieces back |
| JsText.Slice | src/pages/map.tsx:45 | `slice(start, end)` has `min(end, length) - start` elements, none when that is not positive, and element `k` is element `start + k` of the array |
| JsText.Concat | src/pages/map.tsx:45 | `join("")` of zero, one or two pieces is `""`, the piece, or the two glued together |
| Tags.TagAccepted | src/components/ClassTable.tsx:59-63 | the two early returns: the input goes on only when it does not trim to empty and its raw UTF-16 length is within 1..20 (characterised by `TagAcceptedIff`) |
| Tags.TagAcceptedIff | src/components/ClassTable.tsx:59-63 | an input passes both guards exactly when it has a non-whitespace character and its raw length is at most 20 (the `< 1` test never rejects) |
| Tags.UntrimmedTagAccepted | src/components/ClassTable.tsx:59-72 | `" Algo"` passes the guards although it differs from its trimmed form: the raw input is what is stored |
| Tags.PaddedTagRejected | src/components/ClassTable.tsx:59-63 | a word padded with trailing blanks past 20 characters, such as `"Algo"` plus 17 blanks, trims to the word yet is rejected, because the length is checked on the raw input |
| Tags.WithTag | src/components/ClassTable.tsx:68-73 | one course's list after the step: holds the tag, keeps the old list as a prefix, grows by at most one, adds nothing else, and stays duplicate-free |
| Tags.AddOne | src/components/ClassTable.tsx:67-73 | one iteration of the `forEach`: the course id's list, created empty when absent, gets the tag unless it holds it already |
| Tags.AddTagAll | src/components/ClassTable.tsx:65-74 | the whole `forEach` on a copy of the index, one iteration per checked course id in order (characterised key by key by `AddTagAllAt`) |
| Tags.AddTagAllAt | src/components/ClassTable.tsx:65-74 | after the loop, a listed id holds its old list with the tag added once (the list is created when absent); other keys are untouched and no other key appears |
| Tags.AddTagAllAppends | src/components/ClassTable.tsx:68-73 | a listed id's list is unchanged if it had the tag, otherwise it is the old list with the tag appended |
| Tags.AddTagAllOnce | src/components/ClassTable.tsx:71-73 | on a well-formed index, every listed course holds the tag exactly once, even when a course is listed twice |
| Tags.AddTagAllOthers | src/components/ClassTable.tsx:65-74 | ids not in the checked rows keep their entry, or stay absent |
| Tags.AddTagAllWellFormed | src/components/ClassTable.tsx:65-74 | adding a tag keeps every list non-empty and duplicate-free |
| Tags.AddTagAllIdempotent | src/components/ClassTable.tsx:65-74 | adding the same tag to the same courses twice is the same as adding it once |
| Tags.RemoveTagFrom | src/components/ClassTable.tsx:81-91 | the remove handler on a copy of the index: a present key's list is filtered of the tag and the key deleted when the list empties; an absent key leaves the index alone (characterised by `RemoveTagAt`) |
| Tags.RemoveTagAt | src/components/ClassTable.tsx:81-91 | removing a tag leaves other keys alone; the course keeps its key exactly when a different tag remains; its list is the old list without any copy of the tag; an absent key changes nothing |
| Tags.RemoveTagWellFormed | src/components/ClassTable.tsx:81-91 | removing a tag keeps every list non-empty and duplicate-free |
| Tags.RemoveUndoesAdd | src/components/ClassTable.tsx:58-91 | on a well-formed index, removing a tag just added to a course that lacked it restores the index |
| Tags.AddFirstTag | src/components/ClassTable.tsx:65-74 | adding "Algo" to course A1 of an empty index gives {"A1": ["Algo"]} |
| Tags.RemoveOnlyTag | src/components/ClassTable.tsx:81-91 | removing the only tag of A1 deletes the key: {"A1": ["Algo"]} becomes {} |
| ClassTableComponent.Toggled | src/components/ClassTable.tsx:30-36 | after a row click, the row is checked exactly when it was not; every other row keeps its state |
| ClassTableComponent.ToggledTwice | src/components/ClassTable.tsx:30-36 | two clicks on the same row restore which rows are checked, and restore the list itself when the row started unchecked |
| ClassTableComponent.ToggledDistinct | src/components/ClassTable.tsx:30-36 | row clicks never make a row appear twice among the checked rows |
| Common.MinusAppend | src/components/ClassTable.tsx:50 | filtering a concatenation filters each part: deleting courses keeps the survivors in their order |
| ClassTableComponent.TagRows | src/components/ClassTable.tsx:65-74 | the `forEach` over the checked rows computes the add-tag index function for their course ids |
| ClassTableComponent.TaggedRows | src/components/ClassTable.tsx:65-74 | after the loop, every checked row's course id is a key whose list holds the tag; a well-formed index stays well-formed |
| ClassTableComponent.ClassTable.constructor | src/components/ClassTable.tsx:26-28 | the selection and the tags come from the shared, stored state; no row is checked and the input is empty |
| ClassTableComponent.ClassTable.ShowCourses | src/components/ClassTable.tsx:93-95 | a new page or course list clears the checked rows and nothing else |
| ClassTableComponent.ClassTable.SelectCourse | src/components/ClassTable.tsx:30-36 | a checked row is unchecked (every occurrence goes), an unchecked one is appended; nothing else changes |
| ClassTableComponent.ClassTable.SetAllChecked | src/components/ClassTable.tsx:105-112 | ticking the header checks every row of the page, clearing it unchecks all; the header then shows ticked exactly when it was ticked on a non-empty page |
| ClassTableComponent.ClassTable.AddSelectedCourses | src/components/ClassTable.tsx:38-44 | the checked rows are appended to the selection; there is no deduplication, so a checked course already selected ends up at least twice in it; the stored selection is the new one |
| ClassTableComponent.ClassTable.DeleteSelectedCourses | src/components/ClassTable.tsx:46-56 | exactly the selected courses that are not checked remain, in order; the result is stored and no row stays checked |
| ClassTableComponent.ClassTable.SetTagInput | src/components/ClassTable.tsx:187 | typing sets the input text and nothing else |
| ClassTableComponent.ClassTable.AddTag | src/components/ClassTable.tsx:58-79 | a rejected input changes nothing; an accepted one, raw, is in the list of every checked course; the index is stored and the input cleared; the index invariant and the storage sync are kept |
| ClassTableComponent.ClassTable.TagCheckedRows | src/components/ClassTable.tsx:65-78 | the handler past its guards: the index becomes the add-tag loop's result for the checked rows' ids, every checked row then holds the tag, the index is stored and the input cleared |
| ClassTableComponent.ClassTable.RemoveTag | src/components/ClassTable.tsx:81-91 | the tag leaves the course's list and the key goes with its last tag, then the index is stored; an untagged course id changes and stores nothing |
| MapPage.PlaceKey | src/pages/map.tsx:45 | `split(" ").slice(2,4).join("")` of a meeting string (characterised by `PlaceKeyTokens`) |
| MapPage.PlaceKeyTokens | src/pages/map.tsx:45 | the place key is the third and fourth words glued together (the third alone if there are three, empty if fewer) and never holds a space |
| MapPage.PlaceKeyOfFourWords | src/pages/map.tsx:45 | a meeting string of four words such as "M 3 4 Bldg-101" has the place key "4Bldg-101" |
| MapPage.Matching | src/pages/map.tsx:46-48 | the filter keeps exactly the gazetteer entries named by the key |
| MapPage.MatchingHead | src/pages/map.tsx:46-48 | the first match is the head of the gazetteer if the head matches, and otherwise comes from the tail |
| MapPage.Lookup | src/pages/map.tsx:46-48 | element 0 of the filtered gazetteer, or nothing when the filter is empty (characterised by `LookupFirst`) |
| MapPage.LookupFirst | src/pages/map.tsx:46-48 | the lookup hits exactly when some entry has the key, and then gives the first such entry |
| MapPage.Resolve | src/pages/map.tsx:44-51 | one course: nothing for an empty meeting string or a missed lookup, otherwise the found place with the course spread over it (characterised by `ResolveIff`) |
| MapPage.ResolveIff | src/pages/map.tsx:44-51 | a course yields a pin exactly when its meeting string is non-empty and its key names a gazetteer entry; the pin sits at the first such entry and carries the course |
| MapPage.ResolvedPins | src/pages/map.tsx:42-53 | the course pins pushed by the `forEach`, one per resolvable course, in selection order (characterised by `ResolvedPinsAppend` and `ResolvedPinsMembers`) |
| MapPage.ResolvedPinsAppend | src/pages/map.tsx:42-53 | the course pins follow the order of the selection |
| MapPage.ResolvedPinsMembers | src/pages/map.tsx:42-53 | every course pin comes from a selected course, every resolvable selected course contributes its pin, and there are at most as many pins as courses |
| MapPage.ResolveCoursePins | src/pages/map.tsx:42-53 | the `forEach` computes the reference list of course pins |
| MapPage.Shifted | src/pages/map.tsx:16-39 | the reference result of `shiftDuplicates`: pin `i` is nudged 650 units south and east exactly when an earlier input pin had its original coordinates, otherwise it is kept (characterised by `ShiftedIff` and `ShiftedShape`) |
| MapPage.ShiftDuplicates | src/pages/map.tsx:16-39 | the one-pass loop with its record of coordinates computes the reference result: a pin moves exactly when an earlier input pin had its coordinates |
| MapPage.ShiftedShape | src/pages/map.tsx:16-39 | one output pin per input pin; name and course are kept; coordinates are kept or moved by exactly the shift |
| MapPage.ShiftedIff | src/pages/map.tsx:28-35 | a pin moves exactly when some earlier input pin has its original coordinates |
| MapPage.ShiftedUnchangedIff | src/pages/map.tsx:16-39 | the list comes back unchanged exactly when no two pins share coordinates |
| MapPage.UnshiftedDistinct | src/pages/map.tsx:28-35 | two pins that were not moved never share coordinates |
| MapPage.ShiftedPositionNotRecorded | src/pages/map.tsx:28-34 | a pin moved onto the original spot of a later pin is not recorded there: the later pin stays put whenever no earlier pin originally stood there, and the two output pins then share that spot |
| MapPage.ShiftDecidedByOriginals | src/pages/map.tsx:24-35 | whether a pin moves is decided by the original coordinates of the pins up to it alone: two lists that agree on those coordinates move that pin alike |
| MapPage.TwoPinsAtOnePlace | src/pages/map.tsx:16-39 | two pins at (25.01, 121.55): the first stays and the second moves to (25.0099350, 121.5500650) |
| MapPage.ThreePinsCollide | src/pages/map.tsx:28-31 | three pins at one place: the second and third both move to the same spot |
| MapPage.ShiftedCanHitRecorded | src/pages/map.tsx:28-34 | a moved pin can land exactly on an earlier pin that stayed put |
| MapPage.ShiftedPrefix | src/pages/map.tsx:54 | course pins appended after the landmarks never move a landmark |
| MapPage.PinData | src/pages/map.tsx:41-55 | the recomputed pins are the landmarks followed by the course pins, deduplicated; the landmarks come out as they would alone |

## Left out

- Rendering is not modelled. This covers:
  - the table markup;
  - pagination (`PaginationItems`) and navigation to the course detail page;
  - the regular expressions that strip bracketed text from course names for display;
  - the map widget (`MapWithPins`), the sidebar, and the map's centre and zoom state.
  
  None of these changes the modelled state.
- The UI's enabling conditions on the buttons and the Enter key are not modelled as
  preconditions. The handlers themselves do not rely on them, and the model lets every handler
  be called in any state. An example is "add tag" being disabled with no row checked.
- `localStorage` and `JSON.stringify` are modelled as the two `persisted…` fields, which hold
  the stored value itself. Serialisation and storage failures are not modelled.
- The application context (`useGlobalContext`) is not modelled: its initial contents are
  constructor parameters. React's batching of state updates and re-rendering are not
  modelled: each handler is one atomic step.
- `src/constants/Locations` is not part of this model. The landmark list and the gazetteer are
  parameters of `MapPage.PinData`.
- The map page's pins before the effect first runs, which are the raw landmark list, are not
  modelled as separate state.
- `console.log` calls are not modelled.
- Floating point is not modelled: coordinates are integers in units of 10^-7 degree. Two
  consequences follow:
  - `lat - 0.000065` is exact in the model, where JavaScript rounds;
  - JavaScript's `===` on rounded numbers is modelled as integer equality.
- MapPage.ShiftDuplicates: the aliasing in `shiftDuplicates` is not modelled.
  - `[...data]` copies the array but not the pin objects, so `item.latitude -= …` mutates the
    caller's objects. Those objects include the shared landmark list.
  - The model returns new pin values and leaves its input untouched.
- MapPage.Resolve: only the fields `name`, `latitude` and `longitude` of the spread
  `{...location, ...item}` are modelled. The course is carried whole. A course has no field of
  those names, so nothing of the location is overwritten.
- Course ids are modelled as the strings `開課序號.toString()` produces.
- JavaScript object-key peculiarities of the tag index are not modelled. An example is a
  course id such as `"__proto__"`; the model uses a plain map.
- `meeting` is modelled as a string. Only the empty string is falsy; a missing value is not
  modelled.
