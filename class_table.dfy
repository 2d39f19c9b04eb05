/** The course table's selection-and-tag store: the committed selection
    (`selectedClasses`), the tag index (`courseTags`), the rows checked on the
    current page (`actionClasses`), the text of the tag input box, and the two
    snapshots written to `localStorage` after every committed change. */
module ClassTableComponent {
  import opened Common
  import opened Courses
  import opened JsText
  import opened Tags

  /** The working selection after clicking a row's checkbox: a checked row is
      unchecked (every occurrence of it goes), an unchecked row is appended. */
  function Toggled(rows: seq<Course>, course: Course): (r: seq<Course>)
    ensures course in r <==> course !in rows
    ensures forall c :: c in rows && c != course ==> c in r
    ensures forall c :: c in r && c != course ==> c in rows
  {
    if course in rows then Minus(rows, [course]) else rows + [course]
  }

  /** Clicking the same row twice restores which rows are checked, and
      restores the list itself when the row was unchecked to begin with. */
  lemma ToggledTwice(rows: seq<Course>, course: Course)
    ensures forall c :: c in Toggled(Toggled(rows, course), course) <==> c in rows
    ensures course !in rows ==> Toggled(Toggled(rows, course), course) == rows
  {
    if course !in rows {
      MinusAppend(rows, [course], [course]);
      MinusDisjoint(rows, [course]);
      assert Minus([course], [course]) == [];
    }
  }

  /** Clicking rows never makes a row appear twice in the working selection. */
  lemma ToggledDistinct(rows: seq<Course>, course: Course)
    requires Distinct(rows)
    ensures Distinct(Toggled(rows, course))
  {
    if course in rows {
      MinusDistinct(rows, [course]);
    }
  }

  /** The add-tag loop: a copy of the index, updated for each checked row in
      turn by `AddOne`. */
  method TagRows(tags: TagIndex, rows: seq<Course>, tag: string) returns (newTags: TagIndex)
    ensures newTags == AddTagAll(tags, Serials(rows), tag)
  {
    var ids := Serials(rows);
    newTags := tags;
    var i := 0;
    while i < |ids|
      invariant 0 <= i <= |ids|
      invariant newTags == AddTagAll(tags, ids[..i], tag)
    {
      AddTagAllStep(tags, ids, i, tag);
      newTags := AddOne(newTags, ids[i], tag);
      i := i + 1;
    }
    assert ids[..|ids|] == ids;
  }

  /** Every row's course id is a key of the index whose list holds `t`. */
  predicate AllTagged(m: TagIndex, rows: seq<Course>, t: string) {
    forall c :: c in rows ==> c.serial in m && t in m[c.serial]
  }

  /** After the add-tag loop every checked row's course id holds the tag,
      and a well-formed index stays well-formed. */
  lemma TaggedRows(m: TagIndex, rows: seq<Course>, t: string)
    ensures AllTagged(AddTagAll(m, Serials(rows), t), rows, t)
    ensures WellFormed(m) ==> WellFormed(AddTagAll(m, Serials(rows), t))
  {
    var ids := Serials(rows);
    forall c | c in rows ensures c.serial in AddTagAll(m, ids, t) && t in AddTagAll(m, ids, t)[c.serial] {
      AddTagAllAppends(m, ids, t, c.serial);
    }
    if WellFormed(m) {
      AddTagAllWellFormed(m, ids, t);
    }
  }

  class ClassTable {
    /** The rows shown on the current page (the `courses` property). */
    var courses: seq<Course>
    /** The committed selection, shared through the application context. */
    var selected: seq<Course>
    /** Course id to its tags, shared through the application context. */
    var tags: TagIndex
    /** The rows whose checkbox is ticked. */
    var action: seq<Course>
    /** The text in the tag input box. */
    var tagInput: string
    /** What `localStorage` holds under 'selectedCourses' and 'courseTags'. */
    var persistedSelected: seq<Course>
    var persistedTags: TagIndex

    /** The stored snapshots agree with the state in memory. */
    ghost predicate Synced()
      reads this
    {
      persistedSelected == selected && persistedTags == tags
    }

    /** Whether the header checkbox shows as ticked. */
    predicate HeaderChecked()
      reads this
    {
      |action| == |courses| && |action| != 0
    }

    /** A table showing `courses`, with the selection and the tags hydrated
        from the stored snapshots. */
    constructor (courses: seq<Course>, savedSelected: seq<Course>, savedTags: TagIndex)
      ensures this.courses == courses && selected == savedSelected && tags == savedTags
      ensures action == [] && tagInput == "" && Synced()
    {
      this.courses := courses;
      selected, tags := savedSelected, savedTags;
      persistedSelected, persistedTags := savedSelected, savedTags;
      action, tagInput := [], "";
    }

    /** A new page or a new course list is shown: the checked rows are reset. */
    method ShowCourses(newCourses: seq<Course>)
      modifies this
      ensures courses == newCourses && action == []
      ensures selected == old(selected) && tags == old(tags) && tagInput == old(tagInput)
      ensures persistedSelected == old(persistedSelected) && persistedTags == old(persistedTags)
    {
      courses := newCourses;
      action := [];
    }

    /** A row's checkbox is clicked. */
    method SelectCourse(course: Course)
      modifies this
      ensures action == Toggled(old(action), course)
      ensures course in old(action) ==> action == Minus(old(action), [course]) && course !in action
      ensures course !in old(action) ==> action == old(action) + [course]
      ensures courses == old(courses) && selected == old(selected) && tags == old(tags)
      ensures tagInput == old(tagInput)
      ensures persistedSelected == old(persistedSelected) && persistedTags == old(persistedTags)
    {
      if course in action {
        action := Minus(action, [course]);
      } else {
        action := action + [course];
      }
    }

    /** The header checkbox is ticked (`checked`) or cleared. */
    method SetAllChecked(checked: bool)
      modifies this
      ensures action == if checked then courses else []
      ensures HeaderChecked() <==> checked && courses != []
      ensures courses == old(courses) && selected == old(selected) && tags == old(tags)
      ensures tagInput == old(tagInput)
      ensures persistedSelected == old(persistedSelected) && persistedTags == old(persistedTags)
    {
      if checked {
        action := courses;
      } else {
        action := [];
      }
    }

    /** The "add to timetable" button: the checked rows are appended to the
        selection as they are, with no deduplication, and the result is stored. */
    method AddSelectedCourses()
      modifies this
      ensures selected == old(selected) + old(action)
      ensures |selected| == |old(selected)| + |old(action)|
      ensures forall c :: c in old(selected) && c in old(action) ==> multiset(selected)[c] >= 2
      ensures persistedSelected == selected
      ensures Synced() <== old(Synced())
      ensures courses == old(courses) && action == old(action) && tags == old(tags)
      ensures tagInput == old(tagInput) && persistedTags == old(persistedTags)
    {
      var updated := selected + action;
      persistedSelected := updated;
      selected := updated;
    }

    /** The "delete courses" button: every selected course that is checked
        leaves the selection, the rest keep their order, the result is stored
        and no row stays checked. */
    method DeleteSelectedCourses()
      modifies this
      ensures selected == Minus(old(selected), old(action))
      ensures forall c :: c in selected ==> c in old(selected) && c !in old(action)
      ensures forall c :: c in old(selected) && c !in old(action) ==> c in selected
      ensures persistedSelected == selected && action == []
      ensures Synced() <== old(Synced())
      ensures courses == old(courses) && tags == old(tags)
      ensures tagInput == old(tagInput) && persistedTags == old(persistedTags)
    {
      var updated := Minus(selected, action);
      persistedSelected := updated;
      selected := updated;
      action := [];
    }

    /** Typing into the tag input box. */
    method SetTagInput(value: string)
      modifies this
      ensures tagInput == value
      ensures courses == old(courses) && selected == old(selected) && tags == old(tags)
      ensures action == old(action)
      ensures persistedSelected == old(persistedSelected) && persistedTags == old(persistedTags)
    {
      tagInput := value;
    }

    /** The "add tag" button. A rejected input changes nothing at all. An
        accepted one, raw and untrimmed, is added to the list of every
        checked course (creating the list where there was none, skipping a
        list that already has it); then the index is stored and the input
        box cleared. */
    method AddTag()
      modifies this
      ensures !TagAccepted(old(tagInput)) ==> unchanged(this)
      ensures TagAccepted(old(tagInput)) ==>
        && tags == AddTagAll(old(tags), Serials(old(action)), old(tagInput))
        && AllTagged(tags, old(action), old(tagInput))
        && persistedTags == tags && tagInput == ""
      ensures WellFormed(old(tags)) ==> WellFormed(tags)
      ensures Synced() <== old(Synced())
      ensures courses == old(courses) && selected == old(selected) && action == old(action)
      ensures persistedSelected == old(persistedSelected)
    {
      if Trim(tagInput) == "" {
        return;
      }
      if Utf16Length(tagInput) < 1 || Utf16Length(tagInput) > MAX_TAG_LENGTH {
        return;
      }
      TagCheckedRows();
    }

    /** The add-tag handler past its two guards: the loop over the checked
        rows on a copy of the index, then the store and the cleared input. */
    method TagCheckedRows()
      modifies this
      ensures tags == AddTagAll(old(tags), Serials(old(action)), old(tagInput))
      ensures AllTagged(tags, old(action), old(tagInput))
      ensures persistedTags == tags && tagInput == ""
      ensures WellFormed(old(tags)) ==> WellFormed(tags)
      ensures courses == old(courses) && selected == old(selected) && action == old(action)
      ensures persistedSelected == old(persistedSelected)
    {
      var index, rows, tag := tags, action, tagInput;
      var newTags := TagRows(index, rows, tag);
      TaggedRows(index, rows, tag);
      tags, persistedTags, tagInput := newTags, newTags, "";
    }

    /** The × button on a tag: the tag leaves that course's list, and the key
        goes when the list empties; the index is stored. A course id with no
        tags changes nothing and stores nothing. */
    method RemoveTag(courseId: string, tag: string)
      modifies this
      ensures courseId in old(tags) ==> tags == RemoveTagFrom(old(tags), courseId, tag) && persistedTags == tags
      ensures courseId !in old(tags) ==> tags == old(tags) && persistedTags == old(persistedTags)
      ensures WellFormed(old(tags)) ==> WellFormed(tags)
      ensures Synced() <== old(Synced())
      ensures courses == old(courses) && selected == old(selected) && action == old(action)
      ensures tagInput == old(tagInput) && persistedSelected == old(persistedSelected)
    {
      if courseId in tags {
        var newTags := tags;
        newTags := newTags[courseId := Minus(newTags[courseId], [tag])];
        if newTags[courseId] == [] {
          newTags := newTags - {courseId};
        }
        if WellFormed(tags) {
          RemoveTagWellFormed(tags, courseId, tag);
        }
        tags := newTags;
        persistedTags := newTags;
      }
    }
  }
}
