/** The tag index (`courseTags`): a map from a course id to the list of tags
    the student attached to that course, and the two pure transformations the
    class table applies to it: adding one tag to several courses and removing
    one tag from one course. */
module Tags {
  import opened Common
  import opened JsText

  type TagIndex = map<string, seq<string>>

  /** The longest tag input accepted, in UTF-16 code units. */
  const MAX_TAG_LENGTH := 20

  /** The index invariant: no course id maps to an empty list and no list
      holds the same tag twice. */
  predicate WellFormed(m: TagIndex) {
    forall k :: k in m ==> m[k] != [] && Distinct(m[k])
  }

  /** The two early returns of the add-tag handler: the input is rejected when
      it trims to the empty string, or when its raw (untrimmed) length lies
      outside 1..20. */
  predicate TagAccepted(input: string) {
    Trim(input) != "" && !(Utf16Length(input) < 1 || Utf16Length(input) > MAX_TAG_LENGTH)
  }

  /** An input is accepted exactly when it holds a non-whitespace character
      and its raw length is at most 20: the lower length bound can never
      reject anything that passed the emptiness test. */
  lemma TagAcceptedIff(input: string)
    ensures TagAccepted(input) <==>
      (exists i :: 0 <= i < |input| && !IsJsWhitespace(input[i])) && Utf16Length(input) <= MAX_TAG_LENGTH
  {
    TrimEmptyIff(input);
  }

  /** A raw input with surrounding blanks is accepted as it is: the index
      then holds " Algo", not the trimmed "Algo". */
  lemma UntrimmedTagAccepted()
    ensures TagAccepted(" Algo") && Trim(" Algo") == "Algo"
  {
    assert TrimStart(" Algo") == "Algo" by {
      assert " Algo"[1..] == "Algo";
    }
    assert TrimEnd("Algo") == "Algo";
  }

  /** Trailing whitespace is dropped by `trim()` whatever precedes it. */
  lemma {:induction false} TrimEndPadding(s: string, pad: string)
    requires forall i :: 0 <= i < |pad| ==> IsJsWhitespace(pad[i])
    ensures TrimEnd(s + pad) == TrimEnd(s)
    decreases |pad|
  {
    if pad == [] {
      assert s + pad == s;
    } else {
      var shorter := pad[..|pad| - 1];
      assert (s + pad)[..|s + pad| - 1] == s + shorter;
      assert (s + pad)[|s + pad| - 1] == pad[|pad| - 1];
      TrimEndPadding(s, shorter);
    }
  }

  /** The length bound is checked on the raw input: a word padded with
      trailing blanks past 20 characters (such as "Algo" followed by seventeen
      blanks) is rejected although it trims to the word itself. */
  lemma PaddedTagRejected(word: string, pad: string)
    requires word != [] && !IsJsWhitespace(word[0]) && !IsJsWhitespace(word[|word| - 1])
    requires forall i :: 0 <= i < |pad| ==> IsJsWhitespace(pad[i])
    requires |word| + |pad| > MAX_TAG_LENGTH
    ensures !TagAccepted(word + pad) && Trim(word + pad) == word
  {
    var input := word + pad;
    assert input[0] == word[0];
    assert TrimStart(input) == input;
    TrimEndPadding(word, pad);
    assert TrimEnd(word) == word;
  }

  /** The tags currently attached to `id`; an absent key reads as no tags. */
  function Existing(m: TagIndex, id: string): seq<string> {
    if id in m then m[id] else []
  }

  /** One course's list after adding `t`: unchanged if `t` is already there,
      otherwise `t` appended. */
  function WithTag(tags: seq<string>, t: string): (r: seq<string>)
    ensures t in r
    ensures |tags| <= |r| <= |tags| + 1 && r[..|tags|] == tags
    ensures forall x :: x in r ==> x in tags || x == t
    ensures Distinct(tags) ==> Distinct(r)
  {
    if t in tags then tags else tags + [t]
  }

  /** One step of the add-tag loop: `id` gets `t` in its list, created if
      the key was absent. */
  function AddOne(m: TagIndex, id: string, t: string): TagIndex {
    m[id := WithTag(Existing(m, id), t)]
  }

  /** The add-tag loop over the course ids of the working selection, one step
      per id, in order. */
  function AddTagAll(m: TagIndex, ids: seq<string>, t: string): TagIndex
    decreases |ids|
  {
    if ids == [] then m else AddOne(AddTagAll(m, ids[..|ids| - 1], t), ids[|ids| - 1], t)
  }

  /** One more iteration of the add-tag loop. */
  lemma AddTagAllStep(m: TagIndex, ids: seq<string>, i: nat, t: string)
    requires i < |ids|
    ensures AddTagAll(m, ids[..i + 1], t) == AddOne(AddTagAll(m, ids[..i], t), ids[i], t)
  {
    assert ids[..i + 1][..i] == ids[..i];
  }

  /** What one step of the add-tag loop does to each key. */
  lemma AddOneAt(m: TagIndex, id: string, t: string, k: string)
    ensures k in AddOne(m, id, t) <==> k in m || k == id
    ensures k == id ==> AddOne(m, id, t)[k] == WithTag(Existing(m, id), t)
    ensures k != id && k in m ==> AddOne(m, id, t)[k] == m[k]
  {
  }

  /** Adding a tag a list already holds changes nothing. */
  lemma WithTagTwice(tags: seq<string>, t: string)
    ensures WithTag(WithTag(tags, t), t) == WithTag(tags, t)
  {
  }

  /** An element of a non-empty list is in all but its last element, or is
      the last one. */
  lemma InitLast(ids: seq<string>, k: string)
    requires ids != []
    ensures k in ids <==> k in ids[..|ids| - 1] || k == ids[|ids| - 1]
  {
    assert ids == ids[..|ids| - 1] + [ids[|ids| - 1]];
  }

  /** One more step of the add-tag loop keeps the per-key description of
      `AddTagAllAt`, now for the longer list of ids. */
  lemma AddOneStep(m: TagIndex, prev: TagIndex, init: seq<string>, last: string, t: string, k: string)
    requires k in prev <==> k in m || k in init
    requires k in init ==> prev[k] == WithTag(Existing(m, k), t)
    requires k !in init && k in m ==> prev[k] == m[k]
    ensures k in AddOne(prev, last, t) <==> k in m || k in init || k == last
    ensures k in init || k == last ==> AddOne(prev, last, t)[k] == WithTag(Existing(m, k), t)
    ensures k !in init && k != last && k in m ==> AddOne(prev, last, t)[k] == m[k]
  {
    AddOneAt(prev, last, t, k);
    if k == last {
      if k in init {
        WithTagTwice(Existing(m, k), t);
      }
    }
  }

  /** What the add-tag loop does to each key: a listed id gets `t` added to
      its old list exactly as if it had been listed once; every other key keeps
      its list, and no other key appears. */
  lemma {:induction false} AddTagAllAt(m: TagIndex, ids: seq<string>, t: string, k: string)
    ensures k in AddTagAll(m, ids, t) <==> k in m || k in ids
    ensures k in ids ==> AddTagAll(m, ids, t)[k] == WithTag(Existing(m, k), t)
    ensures k !in ids && k in m ==> AddTagAll(m, ids, t)[k] == m[k]
    decreases |ids|
  {
    if ids != [] {
      var init, last := ids[..|ids| - 1], ids[|ids| - 1];
      AddTagAllAt(m, init, t, k);
      AddOneStep(m, AddTagAll(m, init, t), init, last, t, k);
      InitLast(ids, k);
    }
  }

  /** The raw tag is in every listed course's list, old tags keep their
      places, and it is appended only when it was absent. */
  lemma AddTagAllAppends(m: TagIndex, ids: seq<string>, t: string, id: string)
    requires id in ids
    ensures id in AddTagAll(m, ids, t)
    ensures t in Existing(m, id) ==> AddTagAll(m, ids, t)[id] == Existing(m, id)
    ensures t !in Existing(m, id) ==> AddTagAll(m, ids, t)[id] == Existing(m, id) + [t]
  {
    AddTagAllAt(m, ids, t, id);
  }

  /** A tag occurs once in a duplicate-free list that holds it. */
  lemma {:induction false} DistinctCount(s: seq<string>, x: string)
    requires Distinct(s) && x in s
    ensures multiset(s)[x] == 1
  {
    assert s == [s[0]] + s[1..];
    assert forall k :: 0 <= k < |s| - 1 ==> s[1..][k] == s[k + 1];
    if s[0] == x {
      assert x !in s[1..];
    } else {
      DistinctCount(s[1..], x);
    }
  }

  /** On a well-formed index every listed course ends up holding the tag
      exactly once. */
  lemma AddTagAllOnce(m: TagIndex, ids: seq<string>, t: string, id: string)
    requires WellFormed(m) && id in ids
    ensures id in AddTagAll(m, ids, t) && multiset(AddTagAll(m, ids, t)[id])[t] == 1
  {
    AddTagAllAt(m, ids, t, id);
    DistinctCount(AddTagAll(m, ids, t)[id], t);
  }

  /** Keys that are not listed are untouched. */
  lemma AddTagAllOthers(m: TagIndex, ids: seq<string>, t: string, k: string)
    requires k !in ids
    ensures k in AddTagAll(m, ids, t) <==> k in m
    ensures k in m ==> AddTagAll(m, ids, t)[k] == m[k]
  {
    AddTagAllAt(m, ids, t, k);
  }

  /** Adding a tag keeps the index invariant. */
  lemma AddTagAllWellFormed(m: TagIndex, ids: seq<string>, t: string)
    requires WellFormed(m)
    ensures WellFormed(AddTagAll(m, ids, t))
  {
    var r := AddTagAll(m, ids, t);
    forall k | k in r ensures r[k] != [] && Distinct(r[k]) {
      AddTagAllAt(m, ids, t, k);
    }
  }

  /** Adding the same tag to the same courses a second time changes nothing. */
  lemma AddTagAllIdempotent(m: TagIndex, ids: seq<string>, t: string)
    ensures AddTagAll(AddTagAll(m, ids, t), ids, t) == AddTagAll(m, ids, t)
  {
    var once := AddTagAll(m, ids, t);
    var twice := AddTagAll(once, ids, t);
    forall k ensures (k in twice <==> k in once) && (k in once ==> twice[k] == once[k]) {
      AddTagAllAt(m, ids, t, k);
      AddTagAllAt(once, ids, t, k);
    }
  }

  /** The remove-tag handler's change to the index: every copy of `t` leaves
      the list of `id`, and the key goes when its list empties; an absent
      key leaves the index as it is. */
  function RemoveTagFrom(m: TagIndex, id: string, t: string): TagIndex {
    if id !in m then m
    else
      var rest := Minus(m[id], [t]);
      if rest == [] then m - {id} else m[id := rest]
  }

  /** What removing a tag does to each key. */
  lemma RemoveTagAt(m: TagIndex, id: string, t: string, k: string)
    ensures k != id ==> (k in RemoveTagFrom(m, id, t) <==> k in m)
    ensures k != id && k in m ==> RemoveTagFrom(m, id, t)[k] == m[k]
    ensures id in RemoveTagFrom(m, id, t) <==> id in m && exists x :: x in m[id] && x != t
    ensures id in RemoveTagFrom(m, id, t) ==> RemoveTagFrom(m, id, t)[id] == Minus(m[id], [t])
    ensures id in RemoveTagFrom(m, id, t) ==> t !in RemoveTagFrom(m, id, t)[id]
  {
    if id in m && Minus(m[id], [t]) != [] {
      var x := Minus(m[id], [t])[0];
      assert x in m[id] && x != t;
    }
  }

  /** Removing a tag keeps the index invariant. */
  lemma RemoveTagWellFormed(m: TagIndex, id: string, t: string)
    requires WellFormed(m)
    ensures WellFormed(RemoveTagFrom(m, id, t))
  {
    if id in m {
      MinusDistinct(m[id], [t]);
    }
  }

  /** Removing a tag just added to a course that did not have it undoes the
      addition, on a well-formed index. */
  lemma RemoveUndoesAdd(m: TagIndex, id: string, t: string)
    requires WellFormed(m) && t !in Existing(m, id)
    ensures RemoveTagFrom(AddTagAll(m, [id], t), id, t) == m
  {
    var added := AddTagAll(m, [id], t);
    assert [id][..0] == [];
    assert AddTagAll(m, [], t) == m;
    assert added == AddOne(AddTagAll(m, [id][..0], t), id, t);
    assert added == m[id := Existing(m, id) + [t]];
    MinusAppend(Existing(m, id), [t], [t]);
    MinusDisjoint(Existing(m, id), [t]);
    assert Minus([t], [t]) == [];
    assert Minus(added[id], [t]) == Existing(m, id);
    if id in m {
      assert m[id] != [];
      assert added[id := m[id]] == m;
    } else {
      assert added - {id} == m;
    }
  }

  /** Adding "Algo" to course A1 of an empty index gives {"A1": ["Algo"]}. */
  lemma AddFirstTag()
    ensures AddTagAll(map[], ["A1"], "Algo") == map["A1" := ["Algo"]]
  {
    assert ["A1"][..0] == [];
    assert AddTagAll(map[], [], "Algo") == map[];
  }

  /** Removing the only tag of A1 removes the key: {"A1": ["Algo"]} becomes {}. */
  lemma RemoveOnlyTag()
    ensures RemoveTagFrom(map["A1" := ["Algo"]], "A1", "Algo") == map[]
  {
    assert Minus(["Algo"], ["Algo"]) == [];
  }
}
