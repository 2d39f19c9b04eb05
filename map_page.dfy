/** The map page's pin pipeline: each selected course's meeting string is
    turned into a place key, looked up in the gazetteer and, on a hit, becomes
    a pin; the landmark pins followed by those course pins are then passed
    through `shiftDuplicates`, which nudges a pin whose coordinates were
    already recorded. Coordinates are integers in units of 10^-7 degree, so
    the shift of 0.000065 degree is exactly 650 units. */
module MapPage {
  import opened Common
  import opened Courses
  import opened JsText

  /** 0.000065 degree, in units of 10^-7 degree. */
  const SHIFT_AMOUNT := 650

  /** A gazetteer entry. */
  datatype Place = Place(name: string, latitude: int, longitude: int)

  /** A map marker; a course pin carries the course whose fields were spread
      over the gazetteer entry, a landmark pin carries none. */
  datatype Pin = Pin(name: string, latitude: int, longitude: int, course: Option<Course>)

  /** A `{ latitude, longitude }` pair as kept in the list of recorded coordinates. */
  datatype Coord = Coord(latitude: int, longitude: int)

  function CoordOf(p: Pin): Coord {
    Coord(p.latitude, p.longitude)
  }

  /** The pin moved by the shift: south by the shift amount and east by it. */
  function Nudged(p: Pin): (q: Pin)
    ensures q.name == p.name && q.course == p.course
    ensures q.latitude == p.latitude - SHIFT_AMOUNT && q.longitude == p.longitude + SHIFT_AMOUNT
  {
    p.(latitude := p.latitude - SHIFT_AMOUNT, longitude := p.longitude + SHIFT_AMOUNT)
  }

  // ---------------------------------------------------------------------
  // Place keys and gazetteer lookup
  // ---------------------------------------------------------------------

  /** `meeting.split(" ").slice(2, 4).join("")`. */
  function PlaceKey(meeting: string): string {
    Concat(Slice(Split(meeting, ' '), 2, 4))
  }

  /** The place key is the third and fourth space-separated token glued
      together; with only three tokens it is the third, with fewer it is
      empty. It never holds a space. */
  lemma PlaceKeyTokens(meeting: string)
    ensures var tokens := Split(meeting, ' ');
      && (|tokens| >= 4 ==> PlaceKey(meeting) == tokens[2] + tokens[3])
      && (|tokens| == 3 ==> PlaceKey(meeting) == tokens[2])
      && (|tokens| <= 2 ==> PlaceKey(meeting) == "")
      && ' ' !in PlaceKey(meeting)
  {
    var tokens := Split(meeting, ' ');
    var picked := Slice(tokens, 2, 4);
    if |tokens| >= 4 {
      assert picked == [tokens[2], tokens[3]];
    } else if |tokens| == 3 {
      assert picked == [tokens[2]];
    }
  }

  /** A meeting string of four space-separated words, such as
      "M 3 4 Bldg-101", has the third and fourth words glued together as its
      place key ("4Bldg-101"). */
  lemma PlaceKeyOfFourWords(day: string, start: string, end: string, room: string)
    requires ' ' !in day && ' ' !in start && ' ' !in end && ' ' !in room
    ensures PlaceKey(day + " " + start + " " + end + " " + room) == end + room
  {
    var tokens := [day, start, end, room];
    var meeting := day + " " + start + " " + end + " " + room;
    assert Join(tokens[3..], ' ') == room;
    assert Join(tokens[2..], ' ') == end + " " + room by {
      assert tokens[2..][1..] == tokens[3..];
    }
    assert Join(tokens[1..], ' ') == start + " " + end + " " + room by {
      assert tokens[1..][1..] == tokens[2..];
    }
    assert Join(tokens, ' ') == meeting;
    SplitJoin(tokens, ' ');
    assert Slice(tokens, 2, 4) == [end, room];
  }

  /** `gazetteer.filter(item => item.name === key)`. */
  function Matching(gazetteer: seq<Place>, key: string): (r: seq<Place>)
    ensures forall p :: p in r ==> p in gazetteer && p.name == key
    ensures forall i :: 0 <= i < |gazetteer| && gazetteer[i].name == key ==> gazetteer[i] in r
  {
    if gazetteer == [] then []
    else
      assert gazetteer == [gazetteer[0]] + gazetteer[1..];
      (if gazetteer[0].name == key then [gazetteer[0]] else []) + Matching(gazetteer[1..], key)
  }

  /** The filter's first match is the head when the head has the key, and
      comes from the tail otherwise. */
  lemma MatchingHead(gazetteer: seq<Place>, key: string)
    requires gazetteer != []
    ensures gazetteer[0].name == key ==> Matching(gazetteer, key)[0] == gazetteer[0]
    ensures gazetteer[0].name != key ==> Matching(gazetteer, key) == Matching(gazetteer[1..], key)
  {
  }

  /** `gazetteer.filter(...)[0]`, undefined (`None`) when nothing matches. */
  function Lookup(gazetteer: seq<Place>, key: string): Option<Place> {
    var found := Matching(gazetteer, key);
    if |found| > 0 then Some(found[0]) else None
  }

  /** The first entry named by the key, when there is one. */
  lemma {:induction false} FirstNamed(gazetteer: seq<Place>, key: string) returns (i: nat)
    requires exists k :: 0 <= k < |gazetteer| && gazetteer[k].name == key
    ensures i < |gazetteer| && gazetteer[i].name == key
    ensures forall j :: 0 <= j < i ==> gazetteer[j].name != key
  {
    if gazetteer[0].name == key {
      i := 0;
    } else {
      var k :| 0 <= k < |gazetteer| && gazetteer[k].name == key;
      assert gazetteer[1..][k - 1] == gazetteer[k];
      var i' := FirstNamed(gazetteer[1..], key);
      i := i' + 1;
      forall j | 0 < j < i ensures gazetteer[j].name != key {
        assert gazetteer[j] == gazetteer[1..][j - 1];
      }
    }
  }

  /** The lookup gives the first entry named by the key. */
  lemma {:induction false} LookupIsFirst(gazetteer: seq<Place>, key: string, i: nat)
    requires i < |gazetteer| && gazetteer[i].name == key
    requires forall j :: 0 <= j < i ==> gazetteer[j].name != key
    ensures Lookup(gazetteer, key) == Some(gazetteer[i])
    decreases i
  {
    MatchingHead(gazetteer, key);
    if i == 0 {
      var found := Matching(gazetteer, key);
      assert found == [gazetteer[0]] + Matching(gazetteer[1..], key);
      assert found[0] == gazetteer[0];
    } else {
      var rest := gazetteer[1..];
      assert Lookup(gazetteer, key) == Lookup(rest, key);
      assert rest[i - 1] == gazetteer[i];
      forall j | 0 <= j < i - 1 ensures rest[j].name != key {
        assert rest[j] == gazetteer[j + 1];
      }
      LookupIsFirst(rest, key, i - 1);
    }
  }

  /** The lookup hits exactly when some entry has the key as its name, and
      then gives the first such entry. */
  lemma LookupFirst(gazetteer: seq<Place>, key: string)
    ensures Lookup(gazetteer, key).Some? <==> exists i :: 0 <= i < |gazetteer| && gazetteer[i].name == key
    ensures Lookup(gazetteer, key).Some? ==>
      exists i :: 0 <= i < |gazetteer| && gazetteer[i] == Lookup(gazetteer, key).value
        && gazetteer[i].name == key && forall j :: 0 <= j < i ==> gazetteer[j].name != key
  {
    if Lookup(gazetteer, key).Some? {
      var p := Matching(gazetteer, key)[0];
      assert p in Matching(gazetteer, key);
    }
    if exists k :: 0 <= k < |gazetteer| && gazetteer[k].name == key {
      var i := FirstNamed(gazetteer, key);
      LookupIsFirst(gazetteer, key, i);
    }
  }

  // ---------------------------------------------------------------------
  // Course pins
  // ---------------------------------------------------------------------

  /** One course of the selection: a course with a non-empty meeting string
      whose place key names a gazetteer entry becomes that entry with the
      course spread over it; any other course yields nothing. */
  function Resolve(c: Course, gazetteer: seq<Place>): Option<Pin> {
    if c.meeting == "" then None
    else
      match Lookup(gazetteer, PlaceKey(c.meeting))
      case None => None
      case Some(p) => Some(Pin(p.name, p.latitude, p.longitude, Some(c)))
  }

  /** A course yields a pin exactly when its meeting string is non-empty and
      its place key is the name of a gazetteer entry; the pin sits at the
      first such entry and carries the course. */
  lemma ResolveIff(c: Course, gazetteer: seq<Place>)
    ensures Resolve(c, gazetteer).Some? <==>
      c.meeting != "" && exists i :: 0 <= i < |gazetteer| && gazetteer[i].name == PlaceKey(c.meeting)
    ensures Resolve(c, gazetteer).Some? ==>
      var pin := Resolve(c, gazetteer).value;
      && pin.course == Some(c) && pin.name == PlaceKey(c.meeting)
      && exists i :: 0 <= i < |gazetteer| && gazetteer[i] == Place(pin.name, pin.latitude, pin.longitude)
           && forall j :: 0 <= j < i ==> gazetteer[j].name != PlaceKey(c.meeting)
  {
    LookupFirst(gazetteer, PlaceKey(c.meeting));
  }

  /** The course pins of a selection, in selection order. */
  function ResolvedPins(selected: seq<Course>, gazetteer: seq<Place>): seq<Pin>
    decreases |selected|
  {
    if selected == [] then []
    else
      var last := selected[|selected| - 1];
      ResolvedPins(selected[..|selected| - 1], gazetteer)
        + (match Resolve(last, gazetteer) case Some(pin) => [pin] case None => [])
  }

  /** The course pins of two consecutive runs of courses are those of the
      first run followed by those of the second: selection order is kept. */
  lemma {:induction false} ResolvedPinsAppend(a: seq<Course>, b: seq<Course>, gazetteer: seq<Place>)
    ensures ResolvedPins(a + b, gazetteer) == ResolvedPins(a, gazetteer) + ResolvedPins(b, gazetteer)
    decreases |b|
  {
    if b == [] {
      assert a + b == a;
    } else {
      var init := b[..|b| - 1];
      ResolvedPinsAppend(a, init, gazetteer);
      assert (a + b)[..|a + b| - 1] == a + init;
      assert (a + b)[|a + b| - 1] == b[|b| - 1];
    }
  }

  /** Every course pin comes from a selected course that resolves to it,
      every course that resolves contributes its pin, and there are never
      more pins than courses. */
  lemma {:induction false} ResolvedPinsMembers(selected: seq<Course>, gazetteer: seq<Place>)
    ensures |ResolvedPins(selected, gazetteer)| <= |selected|
    ensures forall p :: p in ResolvedPins(selected, gazetteer) ==>
      exists c :: c in selected && Resolve(c, gazetteer) == Some(p)
    ensures forall c :: c in selected && Resolve(c, gazetteer).Some? ==>
      Resolve(c, gazetteer).value in ResolvedPins(selected, gazetteer)
    decreases |selected|
  {
    if selected != [] {
      var init := selected[..|selected| - 1];
      ResolvedPinsMembers(init, gazetteer);
      assert selected == init + [selected[|selected| - 1]];
      forall c | c in selected && Resolve(c, gazetteer).Some?
        ensures Resolve(c, gazetteer).value in ResolvedPins(selected, gazetteer)
      {
        if c in init {
          assert Resolve(c, gazetteer).value in ResolvedPins(init, gazetteer);
        }
      }
    }
  }

  /** The `forEach` over the selection that pushes each resolved course pin. */
  method ResolveCoursePins(selected: seq<Course>, gazetteer: seq<Place>) returns (pins: seq<Pin>)
    ensures pins == ResolvedPins(selected, gazetteer)
  {
    pins := [];
    for i := 0 to |selected|
      invariant pins == ResolvedPins(selected[..i], gazetteer)
    {
      var item := selected[i];
      if item.meeting != "" {
        var place := PlaceKey(item.meeting);
        var location := Lookup(gazetteer, place);
        if location.Some? {
          pins := pins + [Pin(location.value.name, location.value.latitude, location.value.longitude, Some(item))];
        }
      }
      assert selected[..i + 1][..i] == selected[..i];
    }
    assert selected[..|selected|] == selected;
  }

  // ---------------------------------------------------------------------
  // shiftDuplicates
  // ---------------------------------------------------------------------

  /** Some earlier pin of the input has exactly the coordinates of pin `i`. */
  predicate SeenBefore(pins: seq<Pin>, i: nat)
    requires i < |pins|
  {
    exists j :: 0 <= j < i && CoordOf(pins[j]) == CoordOf(pins[i])
  }

  /** The reference result of `shiftDuplicates`: pin `i` is nudged exactly
      when its original coordinates occur among the original coordinates of
      the pins before it. */
  function Shifted(pins: seq<Pin>): seq<Pin> {
    seq(|pins|, i requires 0 <= i < |pins| => if SeenBefore(pins, i) then Nudged(pins[i]) else pins[i])
  }

  /** The one-pass loop of `shiftDuplicates`: `recorded` is the list of
      coordinates seen so far, and only an unshifted pin's coordinates are
      ever pushed to it. */
  method ShiftDuplicates(data: seq<Pin>) returns (modified: seq<Pin>)
    ensures modified == Shifted(data)
  {
    modified := data;
    var recorded: seq<Coord> := [];
    for i := 0 to |modified|
      invariant |modified| == |data|
      invariant forall k :: 0 <= k < i ==> modified[k] == Shifted(data)[k]
      invariant forall k :: i <= k < |data| ==> modified[k] == data[k]
      invariant forall j :: 0 <= j < i ==> CoordOf(data[j]) in recorded
      invariant forall k :: 0 <= k < |recorded| ==> exists j :: 0 <= j < i && CoordOf(data[j]) == recorded[k]
      invariant Distinct(recorded)
    {
      var item := modified[i];
      var lat, lon := item.latitude, item.longitude;
      if exists k :: 0 <= k < |recorded| && recorded[k] == Coord(lat, lon) {
        modified := modified[i := item.(latitude := lat - SHIFT_AMOUNT, longitude := lon + SHIFT_AMOUNT)];
      } else {
        recorded := recorded + [Coord(lat, lon)];
      }
    }
  }

  /** The output has one pin per input pin; each keeps its name and course,
      and either keeps its coordinates or is moved by exactly the shift. */
  lemma ShiftedShape(data: seq<Pin>, i: nat)
    requires i < |data|
    ensures |Shifted(data)| == |data|
    ensures Shifted(data)[i].name == data[i].name && Shifted(data)[i].course == data[i].course
    ensures || CoordOf(Shifted(data)[i]) == CoordOf(data[i])
            || CoordOf(Shifted(data)[i]) == Coord(data[i].latitude - SHIFT_AMOUNT, data[i].longitude + SHIFT_AMOUNT)
  {
  }

  /** A pin moves exactly when its original coordinates occur among those
      of an earlier input pin. */
  lemma ShiftedIff(data: seq<Pin>, i: nat)
    requires i < |data|
    ensures Shifted(data)[i] != data[i] <==> exists j :: 0 <= j < i && CoordOf(data[j]) == CoordOf(data[i])
  {
  }

  /** The pipeline leaves a pin list as it is exactly when no two of its
      pins share coordinates. */
  lemma ShiftedUnchangedIff(data: seq<Pin>)
    ensures Shifted(data) == data <==>
      forall i, j :: 0 <= i < j < |data| ==> CoordOf(data[i]) != CoordOf(data[j])
  {
    if Shifted(data) == data {
      forall i, j | 0 <= i < j < |data| ensures CoordOf(data[i]) != CoordOf(data[j]) {
        assert Shifted(data)[j] == data[j];
      }
    } else {
      var k :| 0 <= k < |data| && Shifted(data)[k] != data[k];
      var j :| 0 <= j < k && CoordOf(data[j]) == CoordOf(data[k]);
    }
  }

  /** Two pins of the output that were not moved never share coordinates. */
  lemma UnshiftedDistinct(data: seq<Pin>, i: nat, j: nat)
    requires i < j < |data|
    requires Shifted(data)[i] == data[i] && Shifted(data)[j] == data[j]
    ensures CoordOf(Shifted(data)[i]) != CoordOf(Shifted(data)[j])
  {
  }

  /** Whether a pin moves depends only on the original coordinates of the
      pins up to it: where earlier pins were moved to plays no part. */
  lemma ShiftDecidedByOriginals(a: seq<Pin>, b: seq<Pin>, k: nat)
    requires k < |a| && k < |b|
    requires forall i :: 0 <= i <= k ==> CoordOf(a[i]) == CoordOf(b[i])
    ensures Shifted(a)[k] == a[k] <==> Shifted(b)[k] == b[k]
  {
    if SeenBefore(a, k) {
      var j :| 0 <= j < k && CoordOf(a[j]) == CoordOf(a[k]);
      assert CoordOf(b[j]) == CoordOf(b[k]);
    }
    if SeenBefore(b, k) {
      var j :| 0 <= j < k && CoordOf(b[j]) == CoordOf(b[k]);
      assert CoordOf(a[j]) == CoordOf(a[k]);
    }
  }

  /** A moved pin's new position is never recorded: when pin `j` is moved
      onto the original spot of a later pin `k`, pin `k` still stays put
      whenever no earlier pin originally stood there, and then both output
      pins share that spot. */
  lemma ShiftedPositionNotRecorded(data: seq<Pin>, j: nat, k: nat)
    requires j < k < |data|
    requires SeenBefore(data, j)
    requires CoordOf(data[k]) == CoordOf(Nudged(data[j]))
    ensures CoordOf(Shifted(data)[j]) == CoordOf(data[k])
    ensures (forall i :: 0 <= i < k ==> CoordOf(data[i]) != CoordOf(data[k])) ==>
      Shifted(data)[k] == data[k] && CoordOf(Shifted(data)[k]) == CoordOf(Shifted(data)[j])
  {
  }

  /** Two pins at (25.0100000, 121.5500000): the first stays, the second
      moves to (25.0099350, 121.5500650). */
  lemma TwoPinsAtOnePlace(p1: Pin, p2: Pin)
    requires CoordOf(p1) == Coord(250100000, 1215500000) && CoordOf(p2) == CoordOf(p1)
    ensures Shifted([p1, p2]) == [p1, Nudged(p2)]
    ensures CoordOf(Shifted([p1, p2])[1]) == Coord(250099350, 1215500650)
  {
    assert CoordOf([p1, p2][0]) == CoordOf([p1, p2][1]);
  }

  /** Three pins at one place: the second and the third are both moved by
      the same amount from the same place, so they collide. */
  lemma ThreePinsCollide(p: Pin, q: Pin, r: Pin)
    requires CoordOf(q) == CoordOf(p) && CoordOf(r) == CoordOf(p)
    ensures CoordOf(Shifted([p, q, r])[1]) == CoordOf(Shifted([p, q, r])[2])
  {
    var data := [p, q, r];
    assert CoordOf(data[0]) == CoordOf(data[1]) && CoordOf(data[0]) == CoordOf(data[2]);
    assert SeenBefore(data, 1) && SeenBefore(data, 2);
  }

  /** A moved pin can land on the coordinates of an earlier pin that was
      recorded: with x at the nudged position of c and then two pins at c,
      the third output pin sits where the first does. */
  lemma ShiftedCanHitRecorded(x: Pin, y: Pin, z: Pin)
    requires CoordOf(y) == Coord(0, 0) && CoordOf(z) == Coord(0, 0)
    requires CoordOf(x) == Coord(-SHIFT_AMOUNT, SHIFT_AMOUNT)
    ensures Shifted([x, y, z])[0] == x && Shifted([x, y, z])[1] == y
    ensures CoordOf(Shifted([x, y, z])[2]) == CoordOf(x)
  {
    var data := [x, y, z];
    assert !SeenBefore(data, 1) by {
      assert CoordOf(data[0]) != CoordOf(data[1]);
    }
    assert SeenBefore(data, 2) by {
      assert CoordOf(data[1]) == CoordOf(data[2]);
    }
  }

  /** Pins appended after the landmarks never move a landmark. */
  lemma ShiftedPrefix(a: seq<Pin>, b: seq<Pin>)
    ensures |Shifted(a + b)| == |a| + |b|
    ensures Shifted(a + b)[..|a|] == Shifted(a)
  {
    forall i | 0 <= i < |a| ensures Shifted(a + b)[i] == Shifted(a)[i] {
      assert (a + b)[i] == a[i];
      assert SeenBefore(a + b, i) <==> SeenBefore(a, i) by {
        forall j | 0 <= j < i ensures (a + b)[j] == a[j] {}
      }
    }
  }

  // ---------------------------------------------------------------------
  // The pin list of the map page
  // ---------------------------------------------------------------------

  /** The effect that recomputes the map's pins whenever the selection
      changes: the landmark pins followed by the course pins, deduplicated. */
  method PinData(landmarks: seq<Pin>, selected: seq<Course>, gazetteer: seq<Place>) returns (pins: seq<Pin>)
    ensures pins == Shifted(landmarks + ResolvedPins(selected, gazetteer))
    ensures |pins| == |landmarks| + |ResolvedPins(selected, gazetteer)|
    ensures pins[..|landmarks|] == Shifted(landmarks)
  {
    var coursePins := ResolveCoursePins(selected, gazetteer);
    pins := ShiftDuplicates(landmarks + coursePins);
    ShiftedPrefix(landmarks, coursePins);
  }
}
