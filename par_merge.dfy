/** mergeParMaps of the score-photo page: the par tables of several files merged into
    one, course by course. The first table holding a course gives its entry; later
    ones fill a missing name or prefecture and add segments under new names. */
module ParMerge {
  import opened JsText
  import opened ParCsv

  type ParMap = map<string, ParCourseData>

  /** The segments of a later table added, one by one, under names not yet present. */
  function AddSegments(existing: seq<Segment>, incoming: seq<Segment>): seq<Segment>
    decreases |incoming|
  {
    if incoming == [] then existing
    else
      var acc := AddSegments(existing, incoming[..|incoming| - 1]);
      var s := incoming[|incoming| - 1];
      if HasSegment(acc, s.name) then acc else acc + [s]
  }

  /** A course already merged, with the same course of a later table. */
  function Combine(e: ParCourseData, d: ParCourseData): ParCourseData {
    e.(prefecture := if e.prefecture == [] && d.prefecture != [] then d.prefecture else e.prefecture,
       name := if e.name == [] && d.name != [] then d.name else e.name,
       segments := AddSegments(e.segments, d.segments))
  }

  /** The merged map after one more table. */
  function MergeInto(acc: ParMap, m: ParMap): ParMap {
    map k | k in acc.Keys + m.Keys :: if k !in m then acc[k] else if k !in acc then m[k] else Combine(acc[k], m[k])
  }

  /** The merged map after the tables of maps, in order. */
  function MergeAll(maps: seq<ParMap>): ParMap
    decreases |maps|
  {
    if maps == [] then map[] else MergeInto(MergeAll(maps[..|maps| - 1]), maps[|maps| - 1])
  }

  /** The merged map while a table is being merged: the courses in done are merged. */
  function MergePart(acc: ParMap, m: ParMap, done: set<string>): ParMap {
    map k | k in acc.Keys + (done * m.Keys) ::
      if k in done && k in m then (if k in acc then Combine(acc[k], m[k]) else m[k]) else acc[k]
  }

  lemma {:induction false} MergePartStep(acc: ParMap, m: ParMap, done: set<string>, id: string)
    requires id in m && id !in done
    ensures id in MergePart(acc, m, done) <==> id in acc
    ensures id in acc ==> MergePart(acc, m, done)[id] == acc[id]
    ensures MergePart(acc, m, done + {id})
         == MergePart(acc, m, done)[id := if id in acc then Combine(acc[id], m[id]) else m[id]]
  {
  }

  lemma {:induction false} MergePartDone(acc: ParMap, m: ParMap)
    ensures MergePart(acc, m, {}) == acc
    ensures MergePart(acc, m, m.Keys) == MergeInto(acc, m)
  {
  }

  lemma {:induction false} MergeAllSnoc(maps: seq<ParMap>, i: int)
    requires 0 <= i < |maps|
    ensures MergeAll(maps[..i + 1]) == MergeInto(MergeAll(maps[..i]), maps[i])
  {
    assert maps[..i + 1][..i] == maps[..i];
  }

  /** One course of a later table merged into the entry already there. */
  method MergeCourse(existing: ParCourseData, data: ParCourseData) returns (c: ParCourseData)
    ensures c == Combine(existing, data)
  {
    c := existing;
    if c.prefecture == [] && data.prefecture != [] {
      c := c.(prefecture := data.prefecture);
    }
    if c.name == [] && data.name != [] {
      c := c.(name := data.name);
    }
    var segments := c.segments;
    for j := 0 to |data.segments|
      invariant segments == AddSegments(existing.segments, data.segments[..j])
    {
      assert data.segments[..j + 1][..j] == data.segments[..j];
      if !HasSegment(segments, data.segments[j].name) {
        segments := segments + [data.segments[j]];
      }
    }
    assert data.segments[..|data.segments|] == data.segments;
    c := c.(segments := segments);
  }

  lemma {:induction false} TakeKey(keys: set<string>, pending: set<string>, k: string)
    requires pending <= keys && k in pending
    ensures keys - (pending - {k}) == (keys - pending) + {k}
  {
  }

  /** One table merged into the courses merged so far. */
  method MergeTable(acc: ParMap, m: ParMap) returns (merged: ParMap)
    ensures merged == MergeInto(acc, m)
  {
    merged := acc;
    ghost var done: set<string> := {};
    MergePartDone(acc, m);
    var pending := m.Keys;
    while pending != {}
      invariant pending <= m.Keys && done == m.Keys - pending
      invariant merged == MergePart(acc, m, done)
      decreases |pending|
    {
      var courseId :| courseId in pending;
      var data := m[courseId];
      MergePartStep(acc, m, done, courseId);
      var entry := data;
      if courseId in merged {
        entry := MergeCourse(merged[courseId], data);
      }
      merged := merged[courseId := entry];
      TakeKey(m.Keys, pending, courseId);
      done := done + {courseId};
      pending := pending - {courseId};
    }
    assert done == m.Keys;
  }

  /** mergeParMaps. */
  method MergeParMaps(maps: seq<ParMap>) returns (merged: ParMap)
    ensures merged == MergeAll(maps)
  {
    merged := map[];
    for i := 0 to |maps|
      invariant merged == MergeAll(maps[..i])
    {
      MergeAllSnoc(maps, i);
      merged := MergeTable(merged, maps[i]);
    }
    assert maps[..|maps|] == maps;
  }

  // Segments

  /** The segments already there stay first, in order; the rest come from the later table. */
  lemma {:induction false} AddSegmentsPrefix(existing: seq<Segment>, incoming: seq<Segment>)
    ensures existing <= AddSegments(existing, incoming)
    ensures forall j :: |existing| <= j < |AddSegments(existing, incoming)| ==> AddSegments(existing, incoming)[j] in incoming
    decreases |incoming|
  {
    if incoming != [] {
      var init := incoming[..|incoming| - 1];
      AddSegmentsPrefix(existing, init);
      var acc := AddSegments(existing, init);
      forall j | |existing| <= j < |AddSegments(existing, incoming)|
        ensures AddSegments(existing, incoming)[j] in incoming
      {
        if j < |acc| {
          assert acc[j] in init;
        }
      }
    }
  }

  /** A name is present after the merge exactly when one of the two lists has it. */
  lemma {:induction false} AddSegmentsHas(existing: seq<Segment>, incoming: seq<Segment>, name: string)
    ensures HasSegment(AddSegments(existing, incoming), name) <==> HasSegment(existing, name) || HasSegment(incoming, name)
    decreases |incoming|
  {
    if incoming != [] {
      var init := incoming[..|incoming| - 1];
      var s := incoming[|incoming| - 1];
      AddSegmentsHas(existing, init, name);
      var acc := AddSegments(existing, init);
      if HasSegment(incoming, name) {
        var j :| 0 <= j < |incoming| && incoming[j].name == name;
        if j < |init| {
          assert init[j].name == name;
        } else if !HasSegment(acc, s.name) {
          assert (acc + [s])[|acc|].name == name;
        }
      }
      if HasSegment(AddSegments(existing, incoming), name) && !HasSegment(acc, name) {
        assert incoming[|incoming| - 1].name == name;
      }
      if HasSegment(init, name) {
        var j :| 0 <= j < |init| && init[j].name == name;
        assert incoming[j].name == name;
      }
      if HasSegment(acc, name) {
        var j :| 0 <= j < |acc| && acc[j].name == name;
        assert AddSegments(existing, incoming)[j].name == name;
      }
    }
  }

  /** Merging never adds a second segment under a name already present. */
  lemma {:induction false} AddSegmentsDistinct(existing: seq<Segment>, incoming: seq<Segment>)
    requires DistinctNames(existing)
    ensures DistinctNames(AddSegments(existing, incoming))
    decreases |incoming|
  {
    if incoming != [] {
      var init := incoming[..|incoming| - 1];
      var s := incoming[|incoming| - 1];
      AddSegmentsDistinct(existing, init);
      var acc := AddSegments(existing, init);
      if !HasSegment(acc, s.name) {
        var r := acc + [s];
        forall a, b | 0 <= a < b < |r|
          ensures r[a].name != r[b].name
        {
          if b == |acc| {
            assert acc[a].name != s.name;
          }
        }
      }
    }
  }

  /** Position i of incoming holds the first segment there under its name, and
      existing has no segment under that name. */
  predicate FirstNew(existing: seq<Segment>, incoming: seq<Segment>, i: int)
    requires 0 <= i < |incoming|
  {
    !HasSegment(existing, incoming[i].name) && !HasSegment(incoming[..i], incoming[i].name)
  }

  /** The segments of incoming at the positions FirstNew picks, in incoming's order. */
  function Kept(existing: seq<Segment>, incoming: seq<Segment>): seq<Segment>
    decreases |incoming|
  {
    if incoming == [] then []
    else
      var n := |incoming| - 1;
      Kept(existing, incoming[..n]) + if FirstNew(existing, incoming, n) then [incoming[n]] else []
  }

  lemma {:induction false} FirstNewPrefix(existing: seq<Segment>, incoming: seq<Segment>, n: int, i: int)
    requires 0 <= i < n <= |incoming|
    ensures FirstNew(existing, incoming[..n], i) <==> FirstNew(existing, incoming, i)
  {
    assert incoming[..n][..i] == incoming[..i];
  }

  /** The merge appends to existing exactly the kept segments of incoming, in their order. */
  lemma {:induction false} AddSegmentsKept(existing: seq<Segment>, incoming: seq<Segment>)
    ensures AddSegments(existing, incoming) == existing + Kept(existing, incoming)
    decreases |incoming|
  {
    if incoming != [] {
      var n := |incoming| - 1;
      var init := incoming[..n];
      var s := incoming[n];
      AddSegmentsKept(existing, init);
      AddSegmentsHas(existing, init, s.name);
      assert incoming[..n] == init;
    }
  }

  /** Every kept segment is the first of incoming under its name, and every such first
      segment under a name existing lacks is kept. */
  lemma {:induction false} KeptFirst(existing: seq<Segment>, incoming: seq<Segment>)
    ensures forall t :: 0 <= t < |Kept(existing, incoming)| ==>
              exists i :: 0 <= i < |incoming| && FirstNew(existing, incoming, i) && Kept(existing, incoming)[t] == incoming[i]
    ensures forall i :: 0 <= i < |incoming| && FirstNew(existing, incoming, i) ==> incoming[i] in Kept(existing, incoming)
    decreases |incoming|
  {
    if incoming != [] {
      var n := |incoming| - 1;
      var init := incoming[..n];
      KeptFirst(existing, init);
      var k0 := Kept(existing, init);
      var k := Kept(existing, incoming);
      assert k == k0 + if FirstNew(existing, incoming, n) then [incoming[n]] else [];
      forall t | 0 <= t < |k|
        ensures exists i :: 0 <= i < |incoming| && FirstNew(existing, incoming, i) && k[t] == incoming[i]
      {
        if t < |k0| {
          assert k[t] == k0[t];
          var i :| 0 <= i < |init| && FirstNew(existing, init, i) && k0[t] == init[i];
          FirstNewPrefix(existing, incoming, n, i);
          assert k[t] == incoming[i];
        } else {
          assert FirstNew(existing, incoming, n) && k[t] == incoming[n];
        }
      }
      forall i | 0 <= i < |incoming| && FirstNew(existing, incoming, i)
        ensures incoming[i] in k
      {
        if i < n {
          FirstNewPrefix(existing, incoming, n, i);
          assert init[i] in k0;
        } else {
          assert k[|k| - 1] == incoming[n];
        }
      }
    } else {
      assert Kept(existing, incoming) == [];
    }
  }

  // Courses

  datatype Field = Name | Prefecture

  function FieldOf(d: ParCourseData, f: Field): string {
    match f
    case Name => d.name
    case Prefecture => d.prefecture
  }

  /** A later table fills a name or prefecture only when it is still empty. */
  lemma {:induction false} CombineField(e: ParCourseData, d: ParCourseData, f: Field)
    ensures FieldOf(Combine(e, d), f) == if FieldOf(e, f) == [] then FieldOf(d, f) else FieldOf(e, f)
  {
  }

  /** What the merge already holds for a course is never overwritten. */
  lemma {:induction false} MergeIntoKeeps(acc: ParMap, m: ParMap, k: string)
    requires k in acc
    ensures k in MergeInto(acc, m)
    ensures acc[k].segments <= MergeInto(acc, m)[k].segments
    ensures MergeInto(acc, m)[k].fullPars == acc[k].fullPars
    ensures acc[k].name != [] ==> MergeInto(acc, m)[k].name == acc[k].name
    ensures acc[k].prefecture != [] ==> MergeInto(acc, m)[k].prefecture == acc[k].prefecture
  {
    if k in m {
      AddSegmentsPrefix(acc[k].segments, m[k].segments);
    }
  }

  /** A course is in the merge exactly when some table has it. */
  lemma {:induction false} MergeKeys(maps: seq<ParMap>, k: string)
    ensures k in MergeAll(maps) <==> exists i :: 0 <= i < |maps| && k in maps[i]
    decreases |maps|
  {
    if maps != [] {
      var p := maps[..|maps| - 1];
      MergeKeys(p, k);
      if k in MergeAll(p) {
        var i :| 0 <= i < |p| && k in p[i];
        assert maps[i] == p[i];
      }
      if exists i :: 0 <= i < |maps| && k in maps[i] {
        var i :| 0 <= i < |maps| && k in maps[i];
        if i < |p| {
          assert p[i] == maps[i];
        }
      }
    }
  }

  /** The full pars of a course come from the first table that has it. */
  lemma {:induction false} MergeFullPars(maps: seq<ParMap>, k: string)
    requires k in MergeAll(maps)
    ensures exists i :: 0 <= i < |maps| && k in maps[i] && (forall j :: 0 <= j < i ==> k !in maps[j])
                        && MergeAll(maps)[k].fullPars == maps[i][k].fullPars
    decreases |maps|
  {
    var p := maps[..|maps| - 1];
    var m := maps[|maps| - 1];
    if k in MergeAll(p) {
      MergeFullPars(p, k);
      MergeIntoKeeps(MergeAll(p), m, k);
      var i :| 0 <= i < |p| && k in p[i] && (forall j :: 0 <= j < i ==> k !in p[j])
               && MergeAll(p)[k].fullPars == p[i][k].fullPars;
      assert maps[i] == p[i];
      assert forall j :: 0 <= j < i ==> maps[j] == p[j];
    } else {
      MergeKeys(p, k);
      assert forall j :: 0 <= j < |p| ==> maps[j] == p[j];
      assert k in maps[|maps| - 1];
    }
  }

  /** A name or prefecture is taken from the earliest table where it is not empty,
      and is empty only when it is empty in every table that has the course. */
  lemma {:induction false} MergeFirstFilled(maps: seq<ParMap>, k: string, f: Field)
    requires k in MergeAll(maps)
    ensures FieldOf(MergeAll(maps)[k], f) == [] <==>
              forall i :: 0 <= i < |maps| && k in maps[i] ==> FieldOf(maps[i][k], f) == []
    ensures FieldOf(MergeAll(maps)[k], f) != [] ==>
              exists i :: 0 <= i < |maps| && k in maps[i] && FieldOf(maps[i][k], f) == FieldOf(MergeAll(maps)[k], f)
                          && forall j :: 0 <= j < i && k in maps[j] ==> FieldOf(maps[j][k], f) == []
    decreases |maps|
  {
    var p := maps[..|maps| - 1];
    var m := maps[|maps| - 1];
    var last := |maps| - 1;
    assert forall j :: 0 <= j < |p| ==> maps[j] == p[j];
    if k in MergeAll(p) {
      MergeFirstFilled(p, k, f);
      var old_f := FieldOf(MergeAll(p)[k], f);
      if k in m {
        CombineField(MergeAll(p)[k], m[k], f);
      }
      if old_f != [] {
        var i :| 0 <= i < |p| && k in p[i] && FieldOf(p[i][k], f) == old_f
                 && forall j :: 0 <= j < i && k in p[j] ==> FieldOf(p[j][k], f) == [];
        assert maps[i] == p[i];
      } else if k in m {
        assert MergeAll(maps)[k] == Combine(MergeAll(p)[k], m[k]);
        assert FieldOf(MergeAll(maps)[k], f) == FieldOf(maps[last][k], f);
      }
    } else {
      MergeKeys(p, k);
      assert k in maps[last];
      assert MergeAll(maps)[k] == maps[last][k];
    }
  }

  /** A segment name is in the merge exactly when one of the tables has it for the course. */
  lemma {:induction false} MergeSegmentsHas(maps: seq<ParMap>, k: string, name: string)
    requires k in MergeAll(maps)
    ensures HasSegment(MergeAll(maps)[k].segments, name) <==>
              exists i :: 0 <= i < |maps| && k in maps[i] && HasSegment(maps[i][k].segments, name)
    decreases |maps|
  {
    var p := maps[..|maps| - 1];
    var m := maps[|maps| - 1];
    var last := |maps| - 1;
    assert forall j :: 0 <= j < |p| ==> maps[j] == p[j];
    if k in MergeAll(p) {
      MergeSegmentsHas(p, k, name);
      if k in m {
        AddSegmentsHas(MergeAll(p)[k].segments, m[k].segments, name);
      }
      if exists i :: 0 <= i < |maps| && k in maps[i] && HasSegment(maps[i][k].segments, name) {
        var i :| 0 <= i < |maps| && k in maps[i] && HasSegment(maps[i][k].segments, name);
        if i < |p| {
          assert p[i] == maps[i];
        }
      }
    } else {
      MergeKeys(p, k);
      assert MergeAll(maps)[k] == maps[last][k];
    }
  }

  /** A later table that has a course already merged appends, after the segments merged so
      far, exactly its kept segments for that course, in the table's own order. */
  lemma {:induction false} MergeSegmentsAppend(maps: seq<ParMap>, k: string)
    requires |maps| > 0 && k in MergeAll(maps[..|maps| - 1]) && k in maps[|maps| - 1]
    ensures MergeAll(maps)[k].segments
         == MergeAll(maps[..|maps| - 1])[k].segments
            + Kept(MergeAll(maps[..|maps| - 1])[k].segments, maps[|maps| - 1][k].segments)
  {
    var p := maps[..|maps| - 1];
    var m := maps[|maps| - 1];
    assert MergeAll(maps)[k] == Combine(MergeAll(p)[k], m[k]);
    AddSegmentsKept(MergeAll(p)[k].segments, m[k].segments);
  }

  /** Segment s of the merged course k is segment j of table i: no earlier table has a
      segment under its name for k, and, unless table i is the first to hold k (whose
      segments are all copied), no earlier segment of table i has its name. */
  predicate SegmentOrigin(maps: seq<ParMap>, k: string, s: Segment, i: int, j: int) {
    0 <= i < |maps| && k in maps[i] && 0 <= j < |maps[i][k].segments| && maps[i][k].segments[j] == s
    && (forall i' :: 0 <= i' < i && k in maps[i'] ==> !HasSegment(maps[i'][k].segments, s.name))
    && ((forall i' :: 0 <= i' < i ==> k !in maps[i']) || !HasSegment(maps[i][k].segments[..j], s.name))
  }

  /** Every segment of a merged course comes from the first table holding its name for
      the course, as the first segment under that name there. */
  lemma {:induction false} MergeSegmentsSound(maps: seq<ParMap>, k: string, t: int)
    requires k in MergeAll(maps) && 0 <= t < |MergeAll(maps)[k].segments|
    ensures exists i, j :: SegmentOrigin(maps, k, MergeAll(maps)[k].segments[t], i, j)
    decreases |maps|
  {
    var p := maps[..|maps| - 1];
    var m := maps[|maps| - 1];
    var last := |maps| - 1;
    var x := MergeAll(maps)[k].segments[t];
    assert forall j :: 0 <= j < |p| ==> maps[j] == p[j];
    if k in MergeAll(p) {
      var old_segs := MergeAll(p)[k].segments;
      if t < |old_segs| {
        MergeIntoKeeps(MergeAll(p), m, k);
        assert x == old_segs[t];
        MergeSegmentsSound(p, k, t);
        var i, j :| SegmentOrigin(p, k, old_segs[t], i, j);
        assert SegmentOrigin(maps, k, x, i, j);
      } else {
        MergeSegmentsAppend(maps, k);
        KeptFirst(old_segs, m[k].segments);
        var kept := Kept(old_segs, m[k].segments);
        assert x == kept[t - |old_segs|];
        var j :| 0 <= j < |m[k].segments| && FirstNew(old_segs, m[k].segments, j) && x == m[k].segments[j];
        MergeSegmentsHas(p, k, x.name);
        assert SegmentOrigin(maps, k, x, last, j);
      }
    } else {
      MergeKeys(p, k);
      assert MergeAll(maps)[k] == maps[last][k];
      assert SegmentOrigin(maps, k, x, last, t);
    }
  }

  /** The merge keeps segment names distinct when every table does. */
  lemma {:induction false} MergeDistinct(maps: seq<ParMap>)
    requires forall i, c :: 0 <= i < |maps| && c in maps[i] ==> DistinctNames(maps[i][c].segments)
    ensures forall c :: c in MergeAll(maps) ==> DistinctNames(MergeAll(maps)[c].segments)
    decreases |maps|
  {
    if maps != [] {
      var p := maps[..|maps| - 1];
      var m := maps[|maps| - 1];
      assert forall j :: 0 <= j < |p| ==> maps[j] == p[j];
      MergeDistinct(p);
      forall c | c in MergeAll(maps)
        ensures DistinctNames(MergeAll(maps)[c].segments)
      {
        if c in MergeAll(p) && c in m {
          AddSegmentsDistinct(MergeAll(p)[c].segments, m[c].segments);
        } else if c in m {
          assert DistinctNames(maps[|maps| - 1][c].segments);
        }
      }
    }
  }
}
