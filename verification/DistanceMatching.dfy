/** Attaching captions and footnotes to bodies by distance (MinerU/mineru/utils/magic_model_utils.py). */
module DistanceMatching {
  import opened Basics
  import opened BoxDistances
  import opened Sorting

  /** A subject with its objects, both by their place in the sorted lists. */
  datatype Entry = Entry(sub: nat, objs: seq<nat>)

  /** A subject or object that is not yet used; objects are numbered from OFFSET on. */
  datatype Candidate = Candidate(idx: nat, isObject: bool, x: real, y: real)

  const OFFSET: nat := 10000

  const NoBox := RealBox(0.0, 0.0, 0.0, 0.0)

  function ObjectIdx(k: nat): nat {
    k + OFFSET
  }

  function Corner(box: RealBox): real {
    box.x0 * box.x0 + box.y0 * box.y0
  }

  /** The further down, the further is the corner from the origin. */
  ghost predicate OrderedByCorner(boxes: seq<RealBox>) {
    forall i, k | 0 <= i < k < |boxes| ::
      boxes[i].x0 * boxes[i].x0 + boxes[i].y0 * boxes[i].y0 <= boxes[k].x0 * boxes[k].x0 + boxes[k].y0 * boxes[k].y0
  }

  function SquaredFrom(left: real, top: real): Candidate -> real {
    (c: Candidate) => (c.x - left) * (c.x - left) + (c.y - top) * (c.y - top)
  }

  function MinX(s: seq<Candidate>): real
    requires s != []
  {
    if |s| == 1 then s[0].x else if s[|s| - 1].x < MinX(s[..|s| - 1]) then s[|s| - 1].x else MinX(s[..|s| - 1])
  }

  function MinY(s: seq<Candidate>): real
    requires s != []
  {
    if |s| == 1 then s[0].y else if s[|s| - 1].y < MinY(s[..|s| - 1]) then s[|s| - 1].y else MinY(s[..|s| - 1])
  }

  lemma {:induction false} MinXIsLeast(s: seq<Candidate>) returns (k: nat)
    requires s != []
    ensures k < |s| && s[k].x == MinX(s)
    ensures forall i | 0 <= i < |s| :: MinX(s) <= s[i].x
  {
    var n := |s| - 1;
    if n == 0 {
      k := 0;
    } else {
      k := MinXIsLeast(s[..n]);
      assert MinX(s) == if s[n].x < MinX(s[..n]) then s[n].x else MinX(s[..n]);
      forall i | 0 <= i < n
        ensures MinX(s[..n]) <= s[i].x
      {
        assert s[..n][i] == s[i];
      }
      if s[n].x < MinX(s[..n]) {
        k := n;
      }
    }
  }

  lemma {:induction false} MinYIsLeast(s: seq<Candidate>) returns (k: nat)
    requires s != []
    ensures k < |s| && s[k].y == MinY(s)
    ensures forall i | 0 <= i < |s| :: MinY(s) <= s[i].y
  {
    var n := |s| - 1;
    if n == 0 {
      k := 0;
    } else {
      k := MinYIsLeast(s[..n]);
      assert MinY(s) == if s[n].y < MinY(s[..n]) then s[n].y else MinY(s[..n]);
      forall i | 0 <= i < n
        ensures MinY(s[..n]) <= s[i].y
      {
        assert s[..n][i] == s[i];
      }
      if s[n].y < MinY(s[..n]) {
        k := n;
      }
    }
  }

  /** The lines at the left and at the top of all boxes meet here. */
  ghost predicate IsCorner(boxes: set<RealBox>, left: real, top: real) {
    && (forall b | b in boxes :: left <= b.x0 && top <= b.y0)
    && (exists b :: b in boxes && b.x0 == left) && (exists b :: b in boxes && b.y0 == top)
  }

  /** The corner of b is at least as near to the point as that of c. */
  ghost predicate Nearer(b: RealBox, c: RealBox, left: real, top: real) {
    (b.x0 - left) * (b.x0 - left) + (b.y0 - top) * (b.y0 - top) <=
    (c.x0 - left) * (c.x0 - left) + (c.y0 - top) * (c.y0 - top)
  }

  ghost predicate NearestTo(boxes: set<RealBox>, b: RealBox, left: real, top: real) {
    forall c {:trigger Nearer(b, c, left, top)} | c in boxes :: Nearer(b, c, left, top)
  }

  /** No box has its own corner nearer to the corner of all. */
  ghost predicate NearestToCorner(boxes: set<RealBox>, b: RealBox) {
    b in boxes && exists left, top :: IsCorner(boxes, left, top) && NearestTo(boxes, b, left, top)
  }

  /** How far the matching has come: what has been seen, which subjects have an entry, and the entries. */
  datatype Progress = Progress(seen: set<nat>, subs: set<nat>, entries: seq<Entry>)

  // ----- what is counted

  /** How often each object occurs in the entries. */
  function ObjectCounts(entries: seq<Entry>): multiset<nat> {
    if entries == [] then multiset{}
    else ObjectCounts(entries[..|entries| - 1]) + multiset(entries[|entries| - 1].objs)
  }

  function Subjects(entries: seq<Entry>): set<nat> {
    set e | e in entries :: e.sub
  }

  /** Who is attached to whom: pairs of a subject and an object. */
  ghost function Pairs(entries: seq<Entry>): set<(nat, nat)> {
    set e, o | e in entries && o in e.objs :: (e.sub, o)
  }

  lemma PairsAppendTo(entries: seq<Entry>, k: nat, obj: nat)
    requires k < |entries|
    ensures Pairs(entries[k := entries[k].(objs := entries[k].objs + [obj])]) ==
      Pairs(entries) + {(entries[k].sub, obj)}
  {
    var more := entries[k].(objs := entries[k].objs + [obj]);
    var changed := entries[k := more];
    forall e, o | e in entries && o in e.objs
      ensures (e.sub, o) in Pairs(changed)
    {
      var m :| 0 <= m < |entries| && entries[m] == e;
      assert changed[m] in changed && o in changed[m].objs;
    }
    assert changed[k] in changed && obj in more.objs;
    forall e, o | e in changed && o in e.objs
      ensures (e.sub, o) in Pairs(entries) + {(entries[k].sub, obj)}
    {
      var m :| 0 <= m < |changed| && changed[m] == e;
      assert entries[m] in entries;
    }
  }

  lemma PairsNewEntry(entries: seq<Entry>, sub: nat, obj: nat)
    ensures Pairs(entries + [Entry(sub, [obj])]) == Pairs(entries) + {(sub, obj)}
  {
    var e := Entry(sub, [obj]);
    assert forall f :: f in entries + [e] <==> f in entries || f == e;
    assert obj in e.objs;
  }

  lemma PairsEmptyEntry(entries: seq<Entry>, sub: nat)
    ensures Pairs(entries + [Entry(sub, [])]) == Pairs(entries)
  {
    var e := Entry(sub, []);
    assert forall f :: f in entries + [e] <==> f in entries || f == e;
  }

  ghost predicate DistinctSubjects(entries: seq<Entry>) {
    forall i, k | 0 <= i < k < |entries| :: entries[i].sub != entries[k].sub
  }

  /** One entry for each of n subjects, and each of m objects in exactly one entry, once. */
  ghost predicate Partition(entries: seq<Entry>, n: nat, m: nat) {
    && |entries| == n && DistinctSubjects(entries) && Subjects(entries) == Range(n)
    && ObjectCounts(entries) == multiset(Range(m))
  }

  lemma {:induction false} CountsAppendTo(entries: seq<Entry>, k: nat, obj: nat)
    requires k < |entries|
    ensures ObjectCounts(entries[k := entries[k].(objs := entries[k].objs + [obj])]) ==
      ObjectCounts(entries) + multiset{obj}
  {
    var n := |entries| - 1;
    var changed := entries[k := entries[k].(objs := entries[k].objs + [obj])];
    if k == n {
      assert changed[..n] == entries[..n];
    } else {
      CountsAppendTo(entries[..n], k, obj);
      assert changed[..n] == entries[..n][k := entries[k].(objs := entries[k].objs + [obj])];
    }
  }

  lemma CountsNewEntry(entries: seq<Entry>, e: Entry)
    ensures ObjectCounts(entries + [e]) == ObjectCounts(entries) + multiset(e.objs)
    ensures Subjects(entries + [e]) == Subjects(entries) + {e.sub}
    ensures DistinctSubjects(entries) && e.sub !in Subjects(entries) ==> DistinctSubjects(entries + [e])
  {
    var more := entries + [e];
    assert more[..|entries|] == entries;
    forall i | 0 <= i < |entries|
      ensures entries[i].sub in Subjects(entries)
    {
      assert entries[i] in entries;
    }
  }

  lemma {:induction false} EntriesAreSubjects(entries: seq<Entry>)
    requires DistinctSubjects(entries)
    ensures |Subjects(entries)| == |entries|
  {
    if entries == [] {
    } else {
      var init, last := entries[..|entries| - 1], entries[|entries| - 1];
      EntriesAreSubjects(init);
      assert entries == init + [last];
      CountsNewEntry(init, last);
      assert forall e | e in init :: e.sub != last.sub;
    }
  }

  /** The candidates by their distance from the top left corner of all of them. */
  method FromTopLeft(candidates: seq<Candidate>) returns (sorted: seq<Candidate>)
    requires candidates != []
    ensures |sorted| == |candidates| && forall c :: c in sorted <==> c in candidates
    ensures SortedBy(SquaredFrom(MinX(candidates), MinY(candidates)), sorted)
  {
    var key := SquaredFrom(MinX(candidates), MinY(candidates));
    sorted := Sort(key, candidates);
    SortIsRight(key, candidates);
    SortMembers(key, candidates);
  }

  // ----- the matcher

  class Matcher {
    const subjects: seq<RealBox>
    const objects: seq<RealBox>
    const dist: (RealBox, RealBox) -> real
    var seenIdx: set<nat>
    var seenSubIdx: set<nat>
    var ret: seq<Entry>

    constructor (subjectBoxes: seq<RealBox>, objectBoxes: seq<RealBox>, dist: (RealBox, RealBox) -> real)
      ensures subjects == Sort(Corner, subjectBoxes) && objects == Sort(Corner, objectBoxes) && this.dist == dist
      ensures multiset(subjects) == multiset(subjectBoxes) && OrderedByCorner(subjects)
      ensures multiset(objects) == multiset(objectBoxes) && OrderedByCorner(objects)
      ensures seenIdx == {} && seenSubIdx == {} && ret == []
    {
      SortIsRight(Corner, subjectBoxes);
      SortIsRight(Corner, objectBoxes);
      subjects, objects, this.dist := Sort(Corner, subjectBoxes), Sort(Corner, objectBoxes), dist;
      seenIdx, seenSubIdx, ret := {}, {}, [];
    }

    /** Numbers of subjects and of objects do not collide. */
    ghost predicate Separate() {
      |subjects| <= OFFSET || objects == []
    }

    ghost function SeenObjects(): set<nat>
      reads this
    {
      set k | k in Range(|objects|) && ObjectIdx(k) in seenIdx
    }

    ghost function AllIdx(): set<nat> {
      Range(|subjects|) + set k | k in Range(|objects|) :: ObjectIdx(k)
    }

    /** No subject is nearer to the object. */
    ghost predicate Nearest(sub: nat, obj: nat)
      requires sub < |subjects| && obj < |objects|
    {
      forall k | 0 <= k < |subjects| :: dist(objects[obj], subjects[sub]) <= dist(objects[obj], subjects[k])
    }

    /** The subject is the first of those nearest to the object. */
    ghost predicate FirstNearest(sub: nat, obj: nat)
      requires sub < |subjects| && obj < |objects|
    {
      && Nearest(sub, obj)
      && forall k | 0 <= k < sub :: dist(objects[obj], subjects[sub]) < dist(objects[obj], subjects[k])
    }

    /** The object is less than three times as far from the subject as from any. */
    ghost predicate Fits(sub: nat, obj: nat)
      requires sub < |subjects| && obj < |objects|
    {
      forall k | 0 <= k < |subjects| :: dist(subjects[sub], objects[obj]) < 3.0 * dist(subjects[k], objects[obj])
    }

    /** The object is less than three times as far from the subject as from its nearest one, or this is the
        nearest one. */
    ghost predicate Close(sub: nat, obj: nat)
    {
      sub < |subjects| && obj < |objects| && (Fits(sub, obj) || Nearest(sub, obj))
    }

    ghost predicate AllClose(entries: seq<Entry>) {
      forall e, k | e in entries && k in e.objs :: Close(e.sub, k)
    }

    /** Entries, seen subjects and seen objects belong together. */
    ghost predicate Valid()
      reads this
    {
      && seenIdx <= AllIdx()
      && seenSubIdx == Subjects(ret) <= Range(|subjects|) && DistinctSubjects(ret)
      && AllClose(ret)
      && (Separate() && subjects != [] ==> ObjectCounts(ret) == multiset(SeenObjects()))
    }

    ghost predicate UnseenSubject(seen: set<nat>, sub: nat) {
      sub < |subjects| && sub !in seen
    }

    ghost predicate UnseenObject(seen: set<nat>, obj: nat) {
      obj < |objects| && ObjectIdx(obj) !in seen
    }

    ghost function UnseenBoxes(seen: set<nat>): set<RealBox> {
      (set i | 0 <= i < |subjects| && UnseenSubject(seen, i) :: subjects[i]) +
      (set k | 0 <= k < |objects| && UnseenObject(seen, k) :: objects[k])
    }

    /** An unseen subject or object with its corner. */
    ghost predicate Proper(seen: set<nat>, c: Candidate) {
      && (if c.isObject then OFFSET <= c.idx && UnseenObject(seen, c.idx - OFFSET) else UnseenSubject(seen, c.idx))
      && c.x == BoxOf(c).x0 && c.y == BoxOf(c).y0
    }

    function BoxOf(c: Candidate): RealBox {
      if c.isObject then (if OFFSET <= c.idx < OFFSET + |objects| then objects[c.idx - OFFSET] else NoBox)
      else if c.idx < |subjects| then subjects[c.idx] else NoBox
    }

    function SubjectAt(i: nat): Candidate
      requires i < |subjects|
    {
      Candidate(i, false, subjects[i].x0, subjects[i].y0)
    }

    function ObjectAt(k: nat): Candidate
      requires k < |objects|
    {
      Candidate(ObjectIdx(k), true, objects[k].x0, objects[k].y0)
    }

    /** The boxes are well-formed, and `dist` is the distance of boxes. */
    ghost predicate Measured(root: real -> real) {
      && IsRoot(root) && (forall a, b {:trigger dist(a, b)} :: dist(a, b) == BoxDistance(root, a, b))
      && (forall i | 0 <= i < |subjects| :: WellFormed(subjects[i]))
      && (forall k | 0 <= k < |objects| :: WellFormed(objects[k]))
    }

    /** For the distance of boxes a pair is always one of nearest boxes, .. */
    lemma ChosenIsNearest(root: real -> real, seen: set<nat>, sub: nat, obj: nat)
      requires Measured(root) && Chosen(seen, sub, obj)
      ensures
        || (NearestToCorner(UnseenBoxes(seen), subjects[sub]) && forall k | 0 <= k < |objects| ::
              UnseenObject(seen, k) ==> dist(subjects[sub], objects[obj]) <= dist(subjects[sub], objects[k]))
        || (NearestToCorner(UnseenBoxes(seen), objects[obj]) && forall i | 0 <= i < |subjects| ::
              UnseenSubject(seen, i) ==> dist(objects[obj], subjects[sub]) <= dist(objects[obj], subjects[i]))
    {
      if SubjectLeads(seen, sub, obj) {
        forall k | 0 <= k < |objects| && UnseenObject(seen, k)
          ensures dist(subjects[sub], objects[obj]) <= dist(subjects[sub], objects[k])
        {
          NoneIsNearerThanItself(root, subjects[sub], objects[k]);
          assert Prefers(subjects[sub], objects[obj], objects[k]);
        }
      } else {
        forall i | 0 <= i < |subjects| && UnseenSubject(seen, i)
          ensures dist(objects[obj], subjects[sub]) <= dist(objects[obj], subjects[i])
        {
          NoneIsNearerThanItself(root, objects[obj], subjects[i]);
          assert Prefers(objects[obj], subjects[sub], subjects[i]);
        }
      }
    }

    /** .. and no pair is left exactly when one kind has been used up. */
    lemma NoPairMeansUsedUp(root: real -> real, seen: set<nat>)
      requires Measured(root)
      ensures NoPairLeft(seen) <==>
        (forall i | 0 <= i < |subjects| :: i in seen) || (forall k | 0 <= k < |objects| :: ObjectIdx(k) in seen)
    {
      forall b, c | b in UnseenBoxes(seen) && c in UnseenBoxes(seen)
        ensures dist(b, b) <= dist(b, c)
      {
        NoneIsNearerThanItself(root, b, c);
      }
    }

    /** The candidates are proper, and n subjects and m objects are among them as far as they are unseen. */
    ghost predicate Collected(seen: set<nat>, candidates: seq<Candidate>, n: nat, m: nat)
      requires n <= |subjects| && m <= |objects|
    {
      && (forall c | c in candidates :: Proper(seen, c))
      && (forall i | 0 <= i < n && UnseenSubject(seen, i) :: SubjectAt(i) in candidates)
      && (forall k | 0 <= k < m && UnseenObject(seen, k) :: ObjectAt(k) in candidates)
    }

    /** All subjects and objects that have not been seen. */
    method Candidates() returns (candidates: seq<Candidate>)
      ensures Collected(seenIdx, candidates, |subjects|, |objects|)
    {
      candidates := [];
      for i := 0 to |subjects|
        invariant Collected(seenIdx, candidates, i, 0)
      {
        if i !in seenIdx {
          candidates := candidates + [SubjectAt(i)];
        }
      }
      for k := 0 to |objects|
        invariant Collected(seenIdx, candidates, |subjects|, k)
      {
        if ObjectIdx(k) !in seenIdx {
          candidates := candidates + [ObjectAt(k)];
        }
      }
    }

    /** The distance of a candidate from a box. */
    function DistanceFrom(box: RealBox): Candidate -> real {
      (c: Candidate) => dist(box, BoxOf(c))
    }

    /** The first candidate but one that is not of the same kind as the given one. */
    method FirstOfOtherKind(candidates: seq<Candidate>, isObject: bool) returns (found: bool, next: Candidate)
      requires candidates != []
      ensures Scanned(candidates, isObject, found, next)
    {
      for i := 1 to |candidates|
        invariant forall k | 0 < k < i :: candidates[k].isObject == isObject
      {
        if candidates[i].isObject != isObject {
          return true, candidates[i];
        }
      }
      return false, candidates[0];
    }

    /** Where the scan behind the first place stops. */
    ghost predicate Scanned(candidates: seq<Candidate>, isObject: bool, found: bool, next: Candidate) {
      if found then
        exists i :: 0 < i < |candidates| && next == candidates[i] && next.isObject != isObject &&
          forall k | 0 < k < i :: candidates[k].isObject == isObject
      else forall k | 0 < k < |candidates| :: candidates[k].isObject == isObject
    }

    /** The box `next` is at least distance from the first one, but for boxes nearer to it than itself. */
    ghost predicate Prefers(first: RealBox, next: RealBox, other: RealBox) {
      dist(first, next) <= dist(first, other) || dist(first, other) < dist(first, first)
    }

    /** The same candidates by their distance from the first, which leads again unless one is nearer to it than
        itself. */
    ghost predicate Reordered(sorted: seq<Candidate>, byDistance: seq<Candidate>) {
      && sorted != [] && byDistance != [] && SortedBy(DistanceFrom(BoxOf(sorted[0])), byDistance)
      && (forall c :: c in byDistance <==> c in sorted)
      && (byDistance[0] == sorted[0] ||
          dist(BoxOf(sorted[0]), BoxOf(byDistance[0])) < dist(BoxOf(sorted[0]), BoxOf(sorted[0])))
    }

    lemma SortReorders(sorted: seq<Candidate>)
      requires sorted != []
      ensures Reordered(sorted, Sort(DistanceFrom(BoxOf(sorted[0])), sorted))
    {
      var key := DistanceFrom(BoxOf(sorted[0]));
      SortMembers(key, sorted);
      SortIsRight(key, sorted);
      SortHead(key, sorted);
    }

    /** The scan finds the nearest candidate of the other kind. */
    lemma ScanFindsNearest(sorted: seq<Candidate>, byDistance: seq<Candidate>, found: bool, next: Candidate,
                           c: Candidate)
      requires Reordered(sorted, byDistance) && c in sorted && c.isObject != sorted[0].isObject
      requires Scanned(byDistance, sorted[0].isObject, found, next)
      ensures found ==> Prefers(BoxOf(sorted[0]), BoxOf(next), BoxOf(c))
      ensures !found ==> dist(BoxOf(sorted[0]), BoxOf(c)) < dist(BoxOf(sorted[0]), BoxOf(sorted[0]))
    {
      var key := DistanceFrom(BoxOf(sorted[0]));
      var m :| 0 <= m < |byDistance| && byDistance[m] == c;
      if found && m > 0 {
        var i :| 0 < i < |byDistance| && next == byDistance[i] && next.isObject != sorted[0].isObject &&
          forall k | 0 < k < i :: byDistance[k].isObject == sorted[0].isObject;
        assert i <= m;
        assert key(byDistance[i]) <= key(byDistance[m]);
      }
    }

    lemma UnseenBoxHasCandidate(candidates: seq<Candidate>, b: RealBox) returns (c: Candidate)
      requires Collected(seenIdx, candidates, |subjects|, |objects|) && b in UnseenBoxes(seenIdx)
      ensures c in candidates && BoxOf(c) == b
    {
      if i :| 0 <= i < |subjects| && UnseenSubject(seenIdx, i) && subjects[i] == b {
        c := SubjectAt(i);
      } else {
        var k :| 0 <= k < |objects| && UnseenObject(seenIdx, k) && objects[k] == b;
        c := ObjectAt(k);
      }
    }

    lemma CandidateIsUnseenBox(c: Candidate)
      requires Proper(seenIdx, c)
      ensures BoxOf(c) in UnseenBoxes(seenIdx)
    {
    }

    /** The unseen candidates are the unseen boxes. */
    lemma CandidatesAreBoxes(candidates: seq<Candidate>)
      requires Collected(seenIdx, candidates, |subjects|, |objects|)
      ensures forall c | c in candidates :: BoxOf(c) in UnseenBoxes(seenIdx)
      ensures forall b | b in UnseenBoxes(seenIdx) :: exists c :: c in candidates && BoxOf(c) == b
    {
      forall c | c in candidates
        ensures BoxOf(c) in UnseenBoxes(seenIdx)
      {
        CandidateIsUnseenBox(c);
      }
      forall b | b in UnseenBoxes(seenIdx)
        ensures exists c :: c in candidates && BoxOf(c) == b
      {
        var c := UnseenBoxHasCandidate(candidates, b);
      }
    }

    /** The least coordinates of the candidates are the corner of the unseen boxes. */
    lemma CornerOfCandidates(candidates: seq<Candidate>)
      requires candidates != [] && Collected(seenIdx, candidates, |subjects|, |objects|)
      ensures IsCorner(UnseenBoxes(seenIdx), MinX(candidates), MinY(candidates))
    {
      var boxes := UnseenBoxes(seenIdx);
      CandidatesAreBoxes(candidates);
      var c := MinXIsLeast(candidates);
      var d := MinYIsLeast(candidates);
      assert forall k | 0 <= k < |candidates| :: Proper(seenIdx, candidates[k]);
      assert candidates[c] in candidates && candidates[d] in candidates;
      assert BoxOf(candidates[c]) in boxes && BoxOf(candidates[c]).x0 == candidates[c].x;
      assert BoxOf(candidates[d]) in boxes && BoxOf(candidates[d]).y0 == candidates[d].y;
    }

    /** The first of the sorted candidates is nearest to the point that they are sorted by. */
    lemma FirstIsNearest(sorted: seq<Candidate>, left: real, top: real)
      requires sorted != [] && Collected(seenIdx, sorted, |subjects|, |objects|)
      requires IsCorner(UnseenBoxes(seenIdx), left, top) && SortedBy(SquaredFrom(left, top), sorted)
      ensures NearestToCorner(UnseenBoxes(seenIdx), BoxOf(sorted[0]))
    {
      CandidatesAreBoxes(sorted);
      assert sorted[0] in sorted;
      forall b | b in UnseenBoxes(seenIdx)
        ensures Nearer(BoxOf(sorted[0]), b, left, top)
      {
        var d :| d in sorted && BoxOf(d) == b;
        var m :| 0 <= m < |sorted| && sorted[m] == d;
        KeyIsNearer(sorted[0], d, left, top);
      }
      assert NearestTo(UnseenBoxes(seenIdx), BoxOf(sorted[0]), left, top);
    }

    lemma SquaredFromIs(c: Candidate, left: real, top: real)
      requires Proper(seenIdx, c)
      ensures SquaredFrom(left, top)(c) == (BoxOf(c).x0 - left) * (BoxOf(c).x0 - left) + (BoxOf(c).y0 - top) *
        (BoxOf(c).y0 - top)
    {
      var x, y := c.x - left, c.y - top;
      assert SquaredFrom(left, top)(c) == x * x + y * y;
      assert x == BoxOf(c).x0 - left && y == BoxOf(c).y0 - top;
    }

    lemma KeyIsNearer(c: Candidate, d: Candidate, left: real, top: real)
      requires Proper(seenIdx, c) && Proper(seenIdx, d)
      requires SquaredFrom(left, top)(c) <= SquaredFrom(left, top)(d)
      ensures Nearer(BoxOf(c), BoxOf(d), left, top)
    {
      SquaredFromIs(c, left, top);
      SquaredFromIs(d, left, top);
    }

    /** The subject is nearest to the corner of all unseen boxes, and no unseen object is nearer to it than this one,
        but for those nearer to it than itself. */
    ghost predicate SubjectLeads(seen: set<nat>, sub: nat, obj: nat)
      requires sub < |subjects| && obj < |objects|
    {
      && NearestToCorner(UnseenBoxes(seen), subjects[sub])
      && forall k | 0 <= k < |objects| && UnseenObject(seen, k) :: Prefers(subjects[sub], objects[obj], objects[k])
    }

    /** The same for an object that is nearest to the corner, and a subject. */
    ghost predicate ObjectLeads(seen: set<nat>, sub: nat, obj: nat)
      requires sub < |subjects| && obj < |objects|
    {
      && NearestToCorner(UnseenBoxes(seen), objects[obj])
      && forall i | 0 <= i < |subjects| && UnseenSubject(seen, i) :: Prefers(objects[obj], subjects[sub], subjects[i])
    }

    /** The subject and the object may be the next pair. */
    ghost predicate Chosen(seen: set<nat>, sub: nat, obj: nat) {
      && UnseenSubject(seen, sub) && UnseenObject(seen, obj)
      && (SubjectLeads(seen, sub, obj) || ObjectLeads(seen, sub, obj))
    }

    /** No pair is left: one kind has been used up, or some box is nearer to another one than to itself. */
    ghost predicate NoPairLeft(seen: set<nat>) {
      || (forall i | 0 <= i < |subjects| :: i in seen)
      || (forall k | 0 <= k < |objects| :: ObjectIdx(k) in seen)
      || (exists b, c :: b in UnseenBoxes(seen) && c in UnseenBoxes(seen) && dist(b, c) < dist(b, b))
    }

    /** The unseen candidates, led by one that is nearest to the top left corner of all of them. */
    method ByCorner(candidates: seq<Candidate>) returns (sorted: seq<Candidate>)
      requires candidates != [] && Collected(seenIdx, candidates, |subjects|, |objects|)
      ensures sorted != [] && Collected(seenIdx, sorted, |subjects|, |objects|)
      ensures NearestToCorner(UnseenBoxes(seenIdx), BoxOf(sorted[0]))
    {
      sorted := FromTopLeft(candidates);
      CollectedAgain(candidates, sorted);
      CornerOfCandidates(candidates);
      FirstIsNearest(sorted, MinX(candidates), MinY(candidates));
    }

    /** The candidate of the other kind that is nearest to the first one. */
    method NextByDistance(sorted: seq<Candidate>) returns (found: bool, next: Candidate)
      requires sorted != [] && Collected(seenIdx, sorted, |subjects|, |objects|)
      requires NearestToCorner(UnseenBoxes(seenIdx), BoxOf(sorted[0]))
      ensures found ==> ChosenPair(sorted[0], next)
      ensures !found ==> NoPairLeft(seenIdx)
    {
      var byDistance := Sort(DistanceFrom(BoxOf(sorted[0])), sorted);
      SortReorders(sorted);
      found, next := FirstOfOtherKind(byDistance, sorted[0].isObject);
      ScanDecides(sorted, byDistance, found, next);
    }

    /** The candidate nearest to the top left corner of all, and the nearest one of the other kind. */
    method FirstAndNext() returns (found: bool, first: Candidate, next: Candidate)
      ensures found ==> ChosenPair(first, next)
      ensures !found ==> NoPairLeft(seenIdx)
    {
      var candidates := Candidates();
      if candidates == [] {
        NoneUnseen(candidates);
        found, first := false, Candidate(0, false, 0.0, 0.0);
        return found, first, first;
      }
      var sorted := ByCorner(candidates);
      first := sorted[0];
      found, next := NextByDistance(sorted);
    }

    /** The next subject and object to pair. */
    method ChoosePair() returns (found: bool, sub: nat, obj: nat)
      ensures found ==> Chosen(seenIdx, sub, obj)
      ensures !found ==> NoPairLeft(seenIdx)
    {
      var first, next;
      found, first, next := FirstAndNext();
      if !found {
        return false, 0, 0;
      }
      if first.isObject {
        return true, next.idx, first.idx - OFFSET;
      } else {
        return true, first.idx, next.idx - OFFSET;
      }
    }

    lemma CollectedAgain(candidates: seq<Candidate>, sorted: seq<Candidate>)
      requires Collected(seenIdx, candidates, |subjects|, |objects|)
      requires forall c :: c in sorted <==> c in candidates
      ensures Collected(seenIdx, sorted, |subjects|, |objects|)
    {
    }

    lemma NoneUnseen(candidates: seq<Candidate>)
      requires Collected(seenIdx, candidates, |subjects|, |objects|) && candidates == []
      ensures NoPairLeft(seenIdx)
    {
      OneKindOnly(candidates, true);
    }

    lemma NotFound(sorted: seq<Candidate>, byDistance: seq<Candidate>, next: Candidate)
      requires Collected(seenIdx, sorted, |subjects|, |objects|) && Reordered(sorted, byDistance)
      requires Scanned(byDistance, sorted[0].isObject, false, next)
      ensures NoPairLeft(seenIdx)
    {
      assert sorted[0] in sorted;
      if c :| c in sorted && c.isObject != sorted[0].isObject {
        CandidatesAreBoxes(sorted);
        ScanFindsNearest(sorted, byDistance, false, next, c);
      } else {
        OneKindOnly(sorted, sorted[0].isObject);
      }
    }

    lemma OneKindOnly(sorted: seq<Candidate>, isObject: bool)
      requires Collected(seenIdx, sorted, |subjects|, |objects|) && forall c | c in sorted :: c.isObject == isObject
      ensures NoPairLeft(seenIdx)
    {
      if isObject {
        forall i | 0 <= i < |subjects|
          ensures i in seenIdx
        {
          assert UnseenSubject(seenIdx, i) ==> SubjectAt(i) in sorted;
        }
      } else {
        forall k | 0 <= k < |objects|
          ensures ObjectIdx(k) in seenIdx
        {
          assert UnseenObject(seenIdx, k) ==> ObjectAt(k) in sorted;
        }
      }
    }

    /** The pair that is found, in the order of its kinds. */
    ghost predicate ChosenPair(first: Candidate, next: Candidate)
      reads this
    {
      if first.isObject then OFFSET <= first.idx && Chosen(seenIdx, next.idx, first.idx - OFFSET)
      else OFFSET <= next.idx && Chosen(seenIdx, first.idx, next.idx - OFFSET)
    }

    lemma SubjectsArePassedOver(sorted: seq<Candidate>, byDistance: seq<Candidate>, next: Candidate)
      requires Collected(seenIdx, sorted, |subjects|, |objects|) && Reordered(sorted, byDistance)
      requires sorted[0].isObject && Scanned(byDistance, true, true, next)
      ensures forall i | 0 <= i < |subjects| && UnseenSubject(seenIdx, i) ::
        Prefers(BoxOf(sorted[0]), BoxOf(next), subjects[i])
    {
      forall i | 0 <= i < |subjects| && UnseenSubject(seenIdx, i)
        ensures Prefers(BoxOf(sorted[0]), BoxOf(next), subjects[i])
      {
        ScanFindsNearest(sorted, byDistance, true, next, SubjectAt(i));
      }
    }

    lemma ObjectsArePassedOver(sorted: seq<Candidate>, byDistance: seq<Candidate>, next: Candidate)
      requires Collected(seenIdx, sorted, |subjects|, |objects|) && Reordered(sorted, byDistance)
      requires !sorted[0].isObject && Scanned(byDistance, false, true, next)
      ensures forall k | 0 <= k < |objects| && UnseenObject(seenIdx, k) ::
        Prefers(BoxOf(sorted[0]), BoxOf(next), objects[k])
    {
      forall k | 0 <= k < |objects| && UnseenObject(seenIdx, k)
        ensures Prefers(BoxOf(sorted[0]), BoxOf(next), objects[k])
      {
        assert BoxOf(ObjectAt(k)) == objects[k];
        ScanFindsNearest(sorted, byDistance, true, next, ObjectAt(k));
      }
    }

    lemma PairIsChosen(first: Candidate, next: Candidate)
      requires Proper(seenIdx, first) && Proper(seenIdx, next) && first.isObject != next.isObject
      requires NearestToCorner(UnseenBoxes(seenIdx), BoxOf(first))
      requires first.isObject ==> forall i | 0 <= i < |subjects| && UnseenSubject(seenIdx, i) ::
        Prefers(BoxOf(first), BoxOf(next), subjects[i])
      requires !first.isObject ==> forall k | 0 <= k < |objects| && UnseenObject(seenIdx, k) ::
        Prefers(BoxOf(first), BoxOf(next), objects[k])
      ensures ChosenPair(first, next)
    {
      if first.isObject {
        assert ObjectLeads(seenIdx, next.idx, first.idx - OFFSET);
      } else {
        assert SubjectLeads(seenIdx, first.idx, next.idx - OFFSET);
      }
    }

    lemma ScanDecides(sorted: seq<Candidate>, byDistance: seq<Candidate>, found: bool, next: Candidate)
      requires Collected(seenIdx, sorted, |subjects|, |objects|) && Reordered(sorted, byDistance)
      requires NearestToCorner(UnseenBoxes(seenIdx), BoxOf(sorted[0]))
      requires Scanned(byDistance, sorted[0].isObject, found, next)
      ensures found ==> ChosenPair(sorted[0], next)
      ensures !found ==> NoPairLeft(seenIdx)
    {
      if !found {
        NotFound(sorted, byDistance, next);
      } else {
        assert next in byDistance && next.isObject != sorted[0].isObject;
        assert sorted[0] in sorted && Proper(seenIdx, sorted[0]) && Proper(seenIdx, next);
        if sorted[0].isObject {
          SubjectsArePassedOver(sorted, byDistance, next);
        } else {
          ObjectsArePassedOver(sorted, byDistance, next);
        }
        PairIsChosen(sorted[0], next);
      }
    }

    /** The least distance of any subject from the object. */
    method NearestDistance(obj: nat) returns (nearest: real)
      requires subjects != [] && obj < |objects|
      ensures forall k | 0 <= k < |subjects| :: nearest <= dist(subjects[k], objects[obj])
      ensures exists k :: 0 <= k < |subjects| && nearest == dist(subjects[k], objects[obj])
    {
      nearest := dist(subjects[0], objects[obj]);
      for i := 0 to |subjects|
        invariant forall k | 0 <= k < i :: nearest <= dist(subjects[k], objects[obj])
        invariant exists k :: 0 <= k < |subjects| && nearest == dist(subjects[k], objects[obj])
      {
        if dist(subjects[i], objects[obj]) < nearest {
          nearest := dist(subjects[i], objects[obj]);
        }
      }
    }

    lemma SeesObject(obj: nat)
      requires obj < |objects|
      ensures obj in Range(|objects|) && ObjectIdx(obj) in AllIdx()
    {
      InRange(|objects|, obj);
    }

    lemma SeenObjectsAdd(obj: nat, seen: set<nat>, sub: nat)
      requires obj < |objects| && ObjectIdx(obj) !in seen && sub < |subjects| && Separate()
      ensures var more := seen + {sub, ObjectIdx(obj)};
        multiset(set k | k in Range(|objects|) && ObjectIdx(k) in more) ==
          multiset(set k | k in Range(|objects|) && ObjectIdx(k) in seen) + multiset{obj}
    {
      SeesObject(obj);
      var more := seen + {sub, ObjectIdx(obj)};
      var a := set k | k in Range(|objects|) && ObjectIdx(k) in more;
      var b := set k | k in Range(|objects|) && ObjectIdx(k) in seen;
      assert a == b + {obj};
    }

    lemma CloseEntries(entries: seq<Entry>, e: Entry)
      requires AllClose(entries) && forall k | k in e.objs :: Close(e.sub, k)
      ensures AllClose(entries + [e])
    {
    }

    /** Appends the entry of a subject that has none. */
    method AppendEntry(e: Entry)
      requires DistinctSubjects(ret) && AllClose(ret) && e.sub !in Subjects(ret)
      requires forall k | k in e.objs :: Close(e.sub, k)
      modifies this`ret
      ensures DistinctSubjects(ret) && AllClose(ret) && Subjects(ret) == old(Subjects(ret)) + {e.sub}
      ensures ObjectCounts(ret) == old(ObjectCounts(ret)) + multiset(e.objs)
      ensures ret == old(ret) + [e]
    {
      CountsNewEntry(ret, e);
      CloseEntries(ret, e);
      ret := ret + [e];
    }

    /** A new entry for a subject that has none, with one unseen object. */
    method AddEntry(sub: nat, obj: nat)
      requires Valid() && Close(sub, obj) && sub !in seenSubIdx && ObjectIdx(obj) !in seenIdx
      modifies this
      ensures Valid()
      ensures seenIdx == old(seenIdx) + {sub, ObjectIdx(obj)} && seenSubIdx == old(seenSubIdx) + {sub}
      ensures ret == old(ret) + [Entry(sub, [obj])] && Pairs(ret) == old(Pairs(ret)) + {(sub, obj)}
    {
      InRange(|subjects|, sub);
      SeesObject(obj);
      if Separate() {
        SeenObjectsAdd(obj, seenIdx, sub);
      }
      PairsNewEntry(ret, sub, obj);
      AppendEntry(Entry(sub, [obj]));
      seenIdx := seenIdx + {sub, ObjectIdx(obj)};
      seenSubIdx := seenSubIdx + {sub};
      assert multiset([obj]) == multiset{obj};
    }

    ghost function Reached(): Progress
      reads this
    {
      Progress(seenIdx, seenSubIdx, ret)
    }

    /** One round with a pair: a pair that fits becomes an entry, and of any other pair the subject is marked. */
    ghost predicate Round(p: Progress, q: Progress, sub: nat, obj: nat) {
      && sub < |subjects| && obj < |objects|
      && (Fits(sub, obj) ==>
            q == Progress(p.seen + {sub, ObjectIdx(obj)}, p.subs + {sub}, p.entries + [Entry(sub, [obj])]))
      && (!Fits(sub, obj) ==> q == p.(seen := p.seen + {sub}))
    }

    /** A round with a pair that may be chosen. */
    ghost predicate Step(p: Progress, q: Progress) {
      exists sub, obj :: Chosen(p.seen, sub, obj) && Round(p, q, sub, obj)
    }

    /** Rounds that lead from p to q, one after the other. */
    ghost predicate Run(run: seq<Progress>, p: Progress, q: Progress) {
      && run != [] && run[0] == p && run[|run| - 1] == q
      && forall n | 0 <= n < |run| - 1 :: Step(run[n], run[n + 1])
    }

    /** Every subject has an entry, or no pair is left. */
    ghost predicate Finished(p: Progress) {
      (forall i | 0 <= i < |subjects| :: i in p.subs) || NoPairLeft(p.seen)
    }

    /** One round: either only the subject is marked, or the pair becomes an entry. */
    method MatchPair(sub: nat, obj: nat)
      requires Valid() && seenSubIdx <= seenIdx
      requires sub < |subjects| && sub !in seenIdx && obj < |objects| && ObjectIdx(obj) !in seenIdx
      modifies this
      ensures Valid() && seenSubIdx <= seenIdx
      ensures Round(old(Reached()), Reached(), sub, obj) && old(seenIdx) < seenIdx
    {
      var pairDistance := dist(subjects[sub], objects[obj]);
      var nearest := NearestDistance(obj);
      if pairDistance >= 3.0 * nearest {
        InRange(|subjects|, sub);
        seenIdx := seenIdx + {sub};
        assert Separate() ==> SeenObjects() == old(SeenObjects());
        return;
      }
      AddEntry(sub, obj);
    }

    /** Pairs subjects and objects, round after round, until there is nothing more to pair. */
    method MatchPairs() returns (ghost run: seq<Progress>)
      requires Valid() && seenSubIdx <= seenIdx
      modifies this
      ensures Valid()
      ensures Run(run, old(Reached()), Reached()) && Finished(Reached())
    {
      run := [Reached()];
      while |subjects| > |seenSubIdx|
        invariant Valid() && seenSubIdx <= seenIdx
        invariant Run(run, old(Reached()), Reached())
        decreases |AllIdx() - seenIdx|
      {
        var found, sub, obj := ChoosePair();
        if !found {
          return;
        }
        ghost var before := Reached();
        MatchPair(sub, obj);
        LessUnseen(before.seen);
        RunOn(run, old(Reached()), before, Reached(), sub, obj);
        run := run + [Reached()];
      }
      AllHaveEntries();
    }

    lemma LessUnseen(before: set<nat>)
      requires before < seenIdx <= AllIdx()
      ensures |AllIdx() - seenIdx| < |AllIdx() - before|
    {
      ProperSubsetSize(AllIdx() - seenIdx, AllIdx() - before);
    }

    lemma RunOn(run: seq<Progress>, p: Progress, q: Progress, r: Progress, sub: nat, obj: nat)
      requires Run(run, p, q) && Chosen(q.seen, sub, obj) && Round(q, r, sub, obj)
      ensures Run(run + [r], p, r)
    {
      assert Step(q, r);
    }

    lemma AllHaveEntries()
      requires Valid() && |subjects| <= |seenSubIdx|
      ensures forall i | 0 <= i < |subjects| :: i in seenSubIdx
    {
      forall i | 0 <= i < |subjects|
        ensures i in seenSubIdx
      {
        InRange(|subjects|, i);
        if i !in seenSubIdx {
          ProperSubsetSize(seenSubIdx, Range(|subjects|));
        }
      }
    }

    /** The first subject at the least distance. */
    method NearestSubject(obj: nat) returns (sub: nat)
      requires subjects != [] && obj < |objects|
      ensures sub < |subjects| && FirstNearest(sub, obj)
    {
      sub := 0;
      for k := 0 to |subjects|
        invariant sub < |subjects| && (k > 0 ==> sub < k)
        invariant forall m | 0 <= m < k :: dist(objects[obj], subjects[sub]) <= dist(objects[obj], subjects[m])
        invariant forall m | 0 <= m < sub :: dist(objects[obj], subjects[sub]) < dist(objects[obj], subjects[m])
      {
        if k == 0 || dist(objects[obj], subjects[k]) < dist(objects[obj], subjects[sub]) {
          sub := k;
        }
      }
    }

    /** The entry of a subject that has one. */
    method FindEntry(sub: nat) returns (k: nat)
      requires sub in Subjects(ret)
      ensures k < |ret| && ret[k].sub == sub
    {
      k := 0;
      while ret[k].sub != sub
        invariant k < |ret| && forall m | 0 <= m < k :: ret[m].sub != sub
        decreases |ret| - k
      {
        k := k + 1;
        assert k < |ret| by {
          var e :| e in ret && e.sub == sub;
          var m :| 0 <= m < |ret| && ret[m] == e;
        }
      }
    }

    /** One more object for the entry of its nearest subject. */
    method ExtendEntry(sub: nat, obj: nat)
      requires Valid() && Close(sub, obj) && sub in seenSubIdx && ObjectIdx(obj) !in seenIdx
      modifies this
      ensures Valid()
      ensures seenIdx == old(seenIdx) + {sub, ObjectIdx(obj)} && seenSubIdx == old(seenSubIdx)
      ensures Pairs(ret) == old(Pairs(ret)) + {(sub, obj)}
    {
      InRange(|subjects|, sub);
      SeesObject(obj);
      if Separate() {
        SeenObjectsAdd(obj, seenIdx, sub);
      }
      seenIdx := seenIdx + {sub, ObjectIdx(obj)};
      var k := FindEntry(sub);
      CountsAppendTo(ret, k, obj);
      PairsAppendTo(ret, k, obj);
      ghost var before := ret;
      ret := ret[k := ret[k].(objs := ret[k].objs + [obj])];
      SameSubjects(before, ret);
      ExtendKeepsClose(before, k, obj);
    }

    lemma ExtendKeepsClose(entries: seq<Entry>, k: nat, obj: nat)
      requires AllClose(entries) && k < |entries| && Close(entries[k].sub, obj)
      ensures AllClose(entries[k := entries[k].(objs := entries[k].objs + [obj])])
    {
      var changed := entries[k := entries[k].(objs := entries[k].objs + [obj])];
      forall e, o | e in changed && o in e.objs
        ensures Close(e.sub, o)
      {
        var m :| 0 <= m < |changed| && changed[m] == e;
        assert entries[m] in entries;
      }
    }

    /** Gives one object, if it is still unseen, to its nearest subject. */
    method AttachOne(i: nat) returns (ghost sub: nat)
      requires Valid() && i < |objects| && (subjects == [] ==> ret == [])
      modifies this
      ensures Valid() && (subjects == [] ==> ret == [])
      ensures ObjectIdx(i) in old(seenIdx) ==> seenIdx == old(seenIdx) && Pairs(ret) == old(Pairs(ret))
      ensures ObjectIdx(i) !in old(seenIdx) && subjects == [] ==>
        seenIdx == old(seenIdx) + {ObjectIdx(i)} && Pairs(ret) == old(Pairs(ret))
      ensures ObjectIdx(i) !in old(seenIdx) && subjects != [] ==>
        && sub < |subjects| && FirstNearest(sub, i) && Pairs(ret) == old(Pairs(ret)) + {(sub, i)}
        && seenIdx == old(seenIdx) + {sub, ObjectIdx(i)}
    {
      sub := 0;
      if ObjectIdx(i) in seenIdx { return; }
      if subjects == [] {
        SeesObject(i);
        seenIdx := seenIdx + {ObjectIdx(i)};
        return;
      }
      var nearest := NearestSubject(i);
      sub := nearest;
      if nearest in seenSubIdx {
        ExtendEntry(nearest, i);
      } else {
        AddEntry(nearest, i);
      }
    }

    /** Every attachment is one of `before`, or it is to a nearest subject. */
    ghost predicate AddsNearest(before: set<(nat, nat)>, entries: seq<Entry>) {
      && before <= Pairs(entries)
      && forall p | p in Pairs(entries) && p !in before ::
           p.0 < |subjects| && p.1 < |objects| && FirstNearest(p.0, p.1)
    }

    /** The unseen ones of the first n objects, each with the first of its nearest subjects. */
    ghost function Remaining(seen: set<nat>, n: nat): set<(nat, nat)>
      requires n <= |objects|
    {
      set sub, k | 0 <= k < n && 0 <= sub < |subjects| && UnseenObject(seen, k) && FirstNearest(sub, k) :: (sub, k)
    }

    /** Of the objects before i, those not seen at first have been attached; the others have not been looked at. */
    ghost predicate AttachedUpTo(seenAtFirst: set<nat>, pairs: set<(nat, nat)>, seen: set<nat>, entries: seq<Entry>,
                                 i: nat)
    {
      && i <= |objects| && seenAtFirst <= seen && Pairs(entries) == pairs + Remaining(seenAtFirst, i)
      && (forall m | i <= m < |objects| && ObjectIdx(m) in seen :: ObjectIdx(m) in seenAtFirst)
    }

    /** Gives every object that is still unseen to its nearest subject; what was attached before stays. */
    method AttachRemaining()
      requires Valid()
      modifies this
      ensures Valid() && (subjects == [] ==> ret == [])
      ensures forall i | 0 <= i < |objects| :: ObjectIdx(i) in seenIdx
      ensures AddsNearest(old(Pairs(ret)), ret)
      ensures Separate() ==> Pairs(ret) == old(Pairs(ret)) + Remaining(old(seenIdx), |objects|)
    {
      assert subjects == [] ==> ret == [] by { NoSubjectsNoEntries(); }
      ghost var seenAtFirst, pairs := seenIdx, Pairs(ret);
      assert Remaining(seenAtFirst, 0) == {};
      for i := 0 to |objects|
        invariant Valid() && (subjects == [] ==> ret == [])
        invariant forall m | 0 <= m < i :: ObjectIdx(m) in seenIdx
        invariant AddsNearest(pairs, ret)
        invariant Separate() ==> AttachedUpTo(seenAtFirst, pairs, seenIdx, ret, i)
      {
        ghost var seen, before := seenIdx, ret;
        ghost var sub := AttachOne(i);
        AttachStep(seenAtFirst, pairs, seen, before, i, sub);
      }
    }

    /** What attaching object i, or passing over it, means for the objects before and behind it. */
    lemma AttachStep(seenAtFirst: set<nat>, pairs: set<(nat, nat)>, seen: set<nat>, before: seq<Entry>, i: nat,
                     sub: nat)
      requires i < |objects|
      requires ObjectIdx(i) in seen ==> seenIdx == seen && Pairs(ret) == Pairs(before)
      requires ObjectIdx(i) !in seen && subjects == [] ==>
        seenIdx == seen + {ObjectIdx(i)} && Pairs(ret) == Pairs(before)
      requires ObjectIdx(i) !in seen && subjects != [] ==>
        && sub < |subjects| && FirstNearest(sub, i) && Pairs(ret) == Pairs(before) + {(sub, i)}
        && seenIdx == seen + {sub, ObjectIdx(i)}
      requires Separate() ==> AttachedUpTo(seenAtFirst, pairs, seen, before, i)
      ensures Separate() ==> AttachedUpTo(seenAtFirst, pairs, seenIdx, ret, i + 1)
    {
      if Separate() {
        if ObjectIdx(i) in seen || subjects == [] {
          NoneRemains(seenAtFirst, i);
        } else {
          OneRemains(seenAtFirst, i, sub);
        }
      }
    }

    lemma NoneRemains(seen: set<nat>, i: nat)
      requires i < |objects| && (!UnseenObject(seen, i) || subjects == [])
      ensures Remaining(seen, i + 1) == Remaining(seen, i)
    {
      forall p | p in Remaining(seen, i + 1)
        ensures p in Remaining(seen, i)
      {
        assert p.1 != i;
      }
    }

    lemma OneRemains(seen: set<nat>, i: nat, sub: nat)
      requires i < |objects| && UnseenObject(seen, i) && sub < |subjects| && FirstNearest(sub, i)
      ensures Remaining(seen, i + 1) == Remaining(seen, i) + {(sub, i)}
    {
      forall p | p in Remaining(seen, i + 1)
        ensures p in Remaining(seen, i) + {(sub, i)}
      {
        if p.1 == i {
          OneFirstNearest(p.0, sub, i);
        }
      }
    }

    lemma OneFirstNearest(a: nat, b: nat, obj: nat)
      requires a < |subjects| && b < |subjects| && obj < |objects| && FirstNearest(a, obj) && FirstNearest(b, obj)
      ensures a == b
    {
      assert dist(objects[obj], subjects[a]) == dist(objects[obj], subjects[b]);
    }

    lemma NoSubjectsNoEntries()
      requires Valid()
      ensures subjects == [] ==> ret == []
    {
      if ret != [] {
        assert ret[0] in ret && ret[0].sub in Subjects(ret);
        InRange(|subjects|, ret[0].sub);
      }
    }

    /** Well-formed entries whose subjects are those seen and the first n. */
    ghost predicate Completed(n: nat, counts: multiset<nat>, pairs: set<(nat, nat)>)
      reads this
    {
      && DistinctSubjects(ret) && AllClose(ret) && Pairs(ret) == pairs
      && Subjects(ret) == seenSubIdx + Range(n) && ObjectCounts(ret) == counts
    }

    method AddEmptyEntry(i: nat, ghost counts: multiset<nat>, ghost pairs: set<(nat, nat)>)
      requires i !in seenSubIdx && Completed(i, counts, pairs)
      modifies this`ret
      ensures Completed(i + 1, counts, pairs)
    {
      assert i !in Subjects(ret) by { InRange(i, i); }
      ghost var e := Entry(i, []);
      assert e.objs == [] && (forall k | k in e.objs :: Close(e.sub, k));
      PairsEmptyEntry(ret, i);
      AppendEntry(Entry(i, []));
      assert seenSubIdx + Range(i + 1) == (seenSubIdx + Range(i)) + {i};
    }

    /** Empty entries for the subjects that have none. */
    method AddEmptyEntries()
      requires Completed(0, ObjectCounts(ret), Pairs(ret))
      modifies this`ret
      ensures Completed(|subjects|, old(ObjectCounts(ret)), old(Pairs(ret)))
    {
      ghost var counts, pairs := ObjectCounts(ret), Pairs(ret);
      for i := 0 to |subjects|
        invariant Completed(i, counts, pairs)
      {
        assert i in seenSubIdx ==> seenSubIdx + Range(i + 1) == seenSubIdx + Range(i);
        if i in seenSubIdx { continue; }
        AddEmptyEntry(i, counts, pairs);
      }
    }

    /** An entry for every subject; who is attached to whom stays. */
    method CompleteEntries()
      requires Valid() && (subjects == [] ==> ret == [])
      requires forall i | 0 <= i < |objects| :: ObjectIdx(i) in seenIdx
      modifies this`ret
      ensures Pairs(ret) == old(Pairs(ret)) && AllClose(ret)
      ensures |ret| == |subjects| && DistinctSubjects(ret) && Subjects(ret) == Range(|subjects|)
      ensures Separate() ==> (Partition(ret, |subjects|, |objects|) <==> subjects != [] || objects == [])
    {
      AllObjectsSeen();
      assert seenSubIdx + Range(0) == seenSubIdx;
      AddEmptyEntries();
      assert seenSubIdx + Range(|subjects|) == Range(|subjects|);
      if Separate() {
        IsPartition(ret, |subjects|, |objects|);
      }
      EntriesAreSubjects(ret);
      InRange(|subjects|, 0);
    }

    /** The whole matching. The first loop runs round after round from nothing until there is no more to pair; all
        other attachments are those of the unseen objects to their nearest subjects. The objects are a partition among
        all subjects whenever there is a subject at all. */
    method TieUpCategoryByDistance() returns (ghost run: seq<Progress>, ghost paired: Progress)
      requires seenIdx == {} && seenSubIdx == {} && ret == []
      modifies this
      ensures Run(run, Progress({}, {}, []), paired) && Finished(paired)
      ensures AddsNearest(Pairs(paired.entries), ret)
      ensures Separate() ==> Pairs(ret) == Pairs(paired.entries) + Remaining(paired.seen, |objects|)
      ensures |ret| == |subjects| && DistinctSubjects(ret) && Subjects(ret) == Range(|subjects|)
      ensures Separate() ==> (Partition(ret, |subjects|, |objects|) <==> subjects != [] || objects == [])
      ensures AllClose(ret)
    {
      run := MatchPairs();
      paired := Reached();
      AttachRemaining();
      ghost var attached := ret;
      CompleteEntries();
      assert AddsNearest(Pairs(paired.entries), attached);
    }

    lemma AllObjectsSeen()
      requires forall i | 0 <= i < |objects| :: ObjectIdx(i) in seenIdx
      ensures SeenObjects() == Range(|objects|)
    {
      forall k | k in Range(|objects|)
        ensures ObjectIdx(k) in seenIdx
      {
        InRange(|objects|, k);
      }
    }
  }

  lemma IsPartition(entries: seq<Entry>, n: nat, m: nat)
    requires DistinctSubjects(entries) && Subjects(entries) == Range(n)
    requires n > 0 ==> ObjectCounts(entries) == multiset(Range(m))
    ensures Partition(entries, n, m) <==> n > 0 || m == 0
  {
    EntriesAreSubjects(entries);
    InRange(n, 0);
    InRange(m, 0);
    if n == 0 {
      assert entries == [];
      assert m > 0 ==> 0 in multiset(Range(m));
    }
  }

  lemma SameSubjects(a: seq<Entry>, b: seq<Entry>)
    requires |a| == |b| && forall i | 0 <= i < |a| :: a[i].sub == b[i].sub
    ensures Subjects(a) == Subjects(b) && (DistinctSubjects(a) ==> DistinctSubjects(b))
  {
    forall s
      ensures s in Subjects(a) <==> s in Subjects(b)
    {
      if s in Subjects(a) {
        var i :| 0 <= i < |a| && a[i].sub == s;
        assert b[i] in b;
      }
      if s in Subjects(b) {
        var i :| 0 <= i < |b| && b[i].sub == s;
        assert a[i] in a;
      }
    }
  }
}
