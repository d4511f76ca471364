/**
  Which activity versions an application gets on submission: scopeMatches,
  specificity and pinApplicationActivities of packages/database/src/activities.ts.
*/
module Pinning {
  import opened Wrappers

  type Id = int

  datatype Scope = Scope(academicYear: Option<Id>, process: Option<Id>, courseLevel: Option<Id>, offering: Option<Id>)
  datatype Place = Place(academicYear: Id, process: Id, courseLevel: Id, offering: Id)
  datatype Version = Version(id: Id, definition: Id, number: int, scope: Scope)

  predicate Fits(wanted: Option<Id>, actual: Id) {
    wanted.None? || wanted.value == actual
  }

  predicate ScopeMatches(v: Version, place: Place) {
    && Fits(v.scope.academicYear, place.academicYear)
    && Fits(v.scope.process, place.process)
    && Fits(v.scope.courseLevel, place.courseLevel)
    && Fits(v.scope.offering, place.offering)
  }

  function Given(part: Option<Id>): nat {
    if part.Some? then 1 else 0
  }

  function Specificity(v: Version): nat {
    Given(v.scope.academicYear) + Given(v.scope.process) + Given(v.scope.courseLevel) + Given(v.scope.offering)
  }

  /** The comparator of the sort: more specific first, then the higher version number. */
  predicate SortsBefore(v: Version, w: Version) {
    if Specificity(v) != Specificity(w) then Specificity(v) > Specificity(w) else v.number > w.number
  }

  // ---- What the ranking means -------------------------------------------------------

  datatype Part = AcademicYear | Process | CourseLevel | Offering

  const PARTS := {AcademicYear, Process, CourseLevel, Offering}

  function Wanted(v: Version, part: Part): Option<Id> {
    match part
    case AcademicYear => v.scope.academicYear
    case Process => v.scope.process
    case CourseLevel => v.scope.courseLevel
    case Offering => v.scope.offering
  }

  function Actual(place: Place, part: Part): Id {
    match part
    case AcademicYear => place.academicYear
    case Process => place.process
    case CourseLevel => place.courseLevel
    case Offering => place.offering
  }

  /** The parts of its scope a version gives. */
  function GivenParts(v: Version): set<Part> {
    set part | part in PARTS && Wanted(v, part).Some?
  }

  /** Every part the version gives is that of the place. */
  predicate Applies(v: Version, place: Place) {
    forall part :: part in GivenParts(v) ==> Wanted(v, part).value == Actual(place, part)
  }

  /** More parts given, or as many and a higher number. */
  predicate Outranks(v: Version, w: Version) {
    |GivenParts(v)| > |GivenParts(w)| || (|GivenParts(v)| == |GivenParts(w)| && v.number > w.number)
  }

  ghost function GivenAmong(v: Version, parts: set<Part>): set<Part> {
    set part | part in parts && Wanted(v, part).Some?
  }

  lemma OnePartMore(v: Version, parts: set<Part>, part: Part)
    requires part !in parts
    ensures |GivenAmong(v, parts + {part})| == |GivenAmong(v, parts)| + Given(Wanted(v, part))
  {
    assert GivenAmong(v, parts + {part}) == GivenAmong(v, parts) + (if Wanted(v, part).Some? then {part} else {});
  }

  lemma SpecificityCountsParts(v: Version)
    ensures Specificity(v) == |GivenParts(v)|
  {
    assert GivenAmong(v, {}) == {};
    OnePartMore(v, {}, AcademicYear);
    OnePartMore(v, {AcademicYear}, Process);
    OnePartMore(v, {AcademicYear, Process}, CourseLevel);
    OnePartMore(v, {AcademicYear, Process, CourseLevel}, Offering);
    assert {} + {AcademicYear} == {AcademicYear};
    assert {AcademicYear} + {Process} == {AcademicYear, Process};
    assert {AcademicYear, Process} + {CourseLevel} == {AcademicYear, Process, CourseLevel};
    assert {AcademicYear, Process, CourseLevel} + {Offering} == PARTS;
    assert GivenParts(v) == GivenAmong(v, PARTS);
  }

  /** The comparator puts a version first exactly if it outranks the other. */
  lemma SortsByGivenParts(v: Version, w: Version)
    ensures SortsBefore(v, w) <==> Outranks(v, w)
  {
    hide Specificity, GivenParts;
    SpecificityCountsParts(v);
    SpecificityCountsParts(w);
  }

  /** A version is a candidate exactly if none of the parts it gives differs from the place. */
  lemma MatchesExactly(v: Version, place: Place)
    ensures ScopeMatches(v, place) <==> Applies(v, place)
  {
    if Applies(v, place) {
      forall part | part in PARTS ensures Wanted(v, part).Some? ==> Wanted(v, part).value == Actual(place, part) {
        assert Wanted(v, part).Some? ==> part in GivenParts(v);
      }
      assert AcademicYear in PARTS && Process in PARTS && CourseLevel in PARTS && Offering in PARTS;
      assert Wanted(v, AcademicYear) == v.scope.academicYear && Wanted(v, Process) == v.scope.process;
      assert Wanted(v, CourseLevel) == v.scope.courseLevel && Wanted(v, Offering) == v.scope.offering;
    }
  }

  /** Giving all the parts another version gives and one more outranks it, whatever the numbers. */
  lemma OneMorePartOutranks(v: Version, w: Version)
    requires GivenParts(w) < GivenParts(v)
    ensures SortsBefore(v, w) && !SortsBefore(w, v)
  {
    var more := GivenParts(v) - GivenParts(w);
    assert GivenParts(v) == GivenParts(w) + more && more != {};
    SortsByGivenParts(v, w);
    SortsByGivenParts(w, v);
  }

  // ---- Selection --------------------------------------------------------------------

  function Applicable(versions: seq<Version>, place: Place): seq<Version> {
    if versions == [] then []
    else
      var rest := Applicable(versions[..|versions| - 1], place);
      if ScopeMatches(versions[|versions| - 1], place) then rest + [versions[|versions| - 1]] else rest
  }

  /** Behind every element it does not sort before. */
  function Insert(sorted: seq<Version>, v: Version): seq<Version> {
    if sorted == [] || !SortsBefore(v, sorted[|sorted| - 1]) then sorted + [v]
    else Insert(sorted[..|sorted| - 1], v) + [sorted[|sorted| - 1]]
  }

  /** Array.prototype.sort: stable. */
  function Sort(s: seq<Version>): seq<Version> {
    if s == [] then [] else Insert(Sort(s[..|s| - 1]), s[|s| - 1])
  }

  /** The Map after the loop: the first version of each definition. */
  function FirstPerDefinition(s: seq<Version>): map<Id, Version> {
    if s == [] then map[]
    else
      var seen, v := FirstPerDefinition(s[..|s| - 1]), s[|s| - 1];
      if v.definition in seen then seen else seen[v.definition := v]
  }

  function Selected(versions: seq<Version>, place: Place): map<Id, Version> {
    FirstPerDefinition(Sort(Applicable(versions, place)))
  }

  // ---- The application's rows ------------------------------------------------------------

  datatype PinError = PolicyNotReady

  function VersionIds(selected: map<Id, Version>): map<Id, Id> {
    map d | d in selected :: selected[d].id
  }

  /** Creates the activities one by one; the first definition whose policy is not ready stops it. */
  method Create(selected: map<Id, Version>, ready: set<Id>) returns (r: Result<map<Id, Id>, PinError>)
    ensures r == if selected.Keys <= ready then Ok(VersionIds(selected)) else Err(PolicyNotReady)
  {
    var created: map<Id, Id> := map[];
    var waiting := selected.Keys;
    while waiting != {}
      invariant waiting <= selected.Keys
      invariant created == map d | d in selected && d !in waiting :: selected[d].id
      invariant forall d :: d in selected.Keys && d !in waiting ==> d in ready
      decreases |waiting|
    {
      var d := Pick(waiting);
      if d !in ready {
        assert d in selected.Keys;
        return Err(PolicyNotReady);
      }
      created := created[d := selected[d].id];
      waiting := waiting - {d};
    }
    assert created == VersionIds(selected);
    forall d | d in selected.Keys ensures d in ready {
    }
    return Ok(created);
  }

  class Application {
    /** From a definition to the version pinned for it; the pair is unique per application. */
    var activities: map<Id, Id>
    var activitiesPinnedAt: Option<int>

    constructor ()
      ensures activities == map[] && activitiesPinnedAt == None
    {
      activities, activitiesPinnedAt := map[], None;
    }

    /**
      `published` are the published versions in the order the database answers
      and `ready` says for which definitions the activity policy is ready. When
      it throws, the transaction leaves nothing behind.
    */
    method Pin(published: seq<Version>, place: Place, ready: set<Id>, now: int) returns (r: Result<nat, PinError>)
      modifies this
      ensures old(activities) != map[] ==>
                r == Ok(|old(activities)|) && activities == old(activities) && activitiesPinnedAt == old(activitiesPinnedAt)
      ensures old(activities) == map[] && Selected(published, place).Keys <= ready ==>
                && activities == VersionIds(Selected(published, place)) && activitiesPinnedAt == Some(now)
                && r == Ok(|Selected(published, place)|)
      ensures old(activities) == map[] && !(Selected(published, place).Keys <= ready) ==>
                r == Err(PolicyNotReady) && activities == map[] && activitiesPinnedAt == old(activitiesPinnedAt)
      ensures old(activities) == map[] && NumbersUnique(published) ==>
                && (r.Err? <==> exists d :: d !in ready && HasCandidate(published, place, d))
                && (r.Ok? ==> PinnedBest(published, place, activities))
    {
      hide Sort, Applicable;
      var existing := |activities|;
      if existing > 0 {
        return Ok(existing);
      }
      var applicable := Sort(Applicable(published, place));
      var selected: map<Id, Version> := map[];
      for i := 0 to |applicable|
        invariant selected == FirstPerDefinition(applicable[..i])
      {
        assert applicable[..i + 1][..i] == applicable[..i];
        if applicable[i].definition !in selected {
          selected := selected[applicable[i].definition := applicable[i]];
        }
      }
      assert applicable[..|applicable|] == applicable;
      assert selected == Selected(published, place);
      SelectionPinsBest(published, place, ready);
      hide Selected, FirstPerDefinition, NumbersUnique, PinnedBest, HasCandidate;
      var created := Create(selected, ready);
      if created.Err? {
        return Err(created.error);
      }
      activities := created.value;
      activitiesPinnedAt := Some(now);
      return Ok(|selected|);
    }
  }

  // ---- What is selected ----------------------------------------------------------------------

  lemma {:induction false} ApplicableMatches(versions: seq<Version>, place: Place, v: Version)
    ensures v in Applicable(versions, place) <==> v in versions && ScopeMatches(v, place)
  {
    if versions != [] {
      var before, last := versions[..|versions| - 1], versions[|versions| - 1];
      ApplicableMatches(before, place, v);
      assert versions == before + [last];
    }
  }

  ghost predicate Sorted(s: seq<Version>) {
    forall i, j :: 0 <= i < j < |s| ==> !SortsBefore(s[j], s[i])
  }

  lemma {:induction false} InsertKeeps(sorted: seq<Version>, v: Version)
    ensures multiset(Insert(sorted, v)) == multiset(sorted) + multiset{v}
    ensures Sorted(sorted) ==> Sorted(Insert(sorted, v))
  {
    if sorted != [] && SortsBefore(v, sorted[|sorted| - 1]) {
      var before, last := sorted[..|sorted| - 1], sorted[|sorted| - 1];
      InsertKeeps(before, v);
      assert sorted == before + [last];
      var inserted := Insert(before, v);
      if Sorted(sorted) {
        SortedPrefix(sorted);
        assert !SortsBefore(last, v);
        hide SortsBefore;
        forall i | 0 <= i < |inserted| ensures !SortsBefore(last, inserted[i]) {
          assert inserted[i] in multiset(inserted);
          assert inserted[i] == v || inserted[i] in before;
        }
        SortedAppend(inserted, last);
      }
    } else if Sorted(sorted) {
      assert sorted != [] ==> forall i :: 0 <= i < |sorted| - 1 ==> !SortsBefore(sorted[|sorted| - 1], sorted[i]);
      SortedAppend(sorted, v);
    }
  }

  lemma SortedPrefix(s: seq<Version>)
    requires s != [] && Sorted(s)
    ensures Sorted(s[..|s| - 1])
    ensures forall i :: 0 <= i < |s| - 1 ==> !SortsBefore(s[|s| - 1], s[i])
  {
    hide SortsBefore;
  }

  lemma SortedAppend(s: seq<Version>, v: Version)
    requires Sorted(s) && forall i :: 0 <= i < |s| ==> !SortsBefore(v, s[i])
    ensures Sorted(s + [v])
  {
    hide SortsBefore;
  }

  lemma NothingIsSorted()
    ensures Sorted([])
  {
  }

  lemma {:induction false} SortKeeps(s: seq<Version>)
    ensures multiset(Sort(s)) == multiset(s) && Sorted(Sort(s))
  {
    hide SortsBefore, Sorted, Insert;
    if s == [] {
      NothingIsSorted();
    } else {
      var before := s[..|s| - 1];
      SortKeeps(before);
      InsertKeeps(Sort(before), s[|s| - 1]);
      assert s == before + [s[|s| - 1]];
    }
  }

  lemma SortHas(s: seq<Version>, v: Version)
    ensures v in Sort(s) <==> v in s
  {
    SortKeeps(s);
    assert v in Sort(s) <==> v in multiset(Sort(s));
  }

  lemma {:induction false} FirstIsFirst(s: seq<Version>, d: Id)
    ensures d in FirstPerDefinition(s) <==> exists i :: 0 <= i < |s| && s[i].definition == d
    ensures d in FirstPerDefinition(s) ==>
              exists i :: 0 <= i < |s| && s[i] == FirstPerDefinition(s)[d] && s[i].definition == d
                          && forall j :: 0 <= j < i ==> s[j].definition != d
  {
    if s != [] {
      var before, last := s[..|s| - 1], s[|s| - 1];
      FirstIsFirst(before, d);
      assert forall i :: 0 <= i < |before| ==> before[i] == s[i];
      if d in FirstPerDefinition(before) {
        var i :| 0 <= i < |before| && before[i] == FirstPerDefinition(before)[d] && before[i].definition == d
              && forall j :: 0 <= j < i ==> before[j].definition != d;
        assert s[i] == FirstPerDefinition(s)[d];
      } else if last.definition == d {
        assert s[|before|] == FirstPerDefinition(s)[d];
      }
    }
  }

  // ---- The winner of a definition --------------------------------------------------------------

  /** The unique key of the version table: a number occurs once per definition. */
  ghost predicate NumbersUnique(versions: seq<Version>) {
    forall v, w :: v in versions && w in versions && v.definition == w.definition && v.number == w.number ==> v == w
  }

  /** `v` applies and outranks every other version of its definition that does. */
  ghost predicate IsBest(versions: seq<Version>, place: Place, v: Version) {
    && v in versions && Applies(v, place)
    && forall w :: w in versions && w.definition == v.definition && Applies(w, place) && w != v ==> Outranks(v, w)
  }

  ghost predicate HasCandidate(versions: seq<Version>, place: Place, d: Id) {
    exists w :: w in versions && w.definition == d && Applies(w, place)
  }

  lemma SelectedIsBest(versions: seq<Version>, place: Place, d: Id)
    requires NumbersUnique(versions) && d in Selected(versions, place)
    ensures Selected(versions, place)[d].definition == d && IsBest(versions, place, Selected(versions, place)[d])
  {
    hide Specificity, GivenParts, Applies, ScopeMatches;
    var s := Sort(Applicable(versions, place));
    SortKeeps(Applicable(versions, place));
    FirstIsFirst(s, d);
    var i :| 0 <= i < |s| && s[i] == FirstPerDefinition(s)[d] && s[i].definition == d && forall j :: 0 <= j < i ==> s[j].definition != d;
    var v := s[i];
    SortHas(Applicable(versions, place), v);
    ApplicableMatches(versions, place, v);
    MatchesExactly(v, place);
    forall w | w in versions && w.definition == d && Applies(w, place) && w != v ensures Outranks(v, w) {
      ApplicableMatches(versions, place, w);
      MatchesExactly(w, place);
      SortHas(Applicable(versions, place), w);
      var j :| 0 <= j < |s| && s[j] == w;
      assert i < j && !SortsBefore(w, v);
      SortsByGivenParts(w, v);
    }
  }

  /**
    Exactly one version is selected for each definition that has one whose given parts
    are all those of the place, the one that outranks the others, and none for the
    other definitions.
  */
  lemma PinsTheBest(versions: seq<Version>, place: Place, d: Id, v: Version)
    requires NumbersUnique(versions)
    ensures d in Selected(versions, place) && Selected(versions, place)[d] == v <==> v.definition == d && IsBest(versions, place, v)
    ensures d in Selected(versions, place) <==> HasCandidate(versions, place, d)
  {
    hide Specificity, GivenParts, Applies, ScopeMatches;
    var s := Sort(Applicable(versions, place));
    FirstIsFirst(s, d);
    if d in Selected(versions, place) {
      SelectedIsBest(versions, place, d);
    }
    forall w | w in versions && w.definition == d && Applies(w, place) ensures d in Selected(versions, place) {
      ApplicableMatches(versions, place, w);
      MatchesExactly(w, place);
      SortHas(Applicable(versions, place), w);
      var i :| 0 <= i < |s| && s[i] == w;
    }
    OutranksOneWay();
  }

  lemma OutranksOneWay()
    ensures forall v, w :: Outranks(v, w) ==> !Outranks(w, v)
  {
  }

  /** A version is never selected while another of its definition applies that gives its parts and one more. */
  lemma MoreSpecificWins(versions: seq<Version>, place: Place, v: Version, w: Version)
    requires NumbersUnique(versions) && v in versions && w in versions && v.definition == w.definition
    requires Applies(v, place) && GivenParts(w) < GivenParts(v)
    ensures v.definition in Selected(versions, place) && Selected(versions, place)[v.definition] != w
  {
    OneMorePartOutranks(v, w);
    SortsByGivenParts(v, w);
    hide Applies, GivenParts, Selected, Specificity, SortsBefore;
    PinsTheBest(versions, place, v.definition, w);
    OutranksOneWay();
  }

  /** The activities are the definitions with a candidate, each at its best version. */
  ghost predicate PinnedBest(versions: seq<Version>, place: Place, activities: map<Id, Id>) {
    && (forall d :: d in activities <==> HasCandidate(versions, place, d))
    && (forall d :: d in activities ==> exists v: Version :: v.definition == d && IsBest(versions, place, v) && activities[d] == v.id)
  }

  lemma SelectionPinsBest(versions: seq<Version>, place: Place, ready: set<Id>)
    ensures NumbersUnique(versions) ==>
              && (Selected(versions, place).Keys <= ready <==> forall d :: HasCandidate(versions, place, d) ==> d in ready)
              && PinnedBest(versions, place, VersionIds(Selected(versions, place)))
  {
    hide Selected, IsBest, HasCandidate;
    if NumbersUnique(versions) {
      var selected := Selected(versions, place);
      forall d ensures d in selected <==> HasCandidate(versions, place, d) {
        PinsTheBest(versions, place, d, Version(0, d, 0, Scope(None, None, None, None)));
      }
      assert forall d :: d in selected.Keys <==> d in selected;
      forall d | d in selected ensures exists v: Version :: v.definition == d && IsBest(versions, place, v) && VersionIds(selected)[d] == v.id {
        SelectedIsBest(versions, place, d);
      }
    }
  }

  /** The order in which the database answers makes no difference. */
  lemma SelectionIgnoresOrder(versions: seq<Version>, shuffled: seq<Version>, place: Place)
    requires NumbersUnique(versions) && multiset(versions) == multiset(shuffled)
    ensures Selected(versions, place) == Selected(shuffled, place)
  {
    assert forall v :: v in versions <==> v in shuffled by {
      assert forall v :: v in versions <==> v in multiset(versions);
      assert forall v :: v in shuffled <==> v in multiset(shuffled);
    }
    var here, there := Selected(versions, place), Selected(shuffled, place);
    forall d ensures d in here <==> d in there {
      var any := Version(0, d, 0, Scope(None, None, None, None));
      PinsTheBest(versions, place, d, any);
      PinsTheBest(shuffled, place, d, any);
    }
    forall d | d in here ensures here[d] == there[d] {
      PinsTheBest(versions, place, d, here[d]);
      PinsTheBest(shuffled, place, d, here[d]);
    }
  }

  /** A version a definition publishes later changes nothing unless it outranks the one selected. */
  lemma OnlyABetterVersionReplaces(versions: seq<Version>, added: Version, place: Place, d: Id)
    requires NumbersUnique(versions + [added]) && d in Selected(versions, place) && added !in versions
    ensures d in Selected(versions + [added], place)
    ensures Selected(versions + [added], place)[d] ==
            if added.definition == d && Applies(added, place) && Outranks(added, Selected(versions, place)[d])
            then added else Selected(versions, place)[d]
  {
    var chosen, all := Selected(versions, place)[d], versions + [added];
    SelectedIsBest(versions, place, d);
    hide Selected;
    PinsTheBest(all, place, d, chosen);
    PinsTheBest(all, place, d, added);
    assert chosen in all && added in all;
    if added.definition == d && Applies(added, place) && Outranks(added, chosen) {
      assert IsBest(all, place, added);
    } else {
      assert IsBest(all, place, chosen);
    }
  }
}
