/**
  The staff view of a waitlist: one pass over the rows in (enteredAt, id) order
  with a running counter. The reference is Place, which counts who is ahead.
*/
module WaitlistView {
  import opened AdmissionRows
  import opened SeatTheorems

  /** The answer of the waitlist query: every entry of the offering once, in (enteredAt, id) order. */
  predicate IsWaitlist(rows: seq<Id>, entries: map<Id, WaitlistEntry>, offeringId: Id) {
    && (forall i :: 0 <= i < |rows| ==> rows[i] in entries && entries[rows[i]].offeringId == offeringId)
    && (forall e :: e in entries && entries[e].offeringId == offeringId ==> e in rows)
    && (forall i, j :: 0 <= i < j < |rows| ==> Before(entries, rows[i], rows[j]))
  }

  function WaitingOf(entries: map<Id, WaitlistEntry>, offeringId: Id): set<Id> {
    set e | e in entries && Waiting(entries, offeringId, e)
  }

  /** Who waits for the same offering and comes first. */
  function Ahead(entries: map<Id, WaitlistEntry>, e: Id): set<Id>
    requires e in entries
  {
    set d | d in entries && Waiting(entries, entries[e].offeringId, d) && Before(entries, d, e)
  }

  function Place(entries: map<Id, WaitlistEntry>, e: Id): int
    requires e in entries
  {
    if entries[e].state == EntryActive then |Ahead(entries, e)| + 1 else 0
  }

  function ActiveAmong(entries: map<Id, WaitlistEntry>, rows: seq<Id>): set<Id> {
    set e | e in rows && e in entries && entries[e].state == EntryActive
  }

  lemma ActiveBeforeAreAhead(entries: map<Id, WaitlistEntry>, offeringId: Id, rows: seq<Id>, i: nat)
    requires IsWaitlist(rows, entries, offeringId) && i < |rows|
    ensures ActiveAmong(entries, rows[..i]) == Ahead(entries, rows[i])
  {
    forall d | d in Ahead(entries, rows[i]) ensures d in rows[..i] {
      var j :| 0 <= j < |rows| && rows[j] == d;
      assert j < i;
    }
  }

  lemma CounterIsPlace(entries: map<Id, WaitlistEntry>, offeringId: Id, rows: seq<Id>, i: nat)
    requires IsWaitlist(rows, entries, offeringId) && i < |rows|
    ensures var active := entries[rows[i]].state == EntryActive;
            && |ActiveAmong(entries, rows[..i + 1])| == |ActiveAmong(entries, rows[..i])| + (if active then 1 else 0)
            && Place(entries, rows[i]) == if active then |ActiveAmong(entries, rows[..i + 1])| else 0
  {
    var e := rows[i];
    ActiveBeforeAreAhead(entries, offeringId, rows, i);
    assert e !in Ahead(entries, e);
    assert rows[..i + 1] == rows[..i] + [e];
    if entries[e].state == EntryActive {
      assert ActiveAmong(entries, rows[..i + 1]) == ActiveAmong(entries, rows[..i]) + {e};
    } else {
      assert ActiveAmong(entries, rows[..i + 1]) == ActiveAmong(entries, rows[..i]);
    }
  }

  method ListWaitlist(rows: seq<Id>, entries: map<Id, WaitlistEntry>, offeringId: Id) returns (positions: seq<int>)
    requires IsWaitlist(rows, entries, offeringId)
    ensures |positions| == |rows|
    ensures forall i :: 0 <= i < |rows| ==> positions[i] == Place(entries, rows[i])
  {
    hide Place;
    var activePosition := 0;
    positions := [];
    var i := 0;
    while i < |rows|
      invariant 0 <= i <= |rows| && |positions| == i
      invariant activePosition == |ActiveAmong(entries, rows[..i])|
      invariant forall j :: 0 <= j < i ==> positions[j] == Place(entries, rows[j])
    {
      CounterIsPlace(entries, offeringId, rows, i);
      if entries[rows[i]].state == EntryActive {
        activePosition := activePosition + 1;
      }
      positions := positions + [if entries[rows[i]].state == EntryActive then activePosition else 0];
      i := i + 1;
    }
  }

  /** Position 1 is exactly the entry that promotion accepts as the first. */
  lemma FirstPlaceIsFirstInLine(entries: map<Id, WaitlistEntry>, e: Id)
    requires e in entries
    ensures Place(entries, e) == 1 <==> FirstInLine(entries, entries[e].offeringId, e)
  {
    if entries[e].state == EntryActive {
      if FirstInLine(entries, entries[e].offeringId, e) {
        assert Ahead(entries, e) == {};
      } else {
        var d :| d in entries && Waiting(entries, entries[e].offeringId, d) && d != e && !Before(entries, e, d);
        assert d in Ahead(entries, e);
      }
    }
  }

  lemma EarlierHasLowerPlace(entries: map<Id, WaitlistEntry>, offeringId: Id, d: Id, e: Id)
    requires d in entries && e in entries && Waiting(entries, offeringId, d) && Waiting(entries, offeringId, e)
    requires Before(entries, d, e)
    ensures Place(entries, d) < Place(entries, e)
  {
    assert d in Ahead(entries, e) && d !in Ahead(entries, d);
    SubsetSize(Ahead(entries, d), Ahead(entries, e) - {d});
  }

  lemma {:induction false} SubsetSize<T>(a: set<T>, b: set<T>)
    requires a <= b
    ensures |a| <= |b|
    ensures |a| == |b| ==> a == b
    decreases b
  {
    assert |b| == |a| + |b - a| by {
      assert b == a + (b - a);
    }
  }

  function PlacesOf(entries: map<Id, WaitlistEntry>, offeringId: Id): map<Id, int> {
    map e | e in WaitingOf(entries, offeringId) :: Place(entries, e)
  }

  /** The positions of those who wait are 1..k, each given once. */
  lemma PlacesAreOneToK(entries: map<Id, WaitlistEntry>, offeringId: Id)
    ensures PlacesOf(entries, offeringId).Values == NumbersUpTo(|WaitingOf(entries, offeringId)|)
    ensures forall d, e | d in WaitingOf(entries, offeringId) && e in WaitingOf(entries, offeringId) ::
              Place(entries, d) == Place(entries, e) ==> d == e
  {
    var waiting := WaitingOf(entries, offeringId);
    var places := PlacesOf(entries, offeringId);
    assert places.Keys == waiting;
    forall d, e | d in waiting && e in waiting && Place(entries, d) == Place(entries, e) ensures d == e {
      PlacesDiffer(entries, offeringId, d, e);
    }
    InjectiveSize(places);
    forall p | p in places.Values ensures p in NumbersUpTo(|waiting|) {
      var e := KeyOf(places, p);
      assert Ahead(entries, e) <= waiting - {e};
      SubsetSize(Ahead(entries, e), waiting - {e});
    }
    SubsetSize(places.Values, NumbersUpTo(|waiting|));
  }

  lemma PlacesDiffer(entries: map<Id, WaitlistEntry>, offeringId: Id, d: Id, e: Id)
    requires d in WaitingOf(entries, offeringId) && e in WaitingOf(entries, offeringId)
    ensures Place(entries, d) == Place(entries, e) ==> d == e
  {
    if d != e {
      if Before(entries, d, e) {
        EarlierHasLowerPlace(entries, offeringId, d, e);
      } else {
        EarlierHasLowerPlace(entries, offeringId, e, d);
      }
    }
  }
}
