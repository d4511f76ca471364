/**
  Reading the audit trail page by page: eventMatchesScope and
  AuditReadService.listEvents of packages/database/src/access-admin.ts.

  `raw` stands for the rows the query selects, in its order; only some of them
  are visible to the caller, so a page is collected over several batches.
*/
module AuditPages {
  import opened Wrappers

  datatype Event = Event(
    id: string, resourceType: string, resourceId: Option<string>, resourceScopes: Option<seq<string>>)

  function ScopePrefix(resourceType: string): Option<string> {
    if resourceType == "Application" then Some("application")
    else if resourceType == "AdmissionOffering" then Some("offering")
    else if resourceType == "AdmissionProcess" then Some("process")
    else if resourceType == "Campus" then Some("campus")
    else None
  }

  predicate EventMatchesScope(scopes: seq<string>, event: Event) {
    var prefix := ScopePrefix(event.resourceType);
    || "*" in scopes
    || (prefix.Some? && event.resourceId.Some? && prefix.value + ":" + event.resourceId.value in scopes)
    || (event.resourceScopes.Some? && exists s :: s in event.resourceScopes.value && s in scopes)
  }

  // ---- What a caller may see -------------------------------------------------------------

  /** The plain filter. */
  function Visible(scopes: seq<string>, events: seq<Event>): seq<Event> {
    if events == [] then []
    else if EventMatchesScope(scopes, events[0]) then [events[0]] + Visible(scopes, events[1..])
    else Visible(scopes, events[1..])
  }

  predicate UniqueIds(raw: seq<Event>) {
    forall i, j :: 0 <= i < j < |raw| ==> raw[i].id != raw[j].id
  }

  /** Behind the event of that id, or at the end if there is none. */
  function Behind(raw: seq<Event>, id: string): (start: nat)
    ensures start <= |raw|
    ensures forall i :: 0 <= i < start - 1 ==> raw[i].id != id
    ensures start > 0 && raw[start - 1].id != id ==> start == |raw|
  {
    if raw == [] then 0 else if raw[0].id == id then 1 else 1 + Behind(raw[1..], id)
  }

  /** Where a page starts: behind the event the cursor names; a cursor that names none leaves nothing. */
  function StartOf(raw: seq<Event>, cursor: Option<string>): (start: nat)
    ensures start <= |raw|
  {
    match cursor
    case None => 0
    case Some(id) => Behind(raw, id)
  }

  function Min(a: int, b: int): int {
    if a < b then a else b
  }

  /** The query: at most `take` rows after the cursor. */
  function FindMany(raw: seq<Event>, cursor: Option<string>, take: nat): seq<Event> {
    var start := StartOf(raw, cursor);
    raw[start..Min(start + take, |raw|)]
  }

  lemma SlicesJoin(raw: seq<Event>, a: nat, b: nat, c: nat)
    requires a <= b <= c <= |raw|
    ensures raw[a..b] + raw[b..c] == raw[a..c]
  {
  }

  datatype Page = Page(items: seq<Event>, nextCursor: Option<string>)

  /** A page cut from the plain filter: never longer than a positive limit, and full if another page follows. */
  function PageAfter(scopes: seq<string>, raw: seq<Event>, cursor: Option<string>, limit: int): (page: Page)
    ensures limit >= 1 ==> |page.items| <= limit && (page.nextCursor.Some? ==> |page.items| == limit)
  {
    var rest := Visible(scopes, raw[StartOf(raw, cursor)..]);
    if limit <= 0 then Page([], None)
    else if |rest| > limit then Page(rest[..limit], Some(rest[limit - 1].id))
    else Page(rest, None)
  }

  lemma {:induction false} VisibleConcat(scopes: seq<string>, a: seq<Event>, b: seq<Event>)
    ensures Visible(scopes, a + b) == Visible(scopes, a) + Visible(scopes, b)
  {
    if a == [] {
      assert a + b == b;
    } else {
      assert (a + b)[1..] == a[1..] + b;
      VisibleConcat(scopes, a[1..], b);
    }
  }

  lemma {:induction false} StartAfter(raw: seq<Event>, p: nat)
    requires UniqueIds(raw) && p < |raw|
    ensures StartOf(raw, Some(raw[p].id)) == p + 1
  {
    if p > 0 {
      assert raw[1..][p - 1] == raw[p];
      StartAfter(raw[1..], p - 1);
    }
  }

  /** slice(0, limit): a negative limit counts from the end. */
  function SliceTo<T>(s: seq<T>, limit: int): seq<T> {
    if limit >= 0 then s[..Min(limit, |s|)] else if |s| + limit >= 0 then s[..|s| + limit] else []
  }

  /** The loop over one batch. */
  method PushVisible(scopes: seq<string>, visibleEvents: seq<Event>, batch: seq<Event>) returns (pushed: seq<Event>)
    ensures pushed == visibleEvents + Visible(scopes, batch)
  {
    pushed := visibleEvents;
    for i := 0 to |batch|
      invariant pushed == visibleEvents + Visible(scopes, batch[..i])
    {
      assert batch[..i + 1] == batch[..i] + [batch[i]] && [batch[i]][1..] == [];
      VisibleConcat(scopes, batch[..i], [batch[i]]);
      if EventMatchesScope(scopes, batch[i]) {
        pushed := pushed + [batch[i]];
      }
    }
    assert batch[..|batch|] == batch;
  }

  method ListEvents(scopes: seq<string>, raw: seq<Event>, cursor: Option<string>, limit: int) returns (page: Page)
    requires UniqueIds(raw)
    ensures page == PageAfter(scopes, raw, cursor, limit)
  {
    hide EventMatchesScope, Visible, StartOf, UniqueIds, PageAfter;
    var batchSize := if limit * 5 > 100 then limit * 5 else 100;
    var visibleEvents: seq<Event> := [];
    var currentRawCursor := cursor;
    var hasMoreRaw := true;
    ghost var start := StartOf(raw, cursor);
    ghost var read := start;
    NothingVisible(scopes, raw[start..start]);
    while |visibleEvents| <= limit && hasMoreRaw
      invariant start <= read <= |raw|
      invariant visibleEvents == Visible(scopes, raw[start..read])
      invariant StartOf(raw, currentRawCursor) == read
      invariant !hasMoreRaw ==> read == |raw|
      invariant limit < 0 ==> read == start
      decreases |raw| - read, hasMoreRaw
    {
      var batch := FindMany(raw, currentRawCursor, batchSize);
      if |batch| == 0 {
        hasMoreRaw := false;
        break;
      }
      ghost var next := read + |batch|;
      assert batch == raw[read..next];
      SlicesJoin(raw, start, read, next);
      VisibleConcat(scopes, raw[start..read], batch);
      visibleEvents := PushVisible(scopes, visibleEvents, batch);
      currentRawCursor := Some(batch[|batch| - 1].id);
      StartAfter(raw, next - 1);
      read := next;
      if |batch| < batchSize {
        hasMoreRaw := false;
      }
    }
    ReadEnough(scopes, raw, cursor, limit, read);
    var visible := SliceTo(visibleEvents, limit);
    var hasMoreVisible := |visibleEvents| > limit;
    page := Page(visible, if hasMoreVisible && |visible| > 0 then Some(visible[|visible| - 1].id) else None);
  }

  /** Once more than `limit` events are visible, or all rows are read, the page does not depend on the rest. */
  lemma ReadEnough(scopes: seq<string>, raw: seq<Event>, cursor: Option<string>, limit: int, read: nat)
    requires StartOf(raw, cursor) <= read <= |raw|
    requires |Visible(scopes, raw[StartOf(raw, cursor)..read])| > limit || read == |raw|
    requires limit < 0 ==> read == StartOf(raw, cursor)
    ensures var visible := Visible(scopes, raw[StartOf(raw, cursor)..read]);
            var items := SliceTo(visible, limit);
            PageAfter(scopes, raw, cursor, limit)
            == Page(items, if |visible| > limit && |items| > 0 then Some(items[|items| - 1].id) else None)
  {
    hide EventMatchesScope, StartOf;
    var start := StartOf(raw, cursor);
    SlicesJoin(raw, start, read, |raw|);
    assert raw[read..|raw|] == raw[read..] && raw[start..|raw|] == raw[start..];
    VisibleConcat(scopes, raw[start..read], raw[read..]);
    if read == |raw| {
      NothingVisible(scopes, raw[read..]);
    }
    if limit < 0 {
      NothingVisible(scopes, raw[start..read]);
    }
    hide Visible;
  }

  lemma NothingVisible(scopes: seq<string>, none: seq<Event>)
    requires none == []
    ensures Visible(scopes, none) == []
  {
  }

  // ---- Which events are visible ----------------------------------------------------------------

  /** A scope of the caller names the resource of the event itself. */
  predicate NamesResource(scopes: seq<string>, event: Event) {
    event.resourceId.Some? && exists i :: 0 <= i < |scopes| && NamedBy(scopes[i], event.resourceType, event.resourceId.value)
  }

  predicate NamedBy(scope: string, resourceType: string, id: string) {
    || (resourceType == "Application" && scope == "application:" + id)
    || (resourceType == "AdmissionOffering" && scope == "offering:" + id)
    || (resourceType == "AdmissionProcess" && scope == "process:" + id)
    || (resourceType == "Campus" && scope == "campus:" + id)
  }

  /** The event was recorded under a scope the caller has. */
  predicate SharesScope(scopes: seq<string>, event: Event) {
    event.resourceScopes.Some?
    && exists i, j :: 0 <= i < |scopes| && 0 <= j < |event.resourceScopes.value| && scopes[i] == event.resourceScopes.value[j]
  }

  lemma MatchesExactly(scopes: seq<string>, event: Event)
    ensures EventMatchesScope(scopes, event) <==> "*" in scopes || NamesResource(scopes, event) || SharesScope(scopes, event)
  {
    if event.resourceId.Some? {
      NamedInScopes(scopes, event.resourceType, event.resourceId.value);
    }
    if event.resourceScopes.Some? {
      SharedIsFound(scopes, event.resourceScopes.value);
    }
  }

  lemma SharedIsFound(scopes: seq<string>, recorded: seq<string>)
    ensures (exists i, j :: 0 <= i < |scopes| && 0 <= j < |recorded| && scopes[i] == recorded[j]) <==>
            exists s :: s in recorded && s in scopes
  {
    forall s | s in recorded && s in scopes
      ensures exists i, j :: 0 <= i < |scopes| && 0 <= j < |recorded| && scopes[i] == recorded[j]
    {
      var i :| 0 <= i < |scopes| && scopes[i] == s;
      var j :| 0 <= j < |recorded| && recorded[j] == s;
      assert scopes[i] == recorded[j];
    }
    forall i, j | 0 <= i < |scopes| && 0 <= j < |recorded| && scopes[i] == recorded[j]
      ensures exists s :: s in recorded && s in scopes
    {
      assert scopes[i] in recorded && scopes[i] in scopes;
    }
  }

  lemma NamedInScopes(scopes: seq<string>, resourceType: string, id: string)
    ensures (exists i :: 0 <= i < |scopes| && NamedBy(scopes[i], resourceType, id)) <==>
            ScopePrefix(resourceType).Some? && ScopePrefix(resourceType).value + ":" + id in scopes
  {
    forall i | 0 <= i < |scopes|
      ensures NamedBy(scopes[i], resourceType, id) <==>
              ScopePrefix(resourceType).Some? && scopes[i] == ScopePrefix(resourceType).value + ":" + id
    {
      assert "application" + ":" == "application:" && "offering" + ":" == "offering:";
      assert "process" + ":" == "process:" && "campus" + ":" == "campus:";
    }
  }

  /** An event is shown exactly if the caller may see all events or has one of its scopes; order and repetition stay. */
  lemma VisibleExactly(scopes: seq<string>, before: seq<Event>, event: Event)
    ensures Visible(scopes, []) == []
    ensures Visible(scopes, before + [event])
            == Visible(scopes, before)
               + (if "*" in scopes || NamesResource(scopes, event) || SharesScope(scopes, event) then [event] else [])
  {
    MatchesExactly(scopes, event);
    VisibleConcat(scopes, before, [event]);
    assert [event][1..] == [];
  }

  // ---- Following the cursors -------------------------------------------------------------------

  /** The event a next cursor names lies past the start of its page. */
  lemma {:induction false} VisibleAt(scopes: seq<string>, events: seq<Event>, k: nat) returns (p: nat)
    requires k < |Visible(scopes, events)|
    ensures p < |events| && events[p] == Visible(scopes, events)[k]
    ensures Visible(scopes, events[..p + 1]) == Visible(scopes, events)[..k + 1]
    ensures Visible(scopes, events[p + 1..]) == Visible(scopes, events)[k + 1..]
  {
    hide EventMatchesScope;
    var shown := EventMatchesScope(scopes, events[0]);
    if shown && k == 0 {
      p := 0;
      assert events[..1][1..] == [];
    } else {
      var q := VisibleAt(scopes, events[1..], if shown then k - 1 else k);
      p := q + 1;
      assert events[..p + 1][1..] == events[1..][..q + 1];
      assert events[p + 1..] == events[1..][q + 1..];
    }
  }

  predicate Names(raw: seq<Event>, id: string) {
    exists i :: 0 <= i < |raw| && raw[i].id == id
  }

  /** A next cursor names an event past the start of its page, and what is left to see is what the page left out. */
  lemma CursorMovesOn(scopes: seq<string>, raw: seq<Event>, cursor: Option<string>, limit: int)
    requires UniqueIds(raw) && PageAfter(scopes, raw, cursor, limit).nextCursor.Some?
    ensures var next := PageAfter(scopes, raw, cursor, limit).nextCursor;
            && Names(raw, next.value)
            && StartOf(raw, cursor) < StartOf(raw, next)
            && Visible(scopes, raw[StartOf(raw, next)..]) == Visible(scopes, raw[StartOf(raw, cursor)..])[limit..]
  {
    hide EventMatchesScope, Visible, StartOf, UniqueIds;
    var start := StartOf(raw, cursor);
    var p := VisibleAt(scopes, raw[start..], limit - 1);
    assert raw[start..][p] == raw[start + p];
    StartAfter(raw, start + p);
    assert raw[start..][p + 1..] == raw[start + p + 1..];
  }

  /** All items a client gets from the given cursor on until a page has no next cursor. */
  function Followed(scopes: seq<string>, raw: seq<Event>, cursor: Option<string>, limit: int): seq<Event>
    requires UniqueIds(raw)
    decreases |raw| - StartOf(raw, cursor)
  {
    var page := PageAfter(scopes, raw, cursor, limit);
    if page.nextCursor.None? then page.items
    else
      CursorMovesOn(scopes, raw, cursor, limit);
      page.items + Followed(scopes, raw, page.nextCursor, limit)
  }

  lemma {:induction false} PagesCoverTheRest(scopes: seq<string>, raw: seq<Event>, cursor: Option<string>, limit: int)
    requires UniqueIds(raw) && limit >= 1
    ensures Followed(scopes, raw, cursor, limit) == Visible(scopes, raw[StartOf(raw, cursor)..])
    decreases |raw| - StartOf(raw, cursor)
  {
    hide Visible, EventMatchesScope, StartOf;
    var page := PageAfter(scopes, raw, cursor, limit);
    if page.nextCursor.Some? {
      CursorMovesOn(scopes, raw, cursor, limit);
      PagesCoverTheRest(scopes, raw, page.nextCursor, limit);
    }
  }

  /**
    The pages together are exactly the visible events, in order, without gap or
    repetition, if and only if the limit is positive or nothing is visible.
  */
  lemma PagesAreThePlainFilter(scopes: seq<string>, raw: seq<Event>, limit: int)
    requires UniqueIds(raw)
    ensures Followed(scopes, raw, None, limit) == Visible(scopes, raw) <==> limit >= 1 || Visible(scopes, raw) == []
  {
    assert raw[0..] == raw;
    if limit >= 1 {
      PagesCoverTheRest(scopes, raw, None, limit);
    }
  }

  // ---- Events recorded meanwhile --------------------------------------------------------------------

  function Known(raw: seq<Event>): set<Event> {
    set e | e in raw
  }

  /** The events of `s` that are among the given ones. */
  function Among(known: set<Event>, s: seq<Event>): seq<Event> {
    if s == [] then []
    else if s[0] in known then [s[0]] + Among(known, s[1..])
    else Among(known, s[1..])
  }

  lemma {:induction false} AmongConcat(known: set<Event>, a: seq<Event>, b: seq<Event>)
    ensures Among(known, a + b) == Among(known, a) + Among(known, b)
  {
    if a == [] {
      assert a + b == b;
    } else {
      assert (a + b)[1..] == a[1..] + b;
      AmongConcat(known, a[1..], b);
      assert Among(known, a + b) == if a[0] in known then [a[0]] + Among(known, a[1..] + b) else Among(known, a[1..] + b);
    }
  }

  lemma {:induction false} AmongVisible(scopes: seq<string>, known: set<Event>, s: seq<Event>)
    ensures Among(known, Visible(scopes, s)) == Visible(scopes, Among(known, s))
  {
    hide EventMatchesScope;
    if s != [] {
      AmongVisible(scopes, known, s[1..]);
      var rest, shown := Among(known, s[1..]), Visible(scopes, s[1..]);
      assert ([s[0]] + rest)[1..] == rest && ([s[0]] + shown)[1..] == shown;
    }
  }

  lemma {:induction false} AmongComesFrom(known: set<Event>, s: seq<Event>, e: Event)
    requires e in Among(known, s)
    ensures e in s
  {
    if s[0] != e || s[0] !in known {
      AmongComesFrom(known, s[1..], e);
    }
  }

  /** The rows of a later query: those of the earlier one in the same order, with others anywhere between them. */
  ghost predicate Grown(raw: seq<Event>, later: seq<Event>) {
    UniqueIds(raw) && UniqueIds(later) && Among(Known(raw), later) == raw
  }

  lemma AmongAround(known: set<Event>, s: seq<Event>, q: nat)
    requires q < |s| && s[q] in known
    ensures Among(known, s) == Among(known, s[..q]) + [s[q]] + Among(known, s[q + 1..])
  {
    var back := s[q..];
    assert s == s[..q] + back && back[1..] == s[q + 1..];
    AmongConcat(known, s[..q], back);
    assert Among(known, back) == [s[q]] + Among(known, s[q + 1..]);
  }

  lemma SplitAtUnique(raw: seq<Event>, front: seq<Event>, back: seq<Event>, p: nat)
    requires UniqueIds(raw) && p < |raw| && raw == front + [raw[p]] + back
    ensures back == raw[p + 1..]
  {
    assert raw[|front|] == raw[p];
    assert |front| == p;
  }

  lemma GrownBehind(raw: seq<Event>, later: seq<Event>, p: nat, q: nat)
    requires Grown(raw, later) && p < |raw| && q < |later| && later[q] == raw[p]
    ensures Among(Known(raw), later[q + 1..]) == raw[p + 1..]
  {
    hide Among, UniqueIds;
    AmongAround(Known(raw), later, q);
    SplitAtUnique(raw, Among(Known(raw), later[..q]), Among(Known(raw), later[q + 1..]), p);
  }

  /**
    Events recorded between two pages, wherever they sort, neither hide nor repeat an
    event that was there before: the pages that follow a cursor show the same ones of
    those, in the same order.
  */
  lemma NewEventsHideAndRepeatNothing(scopes: seq<string>, raw: seq<Event>, later: seq<Event>, cursor: string, limit: int)
    requires Grown(raw, later) && Names(raw, cursor) && limit >= 1
    ensures Among(Known(raw), Followed(scopes, later, Some(cursor), limit)) == Followed(scopes, raw, Some(cursor), limit)
  {
    hide Visible, EventMatchesScope, StartOf, Followed, Among, UniqueIds;
    var p :| 0 <= p < |raw| && raw[p].id == cursor;
    assert raw[p] in Among(Known(raw), later);
    AmongComesFrom(Known(raw), later, raw[p]);
    var q :| 0 <= q < |later| && later[q] == raw[p];
    StartAfter(raw, p);
    StartAfter(later, q);
    GrownBehind(raw, later, p, q);
    PagesCoverTheRest(scopes, raw, Some(cursor), limit);
    PagesCoverTheRest(scopes, later, Some(cursor), limit);
    AmongVisible(scopes, Known(raw), later[q + 1..]);
  }

  /** If all of them sort before the events already there, the pages that follow are the very same. */
  lemma {:induction false} NewestEventsDoNotShiftPages(
    scopes: seq<string>, newer: seq<Event>, raw: seq<Event>, cursor: string, limit: int)
    requires UniqueIds(newer + raw) && UniqueIds(raw) && Names(raw, cursor)
    ensures Followed(scopes, newer + raw, Some(cursor), limit) == Followed(scopes, raw, Some(cursor), limit)
    decreases |raw| - StartOf(raw, Some(cursor))
  {
    hide Visible, EventMatchesScope, StartOf;
    var all := newer + raw;
    var p :| 0 <= p < |raw| && raw[p].id == cursor;
    assert all[|newer| + p] == raw[p];
    StartAfter(all, |newer| + p);
    StartAfter(raw, p);
    assert all[StartOf(all, Some(cursor))..] == raw[StartOf(raw, Some(cursor))..];
    var page := PageAfter(scopes, raw, Some(cursor), limit);
    assert page == PageAfter(scopes, all, Some(cursor), limit);
    if page.nextCursor.Some? {
      CursorMovesOn(scopes, raw, Some(cursor), limit);
      NewestEventsDoNotShiftPages(scopes, newer, raw, page.nextCursor.value, limit);
    }
  }
}
