/** The bounded event store: the newest distinct events, whatever order they arrive in. */
module EventStore {

  /** What an accepted event carries, beside its identifier, time and kind. */
  datatype Parsed =
    | Organization(distinct: string)
    | Project(distinct: string, organizationRef: string, statusAddress: string)
    | ProjectStatus(address: string, organizationRef: string)
    | ProjectUpdate(subject: string, organizationRef: string, publishedAt: nat, revision: nat)
    | Unparsed

  datatype Event = Event(id: nat, createdAt: nat, kind: nat, parsed: Parsed, references: bool)

  /** Later events first; among equal times, smaller identifiers first. */
  predicate Newer(a: Event, b: Event) { a.createdAt > b.createdAt || (a.createdAt == b.createdAt && a.id < b.id) }

  predicate HasId(events: seq<Event>, id: nat) { exists i :: 0 <= i < |events| && events[i].id == id }

  /** Equal identifiers mean equal events. */
  ghost predicate Consistent(events: set<Event>) {
    forall a, b :: a in events && b in events && a.id == b.id ==> a == b
  }

  ghost predicate Sorted(events: seq<Event>) {
    forall i, j :: 0 <= i < j < |events| ==> Newer(events[i], events[j])
  }

  // ----- sorting -----

  function Place(events: seq<Event>, e: Event): seq<Event> {
    if events == [] || Newer(e, events[0]) then [e] + events else [events[0]] + Place(events[1..], e)
  }

  /** Stable insertion order, newest first. */
  function SortNewest(events: seq<Event>): seq<Event> {
    if events == [] then [] else Place(SortNewest(events[..|events| - 1]), events[|events| - 1])
  }

  lemma {:induction false} PlaceSorts(events: seq<Event>, e: Event)
    requires Sorted(events) && !HasId(events, e.id)
    ensures Sorted(Place(events, e)) && |Place(events, e)| == |events| + 1
    ensures forall x :: x in Place(events, e) <==> x == e || x in events
  {
    if events == [] {
    } else if Newer(e, events[0]) {
      assert forall x :: x in [e] + events <==> x == e || x in events;
    } else {
      var rest := events[1..];
      assert !HasId(rest, e.id);
      PlaceSorts(rest, e);
      assert Newer(events[0], e);
      forall x | x in Place(rest, e) ensures Newer(events[0], x) {
        if x in rest {
          var k :| 0 <= k < |rest| && rest[k] == x;
          assert rest[k] == events[k + 1];
        }
      }
      PrependSorted(events[0], Place(rest, e));
      assert events == [events[0]] + rest;
    }
  }

  lemma PrependSorted(e: Event, events: seq<Event>)
    requires Sorted(events) && forall x :: x in events ==> Newer(e, x)
    ensures Sorted([e] + events)
  {
  }

  lemma {:induction false} SortedStays(events: seq<Event>)
    requires Sorted(events)
    ensures SortNewest(events) == events
  {
    if events != [] {
      var n := |events| - 1;
      SortedStays(events[..n]);
      PlaceLast(events[..n], events[n]);
      assert events[..n] + [events[n]] == events;
    }
  }

  lemma {:induction false} PlaceLast(events: seq<Event>, e: Event)
    requires forall i :: 0 <= i < |events| ==> Newer(events[i], e)
    ensures Place(events, e) == events + [e]
  {
    if events != [] {
      PlaceLast(events[1..], e);
      assert events == [events[0]] + events[1..];
    }
  }

  // ----- bounded insertion -----

  /** Push, sort, truncate, unless the identifier is already there. */
  function InsertBounded(events: seq<Event>, e: Event, limit: nat): (seq<Event>, bool) {
    if HasId(events, e.id) then (events, false)
    else
      var sorted := SortNewest(events + [e]);
      (if |sorted| > limit then sorted[..limit] else sorted, true)
  }

  /** The `limit` newest of a set of events, newest first. */
  ghost predicate IsNewest(events: seq<Event>, all: set<Event>, limit: nat) {
    && Sorted(events) && |events| <= limit
    && (forall e :: e in events ==> e in all)
    && (forall e :: e in all ==> e in events || Crowded(events, limit, e))
  }

  /** The list is full of events newer than `e`. */
  ghost predicate Crowded(events: seq<Event>, limit: nat, e: Event) {
    |events| == limit && forall i :: 0 <= i < |events| ==> Newer(events[i], e)
  }

  lemma SortAppend(events: seq<Event>, e: Event)
    requires Sorted(events)
    ensures SortNewest(events + [e]) == Place(events, e)
  {
    SortedStays(events);
    assert (events + [e])[..|events|] == events;
  }

  /** Inserting keeps the newest events of the set so far. */
  lemma InsertKeepsNewest(events: seq<Event>, all: set<Event>, e: Event, limit: nat)
    requires limit > 0 && IsNewest(events, all, limit) && Consistent(all + {e})
    ensures IsNewest(InsertBounded(events, e, limit).0, all + {e}, limit)
  {
    if HasId(events, e.id) {
      var i :| 0 <= i < |events| && events[i].id == e.id;
      assert events[i] in all + {e} && e in all + {e};
    } else {
      SortAppend(events, e);
      PlaceSorts(events, e);
      var placed := Place(events, e);
      if |placed| <= limit {
        RoomLeft(events, all, e, limit);
      } else {
        Truncated(events, all, e, limit, placed);
      }
    }
  }

  lemma RoomLeft(events: seq<Event>, all: set<Event>, e: Event, limit: nat)
    requires IsNewest(events, all, limit) && |events| < limit && !HasId(events, e.id)
    ensures IsNewest(Place(events, e), all + {e}, limit)
  {
    PlaceSorts(events, e);
  }

  lemma Truncated(events: seq<Event>, all: set<Event>, e: Event, limit: nat, placed: seq<Event>)
    requires limit > 0 && IsNewest(events, all, limit) && |events| == limit && !HasId(events, e.id)
    requires placed == Place(events, e)
    ensures |placed| > limit && IsNewest(placed[..limit], all + {e}, limit)
  {
    PlaceSorts(events, e);
    var kept, last := placed[..limit], placed[limit];
    forall x | x in all + {e} ensures x in kept || Crowded(kept, limit, x) {
      if x in placed {
        InPrefix(placed, limit, x);
      } else {
        assert Crowded(events, limit, x);
        CrowdedByMore(events, e, limit, x, placed);
      }
    }
    forall x | x in kept ensures x in all + {e} { assert x in placed; }
  }

  lemma InPrefix(placed: seq<Event>, limit: nat, x: Event)
    requires Sorted(placed) && |placed| == limit + 1 && x in placed
    ensures x in placed[..limit] || Crowded(placed[..limit], limit, x)
  {
    var i :| 0 <= i < |placed| && placed[i] == x;
    if i < limit { assert placed[..limit][i] == x; }
  }

  lemma CrowdedByMore(events: seq<Event>, e: Event, limit: nat, x: Event, placed: seq<Event>)
    requires limit > 0 && Crowded(events, limit, x) && Sorted(placed) && |placed| == limit + 1 && x != e
    requires forall y :: y in placed <==> y == e || y in events
    ensures Crowded(placed[..limit], limit, x)
  {
    var kept, last := placed[..limit], placed[limit];
    forall i | 0 <= i < limit ensures Newer(kept[i], x) {
      assert kept[i] == placed[i] && placed[i] in placed;
      if placed[i] == e {
        assert Newer(e, last) && last in placed && last != e;
        assert last in events;
      }
    }
  }

  // ----- counting what is newer -----

  /** The events of a set that are newer than `e`. */
  ghost function Above(all: set<Event>, e: Event): set<Event> { set r | r in all && Newer(r, e) }

  ghost function Members(events: seq<Event>): set<Event> { set e | e in events }

  lemma {:induction false} MembersCount(events: seq<Event>)
    requires Sorted(events)
    ensures |Members(events)| == |events|
  {
    if events != [] {
      var front, last := events[..|events| - 1], events[|events| - 1];
      MembersCount(front);
      assert events == front + [last] && last !in front;
      assert Members(events) == Members(front) + {last};
    }
  }

  lemma SubsetCount(a: set<Event>, b: set<Event>)
    requires a <= b
    ensures |a| <= |b|
  {
    assert b == a + (b - a);
  }

  /** An event is crowded out of the newest of a set exactly when enough events of the set are newer. */
  lemma CrowdedIffAbove(events: seq<Event>, all: set<Event>, limit: nat, e: Event)
    requires IsNewest(events, all, limit)
    ensures Crowded(events, limit, e) <==> |Above(all, e)| >= limit
  {
    MembersCount(events);
    if Crowded(events, limit, e) {
      assert Members(events) <= Above(all, e);
      SubsetCount(Members(events), Above(all, e));
    } else {
      FewAbove(events, all, limit, e);
    }
  }

  lemma FewAbove(events: seq<Event>, all: set<Event>, limit: nat, e: Event)
    requires IsNewest(events, all, limit) && !Crowded(events, limit, e) && |Members(events)| == |events|
    ensures |Above(all, e)| < limit
  {
    if |events| < limit {
      assert Above(all, e) <= Members(events);
      SubsetCount(Above(all, e), Members(events));
    } else {
      var i :| 0 <= i < |events| && !Newer(events[i], e);
      assert Above(all, e) <= Members(events) - {events[i]};
      SubsetCount(Above(all, e), Members(events) - {events[i]});
    }
  }

  // ----- uniqueness -----

  /** After a common prefix of length `i`, the next event of `y` is not among the first `i` of `x`. */
  lemma NextIsFresh(x: seq<Event>, y: seq<Event>, i: nat)
    requires Sorted(y) && i <= |x| && i < |y| && x[..i] == y[..i]
    ensures forall m :: 0 <= m < i ==> x[m] != y[i]
  {
    forall m | 0 <= m < i ensures x[m] != y[i] { assert x[m] == x[..i][m] == y[..i][m] == y[m]; }
  }

  /** Two lists of the newest events agree position by position. */
  lemma NextAgrees(x: seq<Event>, y: seq<Event>, all: set<Event>, limit: nat, i: nat)
    requires IsNewest(x, all, limit) && IsNewest(y, all, limit) && i < |x| && i < |y| && x[..i] == y[..i]
    ensures x[i] == y[i]
  {
    if x[i] != y[i] {
      NotNewer(x, y, all, limit, i);
      NotNewer(y, x, all, limit, i);
    }
  }

  /** The first event of `y` that differs is not newer than that of `x`. */
  lemma NotNewer(x: seq<Event>, y: seq<Event>, all: set<Event>, limit: nat, i: nat)
    requires IsNewest(x, all, limit) && IsNewest(y, all, limit) && i < |x| && i < |y| && x[..i] == y[..i] &&
             x[i] != y[i]
    ensures Newer(x[i], y[i])
  {
    NextIsFresh(x, y, i);
    assert y[i] in all;
    if y[i] in x {
      var m :| 0 <= m < |x| && x[m] == y[i];
      assert m > i;
    }
  }

  /** The shorter list cannot end early. */
  lemma SameLength(x: seq<Event>, y: seq<Event>, all: set<Event>, limit: nat)
    requires IsNewest(x, all, limit) && IsNewest(y, all, limit) && |x| <= |y| && x == y[..|x|]
    ensures x == y
  {
    FreshAfter(x, y);
  }

  lemma FreshAfter(x: seq<Event>, y: seq<Event>)
    requires Sorted(y) && |x| <= |y| && x == y[..|x|]
    ensures |x| < |y| ==> y[|x|] in y && y[|x|] !in x
  {
    assert x[..|x|] == x;
    if |x| < |y| { NextIsFresh(x, y, |x|); }
  }

  lemma {:induction false} PrefixAgrees(x: seq<Event>, y: seq<Event>, all: set<Event>, limit: nat, n: nat)
    requires IsNewest(x, all, limit) && IsNewest(y, all, limit) && n <= |x| && n <= |y|
    ensures x[..n] == y[..n]
  {
    if n > 0 {
      PrefixAgrees(x, y, all, limit, n - 1);
      NextAgrees(x, y, all, limit, n - 1);
      assert x[..n] == x[..n - 1] + [x[n - 1]] && y[..n] == y[..n - 1] + [y[n - 1]];
    }
  }

  /** A set has only one list of its newest events. */
  lemma NewestUnique(x: seq<Event>, y: seq<Event>, all: set<Event>, limit: nat)
    requires IsNewest(x, all, limit) && IsNewest(y, all, limit)
    ensures x == y
  {
    var n := if |x| <= |y| then |x| else |y|;
    PrefixAgrees(x, y, all, limit, n);
    assert x[..|x|] == x && y[..|y|] == y;
    if |x| <= |y| { SameLength(x, y, all, limit); } else { SameLength(y, x, all, limit); }
  }

  ghost predicate DistinctIds(events: seq<Event>) {
    forall i, j :: 0 <= i < j < |events| ==> events[i].id != events[j].id
  }

  lemma {:induction false} PlaceDistinct(events: seq<Event>, e: Event)
    requires DistinctIds(events) && !HasId(events, e.id)
    ensures DistinctIds(Place(events, e)) && forall id :: HasId(Place(events, e), id) <==>
            id == e.id || HasId(events, id)
  {
    if events == [] || Newer(e, events[0]) {
      HasHead(e, events);
    } else {
      var rest := events[1..];
      assert events == [events[0]] + rest;
      HasHead(events[0], rest);
      PlaceDistinct(rest, e);
      HasHead(events[0], Place(rest, e));
      assert !HasId(Place(rest, e), events[0].id);
    }
  }

  lemma HasHead(e: Event, events: seq<Event>)
    ensures forall id :: HasId([e] + events, id) <==> id == e.id || HasId(events, id)
  {
    forall id ensures HasId([e] + events, id) <==> id == e.id || HasId(events, id) {
      assert ([e] + events)[0] == e && forall i :: 0 <= i < |events| ==> ([e] + events)[i + 1] == events[i];
    }
  }

  lemma InsertKeepsDistinct(events: seq<Event>, e: Event, limit: nat)
    requires Sorted(events) && DistinctIds(events)
    ensures DistinctIds(InsertBounded(events, e, limit).0)
  {
    if !HasId(events, e.id) {
      SortAppend(events, e);
      PlaceDistinct(events, e);
    }
  }

  /** Insertion keeps a list sorted and bounded, whatever the event. */
  lemma InsertKeepsSorted(events: seq<Event>, e: Event, limit: nat)
    requires Sorted(events) && |events| <= limit
    ensures var r := InsertBounded(events, e, limit).0; Sorted(r) && |r| <= limit
  {
    if !HasId(events, e.id) {
      SortAppend(events, e);
      PlaceSorts(events, e);
    }
  }

  /** A new event leaves the list unchanged exactly when the list is full of newer events. */
  lemma InsertChangesNothing(events: seq<Event>, e: Event, limit: nat)
    requires Sorted(events) && |events| <= limit && !HasId(events, e.id)
    ensures InsertBounded(events, e, limit).0 == events <==> Crowded(events, limit, e)
  {
    SortAppend(events, e);
    PlaceSorts(events, e);
    if Crowded(events, limit, e) {
      PlaceLast(events, e);
      assert (events + [e])[..limit] == events;
    } else if |events| == limit {
      var placed := Place(events, e);
      InPrefix(placed, limit, e);
      var i :| 0 <= i < |events| && !Newer(events[i], e);
      NotLast(placed, limit, e, events[i]);
    }
  }

  lemma NotLast(placed: seq<Event>, limit: nat, e: Event, x: Event)
    requires Sorted(placed) && |placed| == limit + 1 && e in placed && x in placed && x != e && !Newer(x, e)
    ensures e in placed[..limit]
  {
    var i :| 0 <= i < |placed| && placed[i] == e;
    var j :| 0 <= j < |placed| && placed[j] == x;
    assert i < j;
    assert placed[..limit][i] == e;
  }

  /** The scan for the identifier, then push, sort and truncate. */
  method Insert(events: seq<Event>, e: Event, limit: nat) returns (r: seq<Event>, changed: bool)
    ensures (r, changed) == InsertBounded(events, e, limit)
  {
    for i := 0 to |events|
      invariant forall j :: 0 <= j < i ==> events[j].id != e.id
    {
      if events[i].id == e.id { return events, false; }
    }
    r := SortNewest(events + [e]);
    if |r| > limit { r := r[..limit]; }
    changed := true;
  }
}
