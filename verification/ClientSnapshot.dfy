/** The project snapshot computed from the committed events. */
module ClientSnapshot {
  import opened ByteStrings
  import opened EventStore

  datatype Config = Config(
    organizationRef: string, projectRef: string, subscriptionId: string, maxEvents: nat, maxActivity: nat)
  {
    predicate Valid() { 1 <= maxEvents <= 1024 && 0 < maxActivity <= maxEvents }
  }

  datatype Snapshot = Snapshot(
    organization: Option<Parsed>, project: Option<Parsed>, status: Option<Parsed>, latestUpdate: Option<Parsed>,
    recentActivity: seq<Event>, eoseAt: nat, lastEventAt: Option<nat>)

  // ----- selections -----

  /** The first event that no later matching event is better than. */
  function Select(events: seq<Event>, want: Event -> bool, better: (Event, Event) -> bool): Option<Event> {
    if events == [] then None
    else
      var n := |events| - 1;
      var best := Select(events[..n], want, better);
      if want(events[n]) && (best.None? || better(events[n], best.value)) then Some(events[n]) else best
  }

  /** On the wanted events, `better` is a strict order whose ties are transitive. */
  ghost predicate Order(want: Event -> bool, better: (Event, Event) -> bool) {
    && (forall a, b :: want(a) && want(b) && better(a, b) ==> !better(b, a))
    && (forall a, b, c {:trigger better(a, b), better(b, c)} ::
          want(a) && want(b) && want(c) && !better(a, b) && !better(b, c) ==> !better(a, c))
  }

  /** A matching event that no matching event is better than. */
  ghost predicate IsBest(e: Event, events: seq<Event>, want: Event -> bool, better: (Event, Event) -> bool) {
    e in events && want(e) && forall x :: x in events && want(x) ==> !better(x, e)
  }

  ghost predicate Selected(r: Option<Event>, events: seq<Event>, want: Event -> bool, better: (Event, Event) -> bool) {
    match r
    case Some(e) => IsBest(e, events, want, better)
    case None => forall x :: x in events ==> !want(x)
  }

  lemma {:induction false} SelectsBest(events: seq<Event>, want: Event -> bool, better: (Event, Event) -> bool)
    requires Order(want, better)
    ensures Selected(Select(events, want, better), events, want, better)
  {
    if events != [] {
      var n := |events| - 1;
      SelectsBest(events[..n], want, better);
      assert forall x :: x in events <==> x in events[..n] || x == events[n];
    }
  }

  /** Later publication first, then higher revision, then the newer event. */
  predicate BetterUpdate(a: Event, b: Event) {
    a.parsed.ProjectUpdate? && b.parsed.ProjectUpdate? &&
    (a.parsed.publishedAt > b.parsed.publishedAt ||
     (a.parsed.publishedAt == b.parsed.publishedAt &&
      (a.parsed.revision > b.parsed.revision || (a.parsed.revision == b.parsed.revision && Newer(a, b)))))
  }

  function Organizations(config: Config): Event -> bool {
    (e: Event) => e.parsed.Organization? && e.parsed.distinct == config.organizationRef
  }

  function Projects(config: Config): Event -> bool {
    (e: Event) => e.parsed.Project? && e.parsed.distinct == config.projectRef
  }

  function Statuses(address: string): Event -> bool {
    (e: Event) => e.parsed.ProjectStatus? && e.parsed.address == address
  }

  function Updates(config: Config): Event -> bool {
    (e: Event) => e.parsed.ProjectUpdate? && e.parsed.subject == config.projectRef
  }

  predicate IsActivity(e: Event) { e.references && (e.parsed.ProjectUpdate? || e.parsed.Unparsed?) }

  function ParsedOf(e: Option<Event>): Option<Parsed> { match e case None => None case Some(x) => Some(x.parsed) }

  function Filter(events: seq<Event>, want: Event -> bool): seq<Event> {
    if events == [] then []
    else
      var n := |events| - 1;
      Filter(events[..n], want) + if want(events[n]) then [events[n]] else []
  }

  function Latest(events: seq<Event>): Option<nat> {
    if events == [] then None
    else
      var n := |events| - 1;
      match Latest(events[..n])
      case None => Some(events[n].createdAt)
      case Some(t) => Some(if events[n].createdAt > t then events[n].createdAt else t)
  }

  function RecentActivity(events: seq<Event>, limit: nat): seq<Event> {
    var sorted := SortNewest(Filter(events, IsActivity));
    if |sorted| > limit then sorted[..limit] else sorted
  }

  function SelectOrganization(config: Config, events: seq<Event>): Option<Event> {
    Select(events, Organizations(config), Newer)
  }

  function SelectProject(config: Config, events: seq<Event>): Option<Event> { Select(events, Projects(config), Newer) }

  /** The status event the selected project points to. */
  function SelectStatus(config: Config, events: seq<Event>): Option<Event> {
    match SelectProject(config, events)
    case None => None
    case Some(p) => if p.parsed.Project? then Select(events, Statuses(p.parsed.statusAddress), Newer) else None
  }

  function SelectUpdate(config: Config, events: seq<Event>): Option<Event> {
    Select(events, Updates(config), BetterUpdate)
  }

  function Build(config: Config, events: seq<Event>, eoseAt: nat): Snapshot {
    Snapshot(
      ParsedOf(SelectOrganization(config, events)), ParsedOf(SelectProject(config, events)),
      ParsedOf(SelectStatus(config, events)), ParsedOf(SelectUpdate(config, events)),
      RecentActivity(events, config.maxActivity), eoseAt, Latest(events))
  }

  // ----- what a snapshot shows -----

  lemma Orders(config: Config, want: Event -> bool)
    ensures Order(want, Newer) && Order(Updates(config), BetterUpdate)
  {
  }

  lemma {:induction false} FilterIn(events: seq<Event>, want: Event -> bool)
    ensures forall x :: x in Filter(events, want) <==> x in events && want(x)
  {
    if events != [] {
      var n := |events| - 1;
      FilterIn(events[..n], want);
      assert forall x :: x in events <==> x in events[..n] || x == events[n];
    }
  }

  lemma {:induction false} FilterSorted(events: seq<Event>, want: Event -> bool)
    requires Sorted(events)
    ensures Sorted(Filter(events, want))
  {
    if events != [] {
      var n := |events| - 1;
      FilterSorted(events[..n], want);
      FilterIn(events[..n], want);
      forall x | x in Filter(events[..n], want) ensures Newer(x, events[n]) {
        var k :| 0 <= k < n && events[k] == x;
      }
    }
  }

  ghost function Activities(events: seq<Event>): set<Event> { set e | e in events && IsActivity(e) }

  /** The recent activity is the newest part of the activity among the committed events. */
  lemma RecentIsNewest(events: seq<Event>, limit: nat)
    requires Sorted(events)
    ensures IsNewest(RecentActivity(events, limit), Activities(events), limit)
  {
    var all := Filter(events, IsActivity);
    FilterSorted(events, IsActivity);
    FilterIn(events, IsActivity);
    SortedStays(all);
    PrefixIsNewest(all, Activities(events), limit);
  }

  lemma PrefixIsNewest(events: seq<Event>, all: set<Event>, limit: nat)
    requires Sorted(events) && forall x :: x in events <==> x in all
    ensures IsNewest(if |events| > limit then events[..limit] else events, all, limit)
  {
    if |events| > limit {
      forall e | e in all ensures e in events[..limit] || Crowded(events[..limit], limit, e) {
        var i :| 0 <= i < |events| && events[i] == e;
        if i < limit { assert events[..limit][i] == e; }
      }
    }
  }

  lemma {:induction false} LatestIsFirst(events: seq<Event>)
    requires Sorted(events)
    ensures Latest(events) == if events == [] then None else Some(events[0].createdAt)
  {
    if |events| > 1 {
      var n := |events| - 1;
      LatestIsFirst(events[..n]);
      assert Newer(events[0], events[n]);
    }
  }

  /** Organization, project, its status and the latest update are each the best of their kind. */
  lemma BuildSelects(config: Config, events: seq<Event>)
    ensures Selected(SelectOrganization(config, events), events, Organizations(config), Newer)
    ensures Selected(SelectProject(config, events), events, Projects(config), Newer)
    ensures SelectProject(config, events).Some? ==>
              var p := SelectProject(config, events).value.parsed;
              p.Project? && Selected(SelectStatus(config, events), events, Statuses(p.statusAddress), Newer)
    ensures Selected(SelectUpdate(config, events), events, Updates(config), BetterUpdate)
  {
    Orders(config, Organizations(config));
    SelectsBest(events, Organizations(config), Newer);
    Orders(config, Projects(config));
    SelectsBest(events, Projects(config), Newer);
    SelectsBest(events, Updates(config), BetterUpdate);
    if SelectProject(config, events).Some? {
      var p := SelectProject(config, events).value.parsed;
      Orders(config, Statuses(p.statusAddress));
      SelectsBest(events, Statuses(p.statusAddress), Newer);
    }
  }

  /** What a snapshot field shows is carried by a best matching event, and it is empty only when nothing matches. */
  ghost predicate Shows(p: Option<Parsed>, events: seq<Event>, want: Event -> bool, better: (Event, Event) -> bool) {
    match p
    case Some(x) => exists e :: IsBest(e, events, want, better) && e.parsed == x
    case None => forall e :: e in events ==> !want(e)
  }

  lemma SelectedShows(r: Option<Event>, events: seq<Event>, want: Event -> bool, better: (Event, Event) -> bool)
    requires Selected(r, events, want, better)
    ensures Shows(ParsedOf(r), events, want, better)
  {
  }

  /** Every field of the snapshot of a sorted event list, field by field. */
  lemma BuildShows(config: Config, events: seq<Event>, eoseAt: nat)
    requires Sorted(events)
    ensures var s := Build(config, events, eoseAt);
            && Shows(s.organization, events, Organizations(config), Newer)
            && Shows(s.project, events, Projects(config), Newer)
            && Shows(s.latestUpdate, events, Updates(config), BetterUpdate)
            && (if s.project.Some? then s.project.value.Project? &&
                  Shows(s.status, events, Statuses(s.project.value.statusAddress), Newer) else s.status == None)
            && IsNewest(s.recentActivity, Activities(events), config.maxActivity)
            && s.eoseAt == eoseAt && s.lastEventAt == if events == [] then None else Some(events[0].createdAt)
  {
    BuildSelects(config, events);
    SelectedShows(SelectOrganization(config, events), events, Organizations(config), Newer);
    SelectedShows(SelectProject(config, events), events, Projects(config), Newer);
    SelectedShows(SelectUpdate(config, events), events, Updates(config), BetterUpdate);
    if SelectProject(config, events).Some? {
      var p := SelectProject(config, events).value.parsed;
      SelectedShows(SelectStatus(config, events), events, Statuses(p.statusAddress), Newer);
    }
    RecentIsNewest(events, config.maxActivity);
    LatestIsFirst(events);
  }
}
