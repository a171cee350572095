/** What the client holds and shows after any inputs, without reference to how it is computed. */
module ClientFields {
  import opened ByteStrings
  import opened EventStore
  import opened ClientSnapshot
  import opened Client
  import opened ClientRuns

  /** Created later, or at the same time with the smaller identifier. */
  ghost predicate Later(a: Event, b: Event) { a.createdAt > b.createdAt || (a.createdAt == b.createdAt && a.id < b.id) }

  /** Latest first, no identifier twice, at most `limit`. */
  ghost predicate IsOrdered(events: seq<Event>, limit: nat) {
    |events| <= limit && forall i, j :: 0 <= i < j < |events| ==>
      Later(events[i], events[j]) && events[i].id != events[j].id
  }

  /** After any inputs both event lists are in that order. */
  lemma ListsAreOrdered(config: Config, inputs: seq<Input>)
    requires config.Valid()
    ensures var v := Run(config, Initial(), inputs);
            IsOrdered(v.pending, config.maxEvents) && IsOrdered(v.committed, config.maxEvents)
  {
    RunInvariant(config, inputs);
  }

  // ----- the snapshot -----

  ghost predicate IsOrganization(config: Config, e: Event) {
    e.parsed.Organization? && e.parsed.distinct == config.organizationRef
  }

  ghost predicate IsProject(config: Config, e: Event) { e.parsed.Project? && e.parsed.distinct == config.projectRef }

  ghost predicate IsStatus(address: string, e: Event) { e.parsed.ProjectStatus? && e.parsed.address == address }

  ghost predicate IsUpdate(config: Config, e: Event) {
    e.parsed.ProjectUpdate? && e.parsed.subject == config.projectRef
  }

  /** Published later; of those published together the higher revision; of equal revisions the later event. */
  ghost predicate Supersedes(a: Event, b: Event)
    requires a.parsed.ProjectUpdate? && b.parsed.ProjectUpdate?
  {
    || a.parsed.publishedAt > b.parsed.publishedAt
    || (a.parsed.publishedAt == b.parsed.publishedAt && a.parsed.revision > b.parsed.revision)
    || (a.parsed.publishedAt == b.parsed.publishedAt && a.parsed.revision == b.parsed.revision && Later(a, b))
  }

  ghost predicate Active(e: Event) { e.references && (e.parsed.ProjectUpdate? || e.parsed.Unparsed?) }

  ghost predicate PicturesOrganization(config: Config, events: seq<Event>, shown: Option<Parsed>) {
    && (shown.None? ==> forall e :: e in events ==> !IsOrganization(config, e))
    && (shown.Some? ==>
          exists e :: e in events && IsOrganization(config, e) && e.parsed == shown.value
                      && forall x :: x in events && IsOrganization(config, x) ==> !Later(x, e))
  }

  ghost predicate PicturesProject(config: Config, events: seq<Event>, shown: Option<Parsed>) {
    && (shown.None? ==> forall e :: e in events ==> !IsProject(config, e))
    && (shown.Some? ==>
          exists e :: e in events && IsProject(config, e) && e.parsed == shown.value
                      && forall x :: x in events && IsProject(config, x) ==> !Later(x, e))
  }

  ghost predicate PicturesUpdate(config: Config, events: seq<Event>, shown: Option<Parsed>) {
    && (shown.None? ==> forall e :: e in events ==> !IsUpdate(config, e))
    && (shown.Some? ==>
          exists e :: e in events && IsUpdate(config, e) && e.parsed == shown.value
                      && forall x :: x in events && IsUpdate(config, x) ==> !Supersedes(x, e))
  }

  ghost predicate PicturesLast(events: seq<Event>, at: Option<nat>) {
    && (events == [] ==> at == None)
    && (events != [] ==> at.Some? && (exists e :: e in events && e.createdAt == at.value)
                         && forall e :: e in events ==> e.createdAt <= at.value)
  }

  /** The snapshot of some events: the latest organization and project, the latest status at the address the project
      gives, the update nothing supersedes, the latest activity, the time of the EOSE and of the last event. */
  ghost predicate Pictures(config: Config, events: seq<Event>, eoseAt: nat, s: Snapshot) {
    && PicturesOrganization(config, events, s.organization) && PicturesProject(config, events, s.project)
    && (if s.project.None? then s.status == None
        else s.project.value.Project? && PicturesStatus(events, s.project.value.statusAddress, s.status))
    && PicturesUpdate(config, events, s.latestUpdate)
    && PicturesActivity(events, config.maxActivity, s.recentActivity)
    && s.eoseAt == eoseAt && PicturesLast(events, s.lastEventAt)
  }

  ghost predicate PicturesStatus(events: seq<Event>, address: string, status: Option<Parsed>) {
    && (status.None? ==> forall e :: e in events ==> !IsStatus(address, e))
    && (status.Some? ==>
          exists e :: e in events && IsStatus(address, e) && e.parsed == status.value
                      && forall x :: x in events && IsStatus(address, x) ==> !Later(x, e))
  }

  /** The latest active events, at most `limit`: whatever is missing is later than none of a full list. */
  ghost predicate PicturesActivity(events: seq<Event>, limit: nat, recent: seq<Event>) {
    && |recent| <= limit && (forall i, j :: 0 <= i < j < |recent| ==> Later(recent[i], recent[j]))
    && (forall e :: e in recent ==> e in events && Active(e))
    && (forall e :: e in events && Active(e) && e !in recent ==>
          |recent| == limit && forall i :: 0 <= i < limit ==> Later(recent[i], e))
  }

  lemma OrganizationIs(config: Config, e: Event)
    ensures Organizations(config)(e) <==> IsOrganization(config, e)
  {
  }

  lemma BestOrganization(config: Config, events: seq<Event>, e: Event)
    requires IsBest(e, events, Organizations(config), Newer)
    ensures e in events && IsOrganization(config, e)
    ensures forall x :: x in events && IsOrganization(config, x) ==> !Later(x, e)
  {
    OrganizationIs(config, e);
    forall x | x in events && IsOrganization(config, x) ensures !Later(x, e) { OrganizationIs(config, x); }
  }

  lemma OrganizationShown(config: Config, events: seq<Event>, shown: Option<Parsed>)
    requires Shows(shown, events, Organizations(config), Newer)
    ensures PicturesOrganization(config, events, shown)
  {
    if shown.Some? {
      var e :| IsBest(e, events, Organizations(config), Newer) && e.parsed == shown.value;
      BestOrganization(config, events, e);
    } else {
      forall e | e in events ensures !IsOrganization(config, e) { OrganizationIs(config, e); }
    }
  }

  lemma ProjectShown(config: Config, events: seq<Event>, shown: Option<Parsed>)
    requires Shows(shown, events, Projects(config), Newer)
    ensures PicturesProject(config, events, shown)
  {
    if shown.Some? {
      var e :| IsBest(e, events, Projects(config), Newer) && e.parsed == shown.value;
      forall x | x in events && IsProject(config, x) ensures !Later(x, e) { assert Projects(config)(x); }
    } else {
      forall e | e in events ensures !IsProject(config, e) { assert !Projects(config)(e); }
    }
  }

  lemma StatusShown(events: seq<Event>, address: string, shown: Option<Parsed>)
    requires Shows(shown, events, Statuses(address), Newer)
    ensures PicturesStatus(events, address, shown)
  {
    if shown.Some? {
      var e :| IsBest(e, events, Statuses(address), Newer) && e.parsed == shown.value;
      forall x | x in events && IsStatus(address, x) ensures !Later(x, e) { assert Statuses(address)(x); }
    } else {
      forall e | e in events ensures !IsStatus(address, e) { assert !Statuses(address)(e); }
    }
  }

  lemma UpdateShown(config: Config, events: seq<Event>, shown: Option<Parsed>)
    requires Shows(shown, events, Updates(config), BetterUpdate)
    ensures PicturesUpdate(config, events, shown)
  {
    if shown.Some? {
      var e :| IsBest(e, events, Updates(config), BetterUpdate) && e.parsed == shown.value;
      forall x | x in events && IsUpdate(config, x) ensures !Supersedes(x, e) { assert Updates(config)(x); }
    } else {
      forall e | e in events ensures !IsUpdate(config, e) { assert !Updates(config)(e); }
    }
  }

  lemma ActivityShown(events: seq<Event>, limit: nat, recent: seq<Event>)
    requires IsNewest(recent, Activities(events), limit)
    ensures PicturesActivity(events, limit, recent)
  {
    forall e | e in events && Active(e) && e !in recent
      ensures |recent| == limit && forall i :: 0 <= i < limit ==> Later(recent[i], e)
    {
      assert e in Activities(events);
    }
  }

  /** The computed snapshot of a sorted list is that picture of it. */
  lemma BuildPictures(config: Config, events: seq<Event>, eoseAt: nat)
    requires Sorted(events)
    ensures Pictures(config, events, eoseAt, Build(config, events, eoseAt))
  {
    var s := Build(config, events, eoseAt);
    BuildShows(config, events, eoseAt);
    OrganizationShown(config, events, s.organization);
    ProjectShown(config, events, s.project);
    if s.project.Some? { StatusShown(events, s.project.value.statusAddress, s.status); }
    UpdateShown(config, events, s.latestUpdate);
    ActivityShown(events, config.maxActivity, s.recentActivity);
    if events != [] { LastIsFirst(events); }
  }

  lemma LastIsFirst(events: seq<Event>)
    requires Sorted(events) && events != []
    ensures events[0] in events && forall e :: e in events ==> e.createdAt <= events[0].createdAt
  {
    forall e | e in events ensures e.createdAt <= events[0].createdAt {
      var i :| 0 <= i < |events| && events[i] == e;
      if i > 0 { assert Newer(events[0], events[i]); }
    }
  }

  /** After any inputs the snapshot, if there is one, is the picture of the committed events at the last EOSE. */
  lemma SnapshotPictures(config: Config, inputs: seq<Input>)
    requires config.Valid()
    ensures var v := Run(config, Initial(), inputs);
            match LastEose(config, inputs)
            case None => v.snapshot == None
            case Some(t) => v.snapshot.Some? && Pictures(config, v.committed, t, v.snapshot.value)
  {
    RunInvariant(config, inputs);
    var v := Run(config, Initial(), inputs);
    if LastEose(config, inputs).Some? { BuildPictures(config, v.committed, LastEose(config, inputs).value); }
  }
}
