/**
 The tables behind the audiences: services and folders with their visibility,
 and four access tables of (owner, grantee) rows. `PageOf` reads them as a
 page; the lemmas say what each kind of statement does to that page.
 */
module AccessTables {
  import opened Prelude
  import opened Audiences

  datatype ServiceRow = ServiceRow(visibility: Visibility, folder: Option<int>, follows: bool, position: int)

  datatype FolderRow = FolderRow(visibility: Visibility, position: int)

  /** A row of an access table: a service or folder, and a group or member. */
  datatype Access = Access(owner: int, grantee: int)

  datatype Tables = Tables(
    users: map<int, User>,
    groups: set<int>,
    memberships: set<Membership>,
    services: map<int, ServiceRow>,
    folders: map<int, FolderRow>,
    serviceGroups: set<Access>,
    serviceMembers: set<Access>,
    folderGroups: set<Access>,
    folderMembers: set<Access>,
    next: NextIds)

  function GranteesOf(table: set<Access>, owner: int): set<int> {
    set a <- table | a.owner == owner :: a.grantee
  }

  function ServiceOf(t: Tables, s: int): Service
    requires s in t.services
  {
    ReadService(t.services[s], GranteesOf(t.serviceGroups, s), GranteesOf(t.serviceMembers, s))
  }

  function ReadService(row: ServiceRow, groups: set<int>, members: set<int>): Service {
    Service(Audience(row.visibility, groups, members), row.folder, row.follows, row.position)
  }

  function FolderOf(t: Tables, f: int): Folder
    requires f in t.folders
  {
    ReadFolder(t.folders[f], GranteesOf(t.folderGroups, f), GranteesOf(t.folderMembers, f))
  }

  function ReadFolder(row: FolderRow, groups: set<int>, members: set<int>): Folder {
    Folder(Audience(row.visibility, groups, members), row.position)
  }

  /** The tables read as a page. */
  function PageOf(t: Tables): Page {
    Page(t.users, t.groups, t.memberships,
         map s <- t.services :: ServiceOf(t, s),
         map f <- t.folders :: FolderOf(t, f),
         t.next)
  }

  /** No access row outlives its service or folder. */
  ghost predicate Owned(t: Tables) {
    && OwnedBy(t.serviceGroups, t.services.Keys) && OwnedBy(t.serviceMembers, t.services.Keys)
    && OwnedBy(t.folderGroups, t.folders.Keys) && OwnedBy(t.folderMembers, t.folders.Keys)
  }

  ghost predicate OwnedBy(table: set<Access>, owners: set<int>) {
    forall a <- table :: a.owner in owners
  }

  // ----- statements on one access table

  function DeleteOwners(table: set<Access>, owners: set<int>): set<Access> {
    set a <- table | a.owner !in owners
  }

  function DeleteGrantee(table: set<Access>, grantee: int): set<Access> {
    set a <- table | a.grantee != grantee
  }

  /** The rows giving one owner these grantees. */
  function AccessesOf(owner: int, grantees: set<int>): set<Access> {
    set x <- grantees :: Access(owner, x)
  }

  /** The rows opening these owners to one grantee. */
  function AccessesTo(owners: set<int>, grantee: int): set<Access> {
    set o <- owners :: Access(o, grantee)
  }

  /** The folder's rows once for each follower. */
  function CopiesFor(followers: set<int>, source: set<Access>, folder: int): set<Access> {
    set s <- followers, a <- source | a.owner == folder :: Access(s, a.grantee)
  }

  lemma GranteeIff(table: set<Access>, owner: int, x: int)
    ensures x in GranteesOf(table, owner) <==> Access(owner, x) in table
  {}

  lemma CopiedGrantees(table: set<Access>, followers: set<int>, source: set<Access>, folder: int, owner: int)
    ensures GranteesOf(DeleteOwners(table, followers) + CopiesFor(followers, source, folder), owner) ==
      if owner in followers then GranteesOf(source, folder) else GranteesOf(table, owner)
  {}

  lemma ReplacedGrantees(table: set<Access>, changed: int, grantees: set<int>, owner: int)
    ensures GranteesOf(DeleteOwners(table, {changed}) + AccessesOf(changed, grantees), owner) ==
      if owner == changed then grantees else GranteesOf(table, owner)
  {
    var after := DeleteOwners(table, {changed}) + AccessesOf(changed, grantees);
    forall x ensures x in GranteesOf(after, owner) <==>
      x in if owner == changed then grantees else GranteesOf(table, owner)
    {
      GranteeIff(after, owner, x);
      GranteeIff(table, owner, x);
    }
  }

  lemma GranteesWith(table: set<Access>, owners: set<int>, grantee: int, owner: int)
    ensures GranteesOf(table + AccessesTo(owners, grantee), owner) ==
      GranteesOf(table, owner) + if owner in owners then {grantee} else {}
  {
    forall x ensures x in GranteesOf(table + AccessesTo(owners, grantee), owner) <==>
      x in GranteesOf(table, owner) || (owner in owners && x == grantee)
    {
      GranteeIff(table + AccessesTo(owners, grantee), owner, x);
      GranteeIff(table, owner, x);
    }
  }

  lemma GranteesMinusOne(table: set<Access>, changed: int, grantee: int, owner: int)
    ensures GranteesOf(table - {Access(changed, grantee)}, owner) ==
      if owner == changed then GranteesOf(table, owner) - {grantee} else GranteesOf(table, owner)
  {}

  lemma GranteesWithout(table: set<Access>, grantee: int, owner: int)
    ensures GranteesOf(DeleteGrantee(table, grantee), owner) == GranteesOf(table, owner) - {grantee}
  {}

  lemma OtherGrantees(table: set<Access>, owners: set<int>, owner: int)
    requires owner !in owners
    ensures GranteesOf(DeleteOwners(table, owners), owner) == GranteesOf(table, owner)
  {}

  lemma NoGrantees(table: set<Access>, owners: set<int>, owner: int)
    requires OwnedBy(table, owners) && owner !in owners
    ensures GranteesOf(table, owner) == {}
  {}

  // ----- statements on the tables, and what they do to the page

  /** The services given the folder's visibility, groups and members. */
  function Recopied(t: Tables, folder: int, followers: set<int>): Tables
    requires folder in t.folders
  {
    t.(services := WithVisibility(t.services, followers, t.folders[folder].visibility),
       serviceGroups := DeleteOwners(t.serviceGroups, followers) + CopiesFor(followers, t.folderGroups, folder),
       serviceMembers := DeleteOwners(t.serviceMembers, followers) + CopiesFor(followers, t.folderMembers, folder))
  }

  function WithVisibility(services: map<int, ServiceRow>, changed: set<int>, visibility: Visibility): map<int, ServiceRow> {
    map s <- services :: if s in changed then services[s].(visibility := visibility) else services[s]
  }

  lemma RecopiedPage(t: Tables, folder: int, followers: set<int>)
    requires Owned(t) && folder in t.folders && followers <= t.services.Keys
    ensures var after := Recopied(t, folder, followers);
      && Owned(after)
      && PageOf(after) == PageOf(t).(services := map s <- PageOf(t).services ::
           if s in followers then PageOf(t).services[s].(audience := PageOf(t).folders[folder].audience)
           else PageOf(t).services[s])
  {
    hide GranteesOf;
    var after := Recopied(t, folder, followers);
    forall s <- t.services
      ensures ServiceOf(after, s) ==
        if s in followers then ServiceOf(t, s).(audience := FolderOf(t, folder).audience) else ServiceOf(t, s)
    {
      CopiedGrantees(t.serviceGroups, followers, t.folderGroups, folder, s);
      CopiedGrantees(t.serviceMembers, followers, t.folderMembers, folder, s);
    }
  }

  function RegrantedService(t: Tables, service: int, groups: set<int>, members: set<int>): Tables {
    t.(serviceGroups := DeleteOwners(t.serviceGroups, {service}) + AccessesOf(service, groups),
       serviceMembers := DeleteOwners(t.serviceMembers, {service}) + AccessesOf(service, members))
  }

  lemma RegrantedServicePage(t: Tables, service: int, groups: set<int>, members: set<int>)
    requires Owned(t) && service in t.services
    ensures var after := RegrantedService(t, service, groups, members);
      && Owned(after)
      && PageOf(after) == PageOf(t).(services :=
           PageOf(t).services[service := ReadService(t.services[service], groups, members)])
  {
    hide GranteesOf;
    var after := RegrantedService(t, service, groups, members);
    forall s <- t.services
      ensures ServiceOf(after, s) ==
        if s == service then ReadService(t.services[s], groups, members) else ServiceOf(t, s)
    {
      ReplacedGrantees(t.serviceGroups, service, groups, s);
      ReplacedGrantees(t.serviceMembers, service, members, s);
    }
  }

  function RegrantedFolder(t: Tables, folder: int, groups: set<int>, members: set<int>): Tables {
    t.(folderGroups := DeleteOwners(t.folderGroups, {folder}) + AccessesOf(folder, groups),
       folderMembers := DeleteOwners(t.folderMembers, {folder}) + AccessesOf(folder, members))
  }

  lemma RegrantedFolderPage(t: Tables, folder: int, groups: set<int>, members: set<int>)
    requires Owned(t) && folder in t.folders
    ensures var after := RegrantedFolder(t, folder, groups, members);
      && Owned(after)
      && PageOf(after) == PageOf(t).(folders :=
           PageOf(t).folders[folder := ReadFolder(t.folders[folder], groups, members)])
  {
    hide GranteesOf;
    var after := RegrantedFolder(t, folder, groups, members);
    forall f <- t.folders
      ensures FolderOf(after, f) ==
        if f == folder then ReadFolder(t.folders[f], groups, members) else FolderOf(t, f)
    {
      ReplacedGrantees(t.folderGroups, folder, groups, f);
      ReplacedGrantees(t.folderMembers, folder, members, f);
    }
  }

  lemma InsertedServicePage(t: Tables, id: int, row: ServiceRow)
    requires Owned(t) && id !in t.services
    ensures var after := t.(services := t.services[id := row]);
      && Owned(after)
      && PageOf(after) == PageOf(t).(services := PageOf(t).services[id := ReadService(row, {}, {})])
  {
    NoGrantees(t.serviceGroups, t.services.Keys, id);
    NoGrantees(t.serviceMembers, t.services.Keys, id);
    hide GranteesOf;
    var after := t.(services := t.services[id := row]);
    assert forall s <- t.services :: ServiceOf(after, s) == ServiceOf(t, s);
  }

  lemma InsertedFolderPage(t: Tables, id: int, row: FolderRow)
    requires Owned(t) && id !in t.folders
    ensures var after := t.(folders := t.folders[id := row]);
      && Owned(after)
      && PageOf(after) == PageOf(t).(folders := PageOf(t).folders[id := ReadFolder(row, {}, {})])
  {
    NoGrantees(t.folderGroups, t.folders.Keys, id);
    NoGrantees(t.folderMembers, t.folders.Keys, id);
    hide GranteesOf;
    var after := t.(folders := t.folders[id := row]);
    assert forall f <- t.folders :: FolderOf(after, f) == FolderOf(t, f);
  }

  /** Rows rewritten in place keep their accesses. */
  lemma UpdatedServicesPage(t: Tables, rows: map<int, ServiceRow>)
    requires Owned(t) && rows.Keys == t.services.Keys
    ensures var after := t.(services := rows);
      && Owned(after)
      && PageOf(after) == PageOf(t).(services := map s <- PageOf(t).services ::
           ReadService(rows[s], PageOf(t).services[s].audience.groups, PageOf(t).services[s].audience.members))
  {}

  lemma UpdatedServicePage(t: Tables, service: int, row: ServiceRow)
    requires Owned(t) && service in t.services
    ensures var after := t.(services := t.services[service := row]);
      var was := PageOf(t).services[service];
      && Owned(after)
      && was == ServiceOf(t, service)
      && PageOf(after) == PageOf(t).(services := PageOf(t).services[service :=
           ReadService(row, was.audience.groups, was.audience.members)])
  {}

  lemma UpdatedFolderPage(t: Tables, folder: int, row: FolderRow)
    requires Owned(t) && folder in t.folders
    ensures var after := t.(folders := t.folders[folder := row]);
      var was := PageOf(t).folders[folder];
      && Owned(after)
      && was == FolderOf(t, folder)
      && PageOf(after) == PageOf(t).(folders := PageOf(t).folders[folder :=
           ReadFolder(row, was.audience.groups, was.audience.members)])
  {}

  lemma FoldersOfPage(t: Tables)
    ensures PageOf(t).folders.Keys == t.folders.Keys
    ensures forall f <- t.folders :: PageOf(t).folders[f] == FolderOf(t, f)
  {}

  lemma ServicesOfPage(t: Tables)
    ensures PageOf(t).services.Keys == t.services.Keys
    ensures forall s <- t.services :: PageOf(t).services[s] == ServiceOf(t, s)
  {}

  lemma UpdatedFoldersPage(t: Tables, rows: map<int, FolderRow>)
    requires Owned(t) && rows.Keys == t.folders.Keys
    ensures var after := t.(folders := rows);
      && Owned(after)
      && PageOf(after) == PageOf(t).(folders := map f <- PageOf(t).folders ::
           ReadFolder(rows[f], PageOf(t).folders[f].audience.groups, PageOf(t).folders[f].audience.members))
  {}

  function WithoutFolder(t: Tables, folder: int): Tables {
    t.(folders := t.folders - {folder},
       folderGroups := DeleteOwners(t.folderGroups, {folder}),
       folderMembers := DeleteOwners(t.folderMembers, {folder}))
  }

  lemma WithoutFolderPage(t: Tables, folder: int)
    requires Owned(t)
    ensures var after := WithoutFolder(t, folder);
      && Owned(after)
      && PageOf(after) == PageOf(t).(folders := PageOf(t).folders - {folder})
  {
    var after := WithoutFolder(t, folder);
    forall f <- after.folders ensures FolderOf(after, f) == FolderOf(t, f) {
      OtherGrantees(t.folderGroups, {folder}, f);
      OtherGrantees(t.folderMembers, {folder}, f);
    }
  }

  function WithoutService(t: Tables, service: int): Tables {
    t.(services := t.services - {service},
       serviceGroups := DeleteOwners(t.serviceGroups, {service}),
       serviceMembers := DeleteOwners(t.serviceMembers, {service}))
  }

  lemma WithoutServicePage(t: Tables, service: int)
    requires Owned(t)
    ensures var after := WithoutService(t, service);
      && Owned(after)
      && PageOf(after) == PageOf(t).(services := PageOf(t).services - {service})
  {
    hide GranteesOf;
    var after := WithoutService(t, service);
    forall s <- after.services ensures ServiceOf(after, s) == ServiceOf(t, s) {
      OtherGrantees(t.serviceGroups, {service}, s);
      OtherGrantees(t.serviceMembers, {service}, s);
    }
  }

  function WithoutGroupRows(t: Tables, group: int): Tables {
    t.(groups := t.groups - {group},
       memberships := (set m <- t.memberships | m.group != group),
       serviceGroups := DeleteGrantee(t.serviceGroups, group),
       folderGroups := DeleteGrantee(t.folderGroups, group))
  }

  lemma WithoutGroupPage(t: Tables, group: int)
    requires Owned(t)
    ensures var after := WithoutGroupRows(t, group);
      && Owned(after)
      && PageOf(after) == DeleteGroup(PageOf(t), group).0
  {
    var after := WithoutGroupRows(t, group);
    forall s <- t.services
      ensures ServiceOf(after, s) == ServiceOf(t, s).(audience := WithoutGroup(ServiceOf(t, s).audience, group))
    {
      GranteesWithout(t.serviceGroups, group, s);
    }
    forall f <- t.folders
      ensures FolderOf(after, f) == FolderOf(t, f).(audience := WithoutGroup(FolderOf(t, f).audience, group))
    {
      GranteesWithout(t.folderGroups, group, f);
    }
  }

  /** Services and folders opened to a group by new rows. */
  function OpenedRows(t: Tables, group: int, services: set<int>, folders: set<int>): Tables {
    t.(serviceGroups := t.serviceGroups + AccessesTo(services, group),
       folderGroups := t.folderGroups + AccessesTo(folders, group))
  }

  lemma OpenedRowsPage(t: Tables, group: int, services: set<int>, folders: set<int>)
    requires Owned(t) && services <= t.services.Keys && folders <= t.folders.Keys
    ensures var after := OpenedRows(t, group, services, folders);
      && Owned(after)
      && PageOf(after) == PageOf(t).(
           services := map s <- PageOf(t).services ::
             if s in services
             then PageOf(t).services[s].(audience := WithGroup(PageOf(t).services[s].audience, group))
             else PageOf(t).services[s],
           folders := map f <- PageOf(t).folders ::
             if f in folders
             then PageOf(t).folders[f].(audience := WithGroup(PageOf(t).folders[f].audience, group))
             else PageOf(t).folders[f])
  {
    hide GranteesOf;
    var after := OpenedRows(t, group, services, folders);
    forall s <- t.services
      ensures ServiceOf(after, s) ==
        if s in services then ServiceOf(t, s).(audience := WithGroup(ServiceOf(t, s).audience, group))
        else ServiceOf(t, s)
    {
      GranteesWith(t.serviceGroups, services, group, s);
    }
    forall f <- t.folders
      ensures FolderOf(after, f) ==
        if f in folders then FolderOf(t, f).(audience := WithGroup(FolderOf(t, f).audience, group))
        else FolderOf(t, f)
    {
      GranteesWith(t.folderGroups, folders, group, f);
    }
  }

  lemma ClosedServicePage(t: Tables, group: int, service: int)
    requires Owned(t) && service in t.services
    ensures var after := t.(serviceGroups := t.serviceGroups - {Access(service, group)});
      && Owned(after)
      && PageOf(after) == PageOf(t).(services := PageOf(t).services[service :=
           PageOf(t).services[service].(audience := WithoutGroup(PageOf(t).services[service].audience, group))])
  {
    var after := t.(serviceGroups := t.serviceGroups - {Access(service, group)});
    forall s <- t.services
      ensures ServiceOf(after, s) ==
        if s == service then ServiceOf(t, s).(audience := WithoutGroup(ServiceOf(t, s).audience, group))
        else ServiceOf(t, s)
    {
      GranteesMinusOne(t.serviceGroups, service, group, s);
    }
  }

  lemma ClosedFolderPage(t: Tables, group: int, folder: int)
    requires Owned(t) && folder in t.folders
    ensures var after := t.(folderGroups := t.folderGroups - {Access(folder, group)});
      && Owned(after)
      && PageOf(after) == PageOf(t).(folders := PageOf(t).folders[folder :=
           PageOf(t).folders[folder].(audience := WithoutGroup(PageOf(t).folders[folder].audience, group))])
  {
    var after := t.(folderGroups := t.folderGroups - {Access(folder, group)});
    forall f <- t.folders
      ensures FolderOf(after, f) ==
        if f == folder then FolderOf(t, f).(audience := WithoutGroup(FolderOf(t, f).audience, group))
        else FolderOf(t, f)
    {
      GranteesMinusOne(t.folderGroups, folder, group, f);
    }
  }
}
