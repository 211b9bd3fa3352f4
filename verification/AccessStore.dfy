/**
 The repositories that write who sees what. Each method runs the statements of
 its transaction on the tables, and its contract says what they come to on the
 page; every method keeps each follower in step with its folder.
 */
module AccessStore {
  import opened Prelude
  import opened Audiences
  import opened AudienceLaws
  import opened AccessTables

  class Store {
    var users: map<int, User>
    var groups: set<int>
    var memberships: set<Membership>
    var services: map<int, ServiceRow>
    var folders: map<int, FolderRow>
    var serviceGroups: set<Access>
    var serviceMembers: set<Access>
    var folderGroups: set<Access>
    var folderMembers: set<Access>
    var next: NextIds

    function Rows(): Tables
      reads this
    {
      Tables(users, groups, memberships, services, folders,
             serviceGroups, serviceMembers, folderGroups, folderMembers, next)
    }

    ghost function View(): Page
      reads this
    {
      PageOf(Rows())
    }

    ghost predicate Valid()
      reads this
    {
      Owned(Rows()) && Sound(View())
    }

    constructor ()
      ensures Valid() && View() == EMPTY
    {
      users, groups, memberships := map[], {}, {};
      services, folders := map[], map[];
      serviceGroups, serviceMembers, folderGroups, folderMembers := {}, {}, {}, {};
      next := NextIds(1, 1, 1, 1);
    }

    // ----- shared statements

    /** Copies the folder's setting to its followers, or to one service only:
        the visibility, then the groups and the members, old rows first. */
    method CopySetting(folder: int, only: Option<int>)
      requires Owned(Rows()) && folder in folders
      modifies this`services, this`serviceGroups, this`serviceMembers
      ensures Owned(Rows())
      ensures View() == CopiedPage(old(View()), folder, only)
    {
      hide PageOf, Owned;
      var followers := FollowersOf(services, folder, only);
      CopiedToFollowers(Rows(), folder, only);
      services := WithVisibility(services, followers, folders[folder].visibility);
      serviceGroups := DeleteOwners(serviceGroups, followers);
      serviceGroups := serviceGroups + CopiesFor(followers, folderGroups, folder);
      serviceMembers := DeleteOwners(serviceMembers, followers);
      serviceMembers := serviceMembers + CopiesFor(followers, folderMembers, folder);
      assert Rows() == Recopied(old(Rows()), folder, followers);
    }

    /** Replaces who a service is opened to. */
    method ReplaceServiceGrants(service: int, visibility: Visibility, grants: Grants)
      requires Owned(Rows()) && service in services && services[service].visibility == visibility
      modifies this`serviceGroups, this`serviceMembers
      ensures Owned(Rows())
      ensures View() == WithServiceAudience(old(View()), service, Chosen(old(View()), visibility, grants))
    {
      hide GranteesOf, Owned;
      var toGroups := if visibility == Groups then KnownGroups(groups, grants.groups) else {};
      var toMembers := if visibility == Groups then ActiveReaders(users, grants.members) else {};
      RegrantedServicePage(Rows(), service, toGroups, toMembers);
      serviceGroups := DeleteOwners(serviceGroups, {service});
      serviceMembers := DeleteOwners(serviceMembers, {service});
      serviceGroups := serviceGroups + AccessesOf(service, toGroups);
      serviceMembers := serviceMembers + AccessesOf(service, toMembers);
      assert Rows() == RegrantedService(old(Rows()), service, toGroups, toMembers);
    }

    /** Replaces who a folder is opened to. */
    method ReplaceFolderGrants(folder: int, visibility: Visibility, grants: Grants)
      requires Owned(Rows()) && folder in folders && folders[folder].visibility == visibility
      modifies this`folderGroups, this`folderMembers
      ensures Owned(Rows())
      ensures View() == WithFolderAudience(old(View()), folder, Chosen(old(View()), visibility, grants))
    {
      hide GranteesOf, Owned;
      var toGroups := if visibility == Groups then KnownGroups(groups, grants.groups) else {};
      var toMembers := if visibility == Groups then ActiveReaders(users, grants.members) else {};
      RegrantedFolderPage(Rows(), folder, toGroups, toMembers);
      folderGroups := DeleteOwners(folderGroups, {folder});
      folderMembers := DeleteOwners(folderMembers, {folder});
      folderGroups := folderGroups + AccessesOf(folder, toGroups);
      folderMembers := folderMembers + AccessesOf(folder, toMembers);
      assert Rows() == RegrantedFolder(old(Rows()), folder, toGroups, toMembers);
    }

    // ----- folders

    method CreateFolder() returns (id: int)
      requires Valid()
      modifies this`folders, this`next
      ensures Valid() && (View(), id) == Audiences.CreateFolder(old(View()))
    {
      hide Sound, Owned, GranteesOf;
      ghost var before := View();
      ApplyKeepsSound(before, MakeFolder);
      NextIdsAreFree(before);
      id := next.folder;
      var last := LastPosition(set f <- folders :: folders[f].position);
      FolderPositionsOfRows(Rows());
      InsertedFolderPage(Rows(), id, FolderRow(Everyone, last + 1));
      folders := folders[id := FolderRow(Everyone, last + 1)];
      assert PageOf(Rows()).folders == Audiences.CreateFolder(before).0.folders;
      OwnedWhateverNext(Rows(), next.(folder := id + 1));
      next := next.(folder := id + 1);
    }

    /** The service is written and given the folder's setting together: it is
        never seen with another one. Refused, as the foreign key refuses it,
        when there is no such folder. */
    method CreateInFolder(folder: int) returns (result: Result<int>)
      requires Valid()
      modifies this`services, this`serviceGroups, this`serviceMembers, this`next
      ensures Valid() && (View(), result) == Audiences.CreateInFolder(old(View()), folder)
    {
      hide Sound, Owned, PageOf, GranteesOf, LastPosition;
      ghost var before := View();
      ApplyKeepsSound(before, MakeInFolder(folder));
      NextIdsAreFree(before);
      NamesOfPage(Rows());
      FoldersOfPage(Rows());
      ServicesOfPage(Rows());
      if folder !in folders {
        return Refused;
      }
      var id := next.service;
      var last := LastPosition(set s <- services :: services[s].position);
      ServicePositionsOfRows(Rows());
      InsertedServicePage(Rows(), id, ServiceRow(Everyone, Some(folder), true, last + 1));
      services := services[id := ServiceRow(Everyone, Some(folder), true, last + 1)];
      CopySetting(folder, Some(id));
      InsertedThenCopied(before, folder);
      OwnedWhateverNext(Rows(), next.(service := id + 1));
      next := next.(service := id + 1);
      result := Ok(id);
    }

    method SaveSettings(folder: int, visibility: Visibility, grants: Grants) returns (found: bool)
      requires Valid()
      modifies this`folders, this`folderGroups, this`folderMembers, this`services, this`serviceGroups, this`serviceMembers
      ensures Valid() && (View(), found) == Audiences.SaveSettings(old(View()), folder, visibility, grants)
    {
      hide Sound, Owned, PageOf, GranteesOf;
      ghost var before := View();
      ApplyKeepsSound(before, Save(folder, visibility, grants));
      FoldersOfPage(Rows());
      if folder !in folders {
        return false;
      }
      UpdatedFolderPage(Rows(), folder, folders[folder].(visibility := visibility));
      folders := folders[folder := folders[folder].(visibility := visibility)];
      NamesOfPage(old(Rows()));
      NamesOfPage(Rows());
      ReplaceFolderGrants(folder, visibility, grants);
      ghost var moved := before.(folders :=
        before.folders[folder := before.folders[folder].(audience := Chosen(before, visibility, grants))]);
      assert View() == moved;
      CopySetting(folder, None);
      CopiedToAll(moved, folder);
      found := true;
    }

    method AddServices(folder: int, ids: seq<int>) returns (joined: map<int, bool>)
      requires Valid()
      modifies this`services, this`serviceGroups, this`serviceMembers
      ensures Valid() && (View(), joined) == Audiences.AddServices(old(View()), folder, ids)
    {
      hide Sound, Owned, PageOf;
      ApplyKeepsSound(View(), Add(folder, ids));
      JoinedRowsPage(Rows(), folder, ids);
      ghost var moved := PageOf(Rows().(services := JoinedRows(Rows(), folder, ids)));
      joined := JoinedFollows(Rows(), folder, ids);
      services := JoinedRows(Rows(), folder, ids);
      FoldersOfPage(Rows());
      if folder in folders {
        CopySetting(folder, None);
        CopiedToAll(moved, folder);
      }
    }

    method Follow(folder: int, service: int) returns (found: bool)
      requires Valid()
      modifies this`services, this`serviceGroups, this`serviceMembers
      ensures Valid() && (View(), found) == Audiences.Follow(old(View()), folder, service)
    {
      hide Sound, Owned, PageOf, GranteesOf;
      ghost var before := View();
      ApplyKeepsSound(before, FollowAgain(folder, service));
      ServicesOfPage(Rows());
      FoldersOfPage(Rows());
      if service !in services || services[service].folder != Some(folder) {
        return false;
      }
      SoundHas(before, service);
      UpdatedServicePage(Rows(), service, services[service].(follows := true));
      services := services[service := services[service].(follows := true)];
      ghost var moved := before.(services := before.services[service := before.services[service].(follows := true)]);
      assert View() == moved;
      CopySetting(folder, None);
      CopiedToAll(moved, folder);
      found := true;
    }

    method RemoveService(folder: int, service: int) returns (found: bool)
      requires Valid()
      modifies this`services
      ensures Valid() && (View(), found) == Audiences.RemoveService(old(View()), folder, service)
    {
      hide Sound, Owned, PageOf, GranteesOf;
      ApplyKeepsSound(View(), Remove(folder, service));
      ServicesOfPage(Rows());
      found := service in services && services[service].folder == Some(folder);
      if found {
        UpdatedServicePage(Rows(), service, services[service].(folder := None, follows := false));
        services := services[service := services[service].(folder := None, follows := false)];
      }
    }

    /** The services leave first, then the folder goes with its access rows. */
    method DeleteFolder(folder: int) returns (found: bool)
      requires Valid()
      modifies this`services, this`folders, this`folderGroups, this`folderMembers
      ensures Valid() && (View(), found) == Audiences.DeleteFolder(old(View()), folder)
    {
      hide Sound, Owned, PageOf;
      ApplyKeepsSound(View(), DropFolder(folder));
      DeletedFolderPage(Rows(), folder);
      services := LeftRows(services, folder);
      found := folder in folders;
      folders := folders - {folder};
      folderGroups := DeleteOwners(folderGroups, {folder});
      folderMembers := DeleteOwners(folderMembers, {folder});
      assert Rows() == WithoutFolder(old(Rows()).(services := LeftRows(old(services), folder)), folder);
    }

    /** Writes each folder's place in turn, once the list is exactly theirs. */
    method ReorderFolders(ids: seq<int>) returns (saved: bool)
      requires Valid()
      modifies this`folders
      ensures Valid() && (View(), saved) == Audiences.ReorderFolders(old(View()), ids)
    {
      hide Sound, Owned, PageOf;
      ghost var before := View();
      ApplyKeepsSound(before, OrderFolders(ids));
      FoldersOfPage(Rows());
      if multiset(ids) != multiset(folders.Keys) {
        return false;
      }
      ghost var was := folders;
      for i := 0 to |ids|
        invariant folders.Keys == was.Keys
        invariant forall f <- folders ::
          folders[f] == if f in ids[..i] then was[f].(position := IndexOf(ids, f) + 1) else was[f]
      {
        ListedOnce(ids, was.Keys, i);
        folders := folders[ids[i] := folders[ids[i]].(position := i + 1)];
      }
      OrderedFoldersPage(old(Rows()), ids, folders);
      saved := true;
    }

    // ----- services

    /** The service is written with its grants: it is never public on the way. */
    method CreateService(visibility: Visibility, grants: Grants) returns (id: int)
      requires Valid()
      modifies this`services, this`serviceGroups, this`serviceMembers, this`next
      ensures Valid() && (View(), id) == Audiences.CreateService(old(View()), visibility, grants)
    {
      hide Sound, Owned, PageOf, GranteesOf, LastPosition;
      ghost var before := View();
      ApplyKeepsSound(before, MakeService(visibility, grants));
      NextIdsAreFree(before);
      NamesOfPage(Rows());
      ServicesOfPage(Rows());
      id := next.service;
      var last := LastPosition(set s <- services :: services[s].position);
      ServicePositionsOfRows(Rows());
      InsertedServicePage(Rows(), id, ServiceRow(visibility, None, false, last + 1));
      services := services[id := ServiceRow(visibility, None, false, last + 1)];
      NamesOfPage(Rows());
      ReplaceServiceGrants(id, visibility, grants);
      assert View().services == Audiences.CreateService(before, visibility, grants).0.services;
      OwnedWhateverNext(Rows(), next.(service := id + 1));
      next := next.(service := id + 1);
    }

    /** A setting made on a service is its own: it stops following. Access
        rows for no service are refused and nothing is written. */
    method SetVisibility(service: int, visibility: Visibility, grants: Grants) returns (result: Result<()>)
      requires Valid()
      modifies this`services, this`serviceGroups, this`serviceMembers
      ensures Valid() && (View(), result) == Audiences.SetVisibility(old(View()), service, visibility, grants)
    {
      hide Sound, Owned, PageOf, GranteesOf;
      ghost var before := View();
      ApplyKeepsSound(before, SetOwn(service, visibility, grants));
      ServicesOfPage(Rows());
      NamesOfPage(Rows());
      if service !in services {
        var writesRows := visibility == Groups &&
          (KnownGroups(groups, grants.groups) != {} || ActiveReaders(users, grants.members) != {});
        return if writesRows then Refused else Ok(());
      }
      UpdatedServicePage(Rows(), service, services[service].(visibility := visibility, follows := false));
      services := services[service := services[service].(visibility := visibility, follows := false)];
      NamesOfPage(Rows());
      ReplaceServiceGrants(service, visibility, grants);
      assert View().services == Audiences.SetVisibility(before, service, visibility, grants).0.services;
      result := Ok(());
    }

    method ReorderServices(ids: seq<int>) returns (saved: bool)
      requires Valid()
      modifies this`services
      ensures Valid() && (View(), saved) == Audiences.ReorderServices(old(View()), ids)
    {
      hide Sound, Owned, PageOf;
      ghost var before := View();
      ApplyKeepsSound(before, OrderServices(ids));
      ServicesOfPage(Rows());
      if multiset(ids) != multiset(services.Keys) {
        return false;
      }
      ghost var was := services;
      for i := 0 to |ids|
        invariant services.Keys == was.Keys
        invariant forall s <- services ::
          services[s] == if s in ids[..i] then was[s].(position := IndexOf(ids, s) + 1) else was[s]
      {
        ListedOnce(ids, was.Keys, i);
        services := services[ids[i] := services[ids[i]].(position := i + 1)];
      }
      OrderedServicesPage(old(Rows()), ids, services);
      saved := true;
    }

    method DeleteService(service: int)
      requires Valid()
      modifies this`services, this`serviceGroups, this`serviceMembers
      ensures Valid() && View() == Audiences.DeleteService(old(View()), service)
    {
      hide Sound, Owned, GranteesOf;
      ApplyKeepsSound(View(), DropService(service));
      WithoutServicePage(Rows(), service);
      services := services - {service};
      serviceGroups := DeleteOwners(serviceGroups, {service});
      serviceMembers := DeleteOwners(serviceMembers, {service});
    }

    /** The ids one reader may see, and how many services there are. */
    method VisibleIds(reader: Option<int>) returns (ids: set<int>, total: nat)
      requires Valid()
      ensures ids == Audiences.VisibleIds(View(), reader) && total == |View().services|
    {
      ids := set s <- services |
        || services[s].visibility == Everyone
        || (reader.Some? &&
            (|| services[s].visibility == Members
             || (exists a <- serviceGroups :: a.owner == s && Membership(a.grantee, reader.value) in memberships)
             || Access(s, reader.value) in serviceMembers));
      total := |services|;
      forall s <- services ensures s in ids <==> Sees(View(), reader, s) {
        forall g ensures g in GranteesOf(serviceGroups, s) <==> Access(s, g) in serviceGroups {
          GranteeIff(serviceGroups, s, g);
        }
        if reader.Some? {
          GranteeIff(serviceMembers, s, reader.value);
        }
      }
      assert View().services.Keys == services.Keys;
      SameSize(View().services, services);
    }

    // ----- groups

    /** Deleting the group deletes its memberships and access rows. */
    method DeleteGroup(group: int) returns (found: bool)
      requires Valid()
      modifies this`groups, this`memberships, this`serviceGroups, this`folderGroups
      ensures Valid() && (View(), found) == Audiences.DeleteGroup(old(View()), group)
    {
      hide Sound, Owned, GranteesOf;
      ApplyKeepsSound(View(), DropGroup(group));
      WithoutGroupPage(Rows(), group);
      found := group in groups;
      groups := groups - {group};
      memberships := set m <- memberships | m.group != group;
      serviceGroups := DeleteGrantee(serviceGroups, group);
      folderGroups := DeleteGrantee(folderGroups, group);
      assert Rows() == WithoutGroupRows(old(Rows()), group);
    }

    method AddMembers(group: int, ids: seq<int>) returns (result: Result<nat>)
      requires Valid()
      modifies this`memberships
      ensures Valid() && (View(), result) == Audiences.AddMembers(old(View()), group, ids)
    {
      hide Sound, GranteesOf;
      ApplyKeepsSound(View(), Enrol(group, ids));
      var joining := set u <- ActiveReaders(users, ids) | Membership(group, u) !in memberships;
      if joining != {} && group !in groups {
        return Refused;
      }
      memberships := memberships + (set u <- joining :: Membership(group, u));
      assert View() == old(View()).(memberships := memberships);
      result := Ok(|joining|);
    }

    method RemoveMember(group: int, user: int) returns (found: bool)
      requires Valid()
      modifies this`memberships
      ensures Valid() && (View(), found) == Audiences.RemoveMember(old(View()), group, user)
    {
      hide Sound, GranteesOf;
      ApplyKeepsSound(View(), Expel(group, user));
      found := Membership(group, user) in memberships;
      memberships := memberships - {Membership(group, user)};
      assert View() == old(View()).(memberships := memberships);
    }

    /** Opens the restricted folders and services first, then hands each
        opened folder's setting down to its followers. */
    method OpenTo(group: int, folderIds: seq<int>, serviceIds: seq<int>)
      returns (openedFolders: set<int>, openedServices: set<int>)
      requires Valid()
      modifies this`services, this`serviceGroups, this`serviceMembers, this`folderGroups
      ensures Valid()
      ensures (View(), openedFolders, openedServices) == Audiences.OpenTo(old(View()), group, folderIds, serviceIds)
    {
      hide Sound, Owned, PageOf, OpenedFolders, OpenedServices, PartlyOpened, CopiedPage, OpenableFolders, OpenableServices;
      ghost var before := View();
      ghost var after := Audiences.OpenTo(before, group, folderIds, serviceIds).0;
      ApplyKeepsSound(before, Open(group, folderIds, serviceIds));
      openedFolders := OpenableFolders(Rows(), group, folderIds);
      openedServices := OpenableServices(Rows(), group, serviceIds);
      OpenedRowsStart(Rows(), group, folderIds, serviceIds);
      folderGroups := folderGroups + AccessesTo(openedFolders, group);
      serviceGroups := serviceGroups + AccessesTo(openedServices, group);
      var waiting := openedFolders;
      while waiting != {}
        invariant Owned(Rows()) && waiting <= openedFolders
        invariant View() == after.(services := PartlyOpened(before, after, waiting))
        decreases waiting
      {
        ghost var some := Pick(waiting);
        var folder :| folder in waiting;
        FoldersOfPage(Rows());
        PartlyOpenedNext(before, group, folderIds, serviceIds, waiting, folder);
        CopySetting(folder, None);
        waiting := waiting - {folder};
      }
      AllOpened(before, group, folderIds, serviceIds);
    }

    /** Takes the folder's access away from the group, and from its followers. */
    method CloseFolder(group: int, folder: int) returns (closed: bool)
      requires Valid()
      modifies this`services, this`serviceGroups, this`serviceMembers, this`folderGroups
      ensures Valid() && (View(), closed) == Audiences.CloseFolder(old(View()), group, folder)
    {
      hide Sound, GranteesOf;
      ApplyKeepsSound(View(), ShutFolder(group, folder));
      closed := Access(folder, group) in folderGroups;
      GranteeIff(folderGroups, folder, group);
      if closed {
        ClosedFolderPage(Rows(), group, folder);
        folderGroups := folderGroups - {Access(folder, group)};
        ghost var closedPage := View();
        CopySetting(folder, None);
        CopiedToAll(closedPage, folder);
      }
    }

    /** Takes a service's own access away from the group. */
    method CloseService(group: int, service: int) returns (closed: bool)
      requires Valid()
      modifies this`serviceGroups
      ensures Valid() && (View(), closed) == Audiences.CloseService(old(View()), group, service)
    {
      hide Sound, GranteesOf;
      ApplyKeepsSound(View(), ShutService(group, service));
      closed := Access(service, group) in serviceGroups && service in services && !services[service].follows;
      GranteeIff(serviceGroups, service, group);
      if closed {
        ClosedServicePage(Rows(), group, service);
        serviceGroups := serviceGroups - {Access(service, group)};
      }
    }

    /** How many services deleting the group would close to every reader. */
    method ServicesClosedByDeleting(group: int) returns (count: nat)
      requires Valid()
      ensures count == |ClosedByDeleting(View(), group)|
    {
      var closes := set s <- services |
        && services[s].visibility == Groups
        && Access(s, group) in serviceGroups
        && |GranteesOf(serviceGroups, s)| == 1
        && !exists a <- serviceMembers :: a.owner == s;
      forall s <- services
        ensures Access(s, group) in serviceGroups <==> group in GranteesOf(serviceGroups, s)
        ensures (exists a <- serviceMembers :: a.owner == s) <==> GranteesOf(serviceMembers, s) != {}
      {
        GranteeIff(serviceGroups, s, group);
        forall a <- serviceMembers | a.owner == s ensures a.grantee in GranteesOf(serviceMembers, s) {}
      }
      assert closes == ClosedByDeleting(View(), group);
      count := |closes|;
    }
  }

  // ----- what the shared statements come to

  function FollowersOf(services: map<int, ServiceRow>, folder: int, only: Option<int>): set<int> {
    set s <- services |
      services[s].folder == Some(folder) && services[s].follows && (only.None? || s == only.value)
  }

  lemma CopiedToFollowers(t: Tables, folder: int, only: Option<int>)
    requires Owned(t) && folder in t.folders
    ensures var after := Recopied(t, folder, FollowersOf(t.services, folder, only));
      Owned(after) && PageOf(after) == CopiedPage(PageOf(t), folder, only)
  {
    hide GranteesOf, Owned, Recopied;
    RecopiedPage(t, folder, FollowersOf(t.services, folder, only));
  }

  lemma CopiedToAll(page: Page, folder: int)
    requires folder in page.folders
    ensures CopiedPage(page, folder, None) == Propagate(page, folder)
  {}

  /** The page with the folder's audience copied to its followers. */
  function CopiedPage(page: Page, folder: int, only: Option<int>): Page
    requires folder in page.folders
  {
    page.(services := map s <- page.services ::
      if FollowsFolder(page.services[s], folder) && (only.None? || s == only.value)
      then page.services[s].(audience := page.folders[folder].audience) else page.services[s])
  }

  // ----- rows rewritten by the folder operations

  function JoinedRows(t: Tables, folder: int, ids: seq<int>): map<int, ServiceRow> {
    var last := LastPosition(set s <- t.services :: t.services[s].position);
    map s <- t.services ::
      if MovesTo(t, folder, ids, s)
      then t.services[s].(folder := Some(folder),
                          follows := t.services[s].visibility == Everyone || HasSettingOf(t, s, folder),
                          position := last + 1 + IndexOf(ids, s))
      else t.services[s]
  }

  function JoinedFollows(t: Tables, folder: int, ids: seq<int>): map<int, bool> {
    map s <- t.services | MovesTo(t, folder, ids, s) ::
      t.services[s].visibility == Everyone || HasSettingOf(t, s, folder)
  }

  predicate MovesTo(t: Tables, folder: int, ids: seq<int>, s: int) {
    s in t.services && s in ids && t.services[s].folder != Some(folder) && folder in t.folders
  }

  /** The service has exactly the folder's visibility, groups and members. */
  predicate HasSettingOf(t: Tables, s: int, folder: int)
    requires s in t.services && folder in t.folders
  {
    && t.services[s].visibility == t.folders[folder].visibility
    && GranteesOf(t.serviceGroups, s) == GranteesOf(t.folderGroups, folder)
    && GranteesOf(t.serviceMembers, s) == GranteesOf(t.folderMembers, folder)
  }

  lemma JoinedRowsPage(t: Tables, folder: int, ids: seq<int>)
    requires Owned(t)
    ensures var after := t.(services := JoinedRows(t, folder, ids));
      && Owned(after)
      && PageOf(after) == PageOf(t).(services := map s <- PageOf(t).services ::
           if Joins(PageOf(t), folder, ids, s) then Joined(PageOf(t), folder, ids, s) else PageOf(t).services[s])
      && JoinedFollows(t, folder, ids) == map s <- PageOf(t).services | Joins(PageOf(t), folder, ids, s) ::
           Joined(PageOf(t), folder, ids, s).follows
  {
    hide GranteesOf, LastPosition, IndexOf, HasSettingOf, Joins, Joined, MovesTo;
    var page, rows := PageOf(t), JoinedRows(t, folder, ids);
    ServicePositionsOfRows(t);
    UpdatedServicesPage(t, rows);
    forall s <- t.services
      ensures MovesTo(t, folder, ids, s) <==> Joins(page, folder, ids, s)
      ensures MovesTo(t, folder, ids, s) ==>
        Joined(page, folder, ids, s) ==
        ReadService(rows[s], page.services[s].audience.groups, page.services[s].audience.members)
    {
      JoinedRow(t, folder, ids, s);
    }
  }

  lemma JoinedRow(t: Tables, folder: int, ids: seq<int>, s: int)
    requires s in t.services && ServicePositions(PageOf(t)) == set s <- t.services :: t.services[s].position
    ensures var page, row := PageOf(t), JoinedRows(t, folder, ids)[s];
      && (MovesTo(t, folder, ids, s) <==> Joins(page, folder, ids, s))
      && (MovesTo(t, folder, ids, s) ==>
        Joined(page, folder, ids, s) ==
        ReadService(row, page.services[s].audience.groups, page.services[s].audience.members))
  {}

  function LeftRows(services: map<int, ServiceRow>, folder: int): map<int, ServiceRow> {
    map s <- services ::
      if services[s].folder == Some(folder) then services[s].(folder := None, follows := false) else services[s]
  }

  lemma DeletedFolderPage(t: Tables, folder: int)
    requires Owned(t)
    ensures var after := WithoutFolder(t.(services := LeftRows(t.services, folder)), folder);
      && Owned(after)
      && (PageOf(after), folder in t.folders) == DeleteFolder(PageOf(t), folder)
  {
    hide GranteesOf, WithoutFolder, Owned;
    UpdatedServicesPage(t, LeftRows(t.services, folder));
    var left := t.(services := LeftRows(t.services, folder));
    WithoutFolderPage(left, folder);
    assert PageOf(left).services == DeleteFolder(PageOf(t), folder).0.services;
  }

  lemma OrderedServicesPage(t: Tables, ids: seq<int>, rows: map<int, ServiceRow>)
    requires Owned(t) && rows.Keys == t.services.Keys && ListsExactly(ids, t.services.Keys)
    requires forall s <- rows ::
      rows[s] == if s in ids then t.services[s].(position := IndexOf(ids, s) + 1) else t.services[s]
    ensures Owned(t.(services := rows))
    ensures (PageOf(t.(services := rows)), true) == ReorderServices(PageOf(t), ids)
  {
    hide GranteesOf, IndexOf;
    UpdatedServicesPage(t, rows);
    assert PageOf(t).services.Keys == t.services.Keys;
    assert PageOf(t.(services := rows)).services == ReorderServices(PageOf(t), ids).0.services;
  }

  lemma OrderedFoldersPage(t: Tables, ids: seq<int>, rows: map<int, FolderRow>)
    requires Owned(t) && rows.Keys == t.folders.Keys && ListsExactly(ids, t.folders.Keys)
    requires forall f <- rows ::
      rows[f] == if f in ids then t.folders[f].(position := IndexOf(ids, f) + 1) else t.folders[f]
    ensures Owned(t.(folders := rows))
    ensures (PageOf(t.(folders := rows)), true) == ReorderFolders(PageOf(t), ids)
  {
    hide GranteesOf, IndexOf;
    UpdatedFoldersPage(t, rows);
    assert PageOf(t).folders.Keys == t.folders.Keys;
    assert PageOf(t.(folders := rows)).folders == ReorderFolders(PageOf(t), ids).0.folders;
  }

  /** The names, accounts and groups of the page are those of the tables. */
  lemma NamesOfPage(t: Tables)
    ensures var page := PageOf(t);
      page.users == t.users && page.groups == t.groups && page.memberships == t.memberships && page.next == t.next
  {}

  lemma InsertedThenCopied(page: Page, folder: int)
    requires folder in page.folders && page.next.service !in page.services
    ensures var id := page.next.service;
      var last := LastPosition(ServicePositions(page));
      var row := ReadService(ServiceRow(Everyone, Some(folder), true, last + 1), {}, {});
      CopiedPage(page.(services := page.services[id := row]), folder, Some(id)).(next := page.next.(service := id + 1))
      == CreateInFolder(page, folder).0
  {}

  lemma OwnedWhateverNext(t: Tables, next: NextIds)
    requires Owned(t)
    ensures Owned(t.(next := next)) && PageOf(t.(next := next)) == PageOf(t).(next := next)
  {}

  function WithServiceAudience(page: Page, service: int, audience: Audience): Page
    requires service in page.services
  {
    page.(services := page.services[service := page.services[service].(audience := audience)])
  }

  function WithFolderAudience(page: Page, folder: int, audience: Audience): Page
    requires folder in page.folders
  {
    page.(folders := page.folders[folder := page.folders[folder].(audience := audience)])
  }

  /** While opened folders wait to be handed down, their followers keep what
      they had and every other service is as it will be. */
  function PartlyOpened(before: Page, after: Page, waiting: set<int>): map<int, Service> {
    map s <- before.services | s in after.services ::
      if FollowsOneOf(before.services[s], waiting) then before.services[s] else after.services[s]
  }

  lemma PartlyOpenedNext(before: Page, group: int, folderIds: seq<int>, serviceIds: seq<int>,
                         waiting: set<int>, folder: int)
    requires Sound(before) && folder in waiting
    requires waiting <= OpenedFolders(before, group, folderIds)
    ensures var after := OpenTo(before, group, folderIds, serviceIds).0;
      && folder in after.folders
      && CopiedPage(after.(services := PartlyOpened(before, after, waiting)), folder, None) ==
         after.(services := PartlyOpened(before, after, waiting - {folder}))
  {
    var after := OpenTo(before, group, folderIds, serviceIds).0;
    var partly := after.(services := PartlyOpened(before, after, waiting));
    forall s <- before.services
      ensures CopiedPage(partly, folder, None).services[s] == PartlyOpened(before, after, waiting - {folder})[s]
    {
      SoundHas(before, s);
    }
  }

  lemma AllOpened(before: Page, group: int, folderIds: seq<int>, serviceIds: seq<int>)
    ensures var after := OpenTo(before, group, folderIds, serviceIds).0;
      after.(services := PartlyOpened(before, after, {})) == after
  {
    var after := OpenTo(before, group, folderIds, serviceIds).0;
    assert forall s <- after.services :: PartlyOpened(before, after, {})[s] == after.services[s];
  }

  function OpenableFolders(t: Tables, group: int, ids: seq<int>): set<int> {
    set f <- t.folders |
      && group in t.groups && f in ids && t.folders[f].visibility == Groups
      && Access(f, group) !in t.folderGroups
  }

  function OpenableServices(t: Tables, group: int, ids: seq<int>): set<int> {
    set s <- t.services |
      && group in t.groups && s in ids && t.services[s].visibility == Groups && !t.services[s].follows
      && Access(s, group) !in t.serviceGroups
  }

  lemma OpenableIsOpened(t: Tables, group: int, folderIds: seq<int>, serviceIds: seq<int>)
    ensures OpenableFolders(t, group, folderIds) == OpenedFolders(PageOf(t), group, folderIds)
    ensures OpenableServices(t, group, serviceIds) == OpenedServices(PageOf(t), group, serviceIds)
  {}

  /** The rows just opened are the page with every opened folder waiting. */
  lemma OpenedRowsStart(t: Tables, group: int, folderIds: seq<int>, serviceIds: seq<int>)
    requires Owned(t) && Sound(PageOf(t))
    ensures var (after, folders, services) := OpenTo(PageOf(t), group, folderIds, serviceIds);
      var rows := OpenedRows(t, group, services, folders);
      && folders == OpenableFolders(t, group, folderIds)
      && services == OpenableServices(t, group, serviceIds)
      && Owned(rows)
      && PageOf(rows) == after.(services := PartlyOpened(PageOf(t), after, folders))
  {
    hide Owned, Sound, PageOf, OpenedRows;
    var before := PageOf(t);
    var (after, folders, services) := OpenTo(before, group, folderIds, serviceIds);
    OpenableIsOpened(t, group, folderIds, serviceIds);
    ServicesOfPage(t);
    FoldersOfPage(t);
    OpenedRowsPage(t, group, services, folders);
    forall s <- before.services
      ensures PageOf(OpenedRows(t, group, services, folders)).services[s] == PartlyOpened(before, after, folders)[s]
    {
      SoundHas(before, s);
    }
  }

  lemma FolderPositionsOfRows(t: Tables)
    ensures (set f <- t.folders :: t.folders[f].position) == FolderPositions(PageOf(t))
  {
    assert forall f <- t.folders :: PageOf(t).folders[f].position == t.folders[f].position;
  }

  lemma ServicePositionsOfRows(t: Tables)
    ensures (set s <- t.services :: t.services[s].position) == ServicePositions(PageOf(t))
  {
    assert forall s <- t.services :: PageOf(t).services[s].position == t.services[s].position;
  }

  lemma SameSize<K, A, B>(a: map<K, A>, b: map<K, B>)
    requires a.Keys == b.Keys
    ensures |a| == |b|
  {}
}
