/** What the operations on audiences keep, and how each changes who sees what. */
module AudienceLaws {
  import opened Prelude
  import opened Audiences

  // ----- every follower carries its folder's audience, over every run

  ghost predicate Tidy(page: Page, audience: Audience) {
    && (audience.visibility != Groups ==> audience.groups == {} && audience.members == {})
    && audience.groups <= page.groups
    && audience.members <= page.users.Keys
  }

  ghost predicate SoundService(page: Page, service: Service) {
    && Tidy(page, service.audience)
    && (service.folder.Some? ==> service.folder.value in page.folders)
    && (service.follows ==>
      service.folder.Some? && service.audience == page.folders[service.folder.value].audience)
  }

  ghost predicate Sound(page: Page) {
    && (forall s <- page.services :: SoundService(page, page.services[s]))
    && (forall f <- page.folders :: Tidy(page, page.folders[f].audience))
    && (forall m <- page.memberships :: m.group in page.groups && m.user in page.users)
    && (forall s <- page.services :: s < page.next.service)
    && (forall f <- page.folders :: f < page.next.folder)
    && (forall g <- page.groups :: g < page.next.group)
    && (forall u <- page.users :: u < page.next.user)
  }

  lemma SoundHas(page: Page, service: int)
    requires Sound(page) && service in page.services
    ensures SoundService(page, page.services[service])
  {}

  lemma NextIdsAreFree(page: Page)
    requires Sound(page)
    ensures page.next.service !in page.services && page.next.folder !in page.folders
  {}

  datatype Op =
    | MakeFolder
    | MakeInFolder(folder: int)
    | MakeService(visibility: Visibility, grants: Grants)
    | Save(folder: int, visibility: Visibility, grants: Grants)
    | Add(folder: int, ids: seq<int>)
    | FollowAgain(folder: int, service: int)
    | Remove(folder: int, service: int)
    | DropFolder(folder: int)
    | OrderFolders(ids: seq<int>)
    | OrderServices(ids: seq<int>)
    | SetOwn(service: int, visibility: Visibility, grants: Grants)
    | DropService(service: int)
    | MakeGroup
    | DropGroup(group: int)
    | Enrol(group: int, users: seq<int>)
    | Expel(group: int, user: int)
    | Open(group: int, folders: seq<int>, services: seq<int>)
    | ShutFolder(group: int, folder: int)
    | ShutService(group: int, service: int)
    | MakeUser(account: User)
    | EditUser(id: int, account: User)
    | DropUser(id: int)

  function Apply(page: Page, op: Op): Page {
    match op
    case MakeFolder => CreateFolder(page).0
    case MakeInFolder(folder) => CreateInFolder(page, folder).0
    case MakeService(visibility, grants) => CreateService(page, visibility, grants).0
    case Save(folder, visibility, grants) => SaveSettings(page, folder, visibility, grants).0
    case Add(folder, ids) => AddServices(page, folder, ids).0
    case FollowAgain(folder, service) => Follow(page, folder, service).0
    case Remove(folder, service) => RemoveService(page, folder, service).0
    case DropFolder(folder) => DeleteFolder(page, folder).0
    case OrderFolders(ids) => ReorderFolders(page, ids).0
    case OrderServices(ids) => ReorderServices(page, ids).0
    case SetOwn(service, visibility, grants) => SetVisibility(page, service, visibility, grants).0
    case DropService(service) => DeleteService(page, service)
    case MakeGroup => CreateGroup(page).0
    case DropGroup(group) => DeleteGroup(page, group).0
    case Enrol(group, users) => AddMembers(page, group, users).0
    case Expel(group, user) => RemoveMember(page, group, user).0
    case Open(group, folders, services) => OpenTo(page, group, folders, services).0
    case ShutFolder(group, folder) => CloseFolder(page, group, folder).0
    case ShutService(group, service) => CloseService(page, group, service).0
    case MakeUser(user) => CreateUser(page, user).0
    case EditUser(id, user) => ChangeUser(page, id, user)
    case DropUser(id) => DeleteUser(page, id)
  }

  function Run(page: Page, ops: seq<Op>): Page
    decreases ops
  {
    if ops == [] then page else Run(Apply(page, ops[0]), ops[1..])
  }

  lemma OpenKeepsSound(page: Page, group: int, folders: seq<int>, services: seq<int>)
    requires Sound(page)
    ensures Sound(Apply(page, Open(group, folders, services)))
  {
    var after := OpenTo(page, group, folders, services).0;
    forall s <- after.services ensures SoundService(after, after.services[s]) {
      var service := page.services[s];
      assert SoundService(page, service);
      if FollowsOneOf(service, OpenedFolders(page, group, folders)) {
        assert CanOpen(page.folders[service.folder.value].audience, group);
      }
    }
  }

  lemma FolderOpsKeepSound(page: Page, op: Op)
    requires Sound(page)
    requires op.MakeFolder? || op.MakeInFolder? || op.Save? || op.Add? || op.FollowAgain? || op.ShutFolder?
    ensures Sound(Apply(page, op))
  {
    hide LastPosition, IndexOf;
  }

  lemma LeavingOpsKeepSound(page: Page, op: Op)
    requires Sound(page)
    requires op.Remove? || op.DropFolder? || op.DropService? || op.DropGroup? || op.DropUser?
    ensures Sound(Apply(page, op))
  {}

  lemma ServiceOpsKeepSound(page: Page, op: Op)
    requires Sound(page)
    requires || op.MakeService? || op.SetOwn? || op.ShutService?
             || op.OrderFolders? || op.OrderServices?
    ensures Sound(Apply(page, op))
  {
    hide LastPosition, IndexOf, ListsExactly;
  }

  lemma MemberOpsKeepSound(page: Page, op: Op)
    requires Sound(page)
    requires op.MakeGroup? || op.Enrol? || op.Expel? || op.MakeUser? || op.EditUser?
    ensures Sound(Apply(page, op))
  {}

  lemma ApplyKeepsSound(page: Page, op: Op)
    requires Sound(page)
    ensures Sound(Apply(page, op))
  {
    hide Sound, Apply;
    match op
    case MakeFolder | MakeInFolder(_) | Save(_, _, _) | Add(_, _) | FollowAgain(_, _) | ShutFolder(_, _) =>
      FolderOpsKeepSound(page, op);
    case Remove(_, _) | DropFolder(_) | DropService(_) | DropGroup(_) | DropUser(_) =>
      LeavingOpsKeepSound(page, op);
    case MakeGroup | Enrol(_, _) | Expel(_, _) | MakeUser(_) | EditUser(_, _) =>
      MemberOpsKeepSound(page, op);
    case Open(group, folders, services) => OpenKeepsSound(page, group, folders, services);
    case _ => ServiceOpsKeepSound(page, op);
  }

  /** In every reachable state each follower is in an existing folder and has
      exactly its visibility, groups and members. */
  lemma {:induction false} RunKeepsSound(page: Page, ops: seq<Op>)
    requires Sound(page)
    ensures Sound(Run(page, ops))
    decreases ops
  {
    if ops != [] {
      ApplyKeepsSound(page, ops[0]);
      RunKeepsSound(Apply(page, ops[0]), ops[1..]);
    }
  }

  /** So it is after any run from an empty page: the copy a follower carries is
      its folder's audience, which the read rule never looks at. */
  lemma EveryFollowerAgrees(ops: seq<Op>, service: int)
    requires service in Run(EMPTY, ops).services && Run(EMPTY, ops).services[service].follows
    ensures var page := Run(EMPTY, ops);
      && page.services[service].folder.Some?
      && page.services[service].folder.value in page.folders
      && page.services[service].audience == page.folders[page.services[service].folder.value].audience
  {
    hide Run;
    RunKeepsSound(EMPTY, ops);
    SoundHas(Run(EMPTY, ops), service);
  }

  // ----- joining a folder never shows a service to more people

  /** A service open to everyone takes the folder's audience when it joins;
      every other service keeps its own, followers already there included. */
  lemma AddServicesAudience(page: Page, folder: int, ids: seq<int>, service: int)
    requires Sound(page) && service in page.services
    ensures var after := AddServices(page, folder, ids).0;
      && after.services.Keys == page.services.Keys
      && after.memberships == page.memberships
      && after.services[service].audience ==
         if Joins(page, folder, ids, service) && page.services[service].audience.visibility == Everyone
         then page.folders[folder].audience
         else page.services[service].audience
  {
    hide LastPosition, IndexOf;
    assert SoundService(page, page.services[service]);
  }

  lemma AddServicesNeverWidens(page: Page, folder: int, ids: seq<int>, reader: Option<int>)
    requires Sound(page)
    ensures VisibleIds(AddServices(page, folder, ids).0, reader) <= VisibleIds(page, reader)
  {
    hide AddServices;
    var after := AddServices(page, folder, ids).0;
    forall s <- VisibleIds(after, reader) ensures s in VisibleIds(page, reader) {
      if s in page.services {
        AddServicesAudience(page, folder, ids, s);
      } else {
        AddServicesKeepsIds(page, folder, ids);
      }
    }
  }

  lemma AddServicesKeepsIds(page: Page, folder: int, ids: seq<int>)
    ensures AddServices(page, folder, ids).0.services.Keys == page.services.Keys
  {}

  /** The services that join come after every other one, in the order listed. */
  lemma AddServicesComeLast(page: Page, folder: int, ids: seq<int>, moved: int, other: int)
    requires Joins(page, folder, ids, moved) && other in page.services
    ensures var after := AddServices(page, folder, ids).0.services;
      && (!Joins(page, folder, ids, other) ==> after[other].position < after[moved].position)
      && (Joins(page, folder, ids, other) && IndexOf(ids, other) < IndexOf(ids, moved) ==>
            after[other].position < after[moved].position)
  {
    assert page.services[other].position in ServicePositions(page);
  }

  /** A reordered list reads back in the order sent. */
  lemma ReorderServicesReadsBack(page: Page, ids: seq<int>, i: nat, j: nat)
    requires ListsExactly(ids, page.services.Keys) && i < j < |ids|
    ensures var after := ReorderServices(page, ids).0.services;
      && after.Keys == page.services.Keys
      && ids[i] in after && ids[j] in after
      && after[ids[i]].position == i + 1 && after[ids[j]].position == j + 1
      && forall s <- after :: s in ids
  {
    ListedOnce(ids, page.services.Keys, i);
    ListedOnce(ids, page.services.Keys, j);
    forall s <- page.services ensures s in ids {
      assert multiset(page.services.Keys)[s] == 1;
    }
  }

  lemma ListedOnce(ids: seq<int>, existing: set<int>, i: nat)
    requires ListsExactly(ids, existing) && i < |ids|
    ensures ids[i] in existing && IndexOf(ids, ids[i]) == i
  {
    hide IndexOf;
    assert ids[i] in multiset(ids);
    assert ids == ids[..i] + [ids[i]] + ids[i + 1..];
    assert multiset(ids) == multiset(ids[..i]) + multiset{ids[i]} + multiset(ids[i + 1..]);
    assert ids[i] !in multiset(ids[..i]);
    FirstIndexIs(ids, i);
  }

  lemma FirstIndexIs(ids: seq<int>, i: nat)
    requires i < |ids| && ids[i] !in ids[..i]
    ensures IndexOf(ids, ids[i]) == i
    decreases i
  {}

  // ----- the footprint of every other operation on what readers see

  /** Leaving a folder, deleting or ordering folders, and what only concerns
      accounts or new names, change nobody's view. */
  lemma ViewsUnchanged(page: Page, op: Op, reader: Option<int>)
    requires op.Remove? || op.DropFolder? || op.OrderFolders? || op.OrderServices?
             || op.MakeFolder? || op.MakeGroup? || op.MakeUser? || op.EditUser?
    ensures VisibleIds(Apply(page, op), reader) == VisibleIds(page, reader)
  {
    hide LastPosition, IndexOf, ListsExactly;
  }

  predicate InGroup(page: Page, reader: Option<int>, group: int) {
    reader.Some? && Membership(group, reader.value) in page.memberships
  }

  /** What opening shows: the services it opens and the followers of the
      folders it opens. */
  function Shown(page: Page, group: int, folders: seq<int>, services: seq<int>): set<int> {
    set s <- page.services |
      || s in OpenedServices(page, group, services)
      || FollowsOneOf(page.services[s], OpenedFolders(page, group, folders))
  }

  /** Opening adds exactly that, to the members of the group alone. */
  lemma OpenToOnlyAdds(page: Page, group: int, folders: seq<int>, services: seq<int>, reader: Option<int>)
    requires Sound(page)
    ensures VisibleIds(OpenTo(page, group, folders, services).0, reader) ==
            VisibleIds(page, reader) + if InGroup(page, reader, group) then Shown(page, group, folders, services) else {}
  {}

  /** Closing a folder hides its followers, from those who reached them
      through the group alone. */
  lemma CloseFolderOnlyHides(page: Page, group: int, folder: int, reader: Option<int>)
    requires Sound(page)
    ensures VisibleIds(CloseFolder(page, group, folder).0, reader) ==
      set s <- VisibleIds(page, reader) |
        FollowsFolder(page.services[s], folder) ==>
          Admits(WithoutGroup(page.services[s].audience, group), page.memberships, reader)
    ensures !InGroup(page, reader, group) ==>
      VisibleIds(CloseFolder(page, group, folder).0, reader) == VisibleIds(page, reader)
  {}

  lemma CloseServiceOnlyHides(page: Page, group: int, service: int, reader: Option<int>)
    ensures VisibleIds(CloseService(page, group, service).0, reader) ==
      set s <- VisibleIds(page, reader) |
        s == service && !page.services[s].follows ==>
          Admits(WithoutGroup(page.services[s].audience, group), page.memberships, reader)
    ensures !InGroup(page, reader, group) ==>
      VisibleIds(CloseService(page, group, service).0, reader) == VisibleIds(page, reader)
  {}

  /** Enrolling adds, to the new members alone, the restricted services open
      to the group. */
  lemma AddMembersOnlyAdds(page: Page, group: int, users: seq<int>, reader: Option<int>)
    requires Sound(page)
    ensures var after := AddMembers(page, group, users).0;
      VisibleIds(after, reader) == VisibleIds(page, reader) +
        if InGroup(after, reader, group) && !InGroup(page, reader, group)
        then set s <- page.services |
               page.services[s].audience.visibility == Groups && group in page.services[s].audience.groups
        else {}
  {}

  /** The count shown before a group is deleted: the restricted services that
      someone was granted and that are left with no grant at all, seen by no
      reader from then on. */
  lemma ClosedByDeletingIsExact(page: Page, group: int)
    ensures var after := DeleteGroup(page, group).0;
      ClosedByDeleting(page, group) == set s <- page.services |
        && page.services[s].audience.visibility == Groups
        && (page.services[s].audience.groups != {} || page.services[s].audience.members != {})
        && after.services[s].audience.groups == {} && after.services[s].audience.members == {}
    ensures forall s <- ClosedByDeleting(page, group), reader: Option<int> ::
      !Sees(DeleteGroup(page, group).0, reader, s)
  {
    var after := DeleteGroup(page, group).0;
    forall s <- page.services
      ensures s in ClosedByDeleting(page, group) <==>
        && page.services[s].audience.visibility == Groups
        && (page.services[s].audience.groups != {} || page.services[s].audience.members != {})
        && after.services[s].audience.groups == {} && after.services[s].audience.members == {}
    {
      OnlyElement(page.services[s].audience.groups, group);
    }
  }

  lemma OnlyElement(s: set<int>, x: int)
    ensures x in s && |s| == 1 <==> s != {} && s - {x} == {}
  {
    if x in s && |s| == 1 {
      assert |s - {x}| == 0;
    }
    if s != {} && s - {x} == {} {
      var y := Pick(s);
      assert y !in s - {x};
      assert s == {x};
    }
  }

  /** Saving a folder gives its followers what was chosen and touches nothing
      else; following again, what the folder has. */
  lemma SaveSettingsReachesFollowers(page: Page, folder: int, visibility: Visibility, grants: Grants, service: int)
    requires folder in page.folders && service in page.services
    ensures var after := SaveSettings(page, folder, visibility, grants).0;
      && after.folders[folder].audience == Chosen(page, visibility, grants)
      && after.services[service].audience ==
         if FollowsFolder(page.services[service], folder) then Chosen(page, visibility, grants)
         else page.services[service].audience
  {}

  lemma FollowTakesFolderAudience(page: Page, folder: int, service: int, other: int)
    requires Sound(page) && service in page.services && other in page.services
    requires page.services[service].folder == Some(folder)
    ensures var after := Follow(page, folder, service).0;
      && FollowsFolder(after.services[service], folder)
      && after.services[service].audience == page.folders[folder].audience
      && (other != service ==> after.services[other] == page.services[other])
  {}

  /** A new service is seen by its audience from the start, and by no one else. */
  lemma CreatedIsSeenByItsAudience(page: Page, visibility: Visibility, grants: Grants, reader: Option<int>)
    requires Sound(page)
    ensures var (after, id) := CreateService(page, visibility, grants);
      VisibleIds(after, reader) ==
        VisibleIds(page, reader)
        + if Admits(Chosen(page, visibility, grants), page.memberships, reader) then {id} else {}
  {}

  /** So is a service created in a folder, by the folder's audience. */
  lemma CreatedInFolderIsSeenByItsAudience(page: Page, folder: int, reader: Option<int>)
    requires Sound(page) && folder in page.folders
    ensures var (after, id) := CreateInFolder(page, folder);
      && id.Ok?
      && VisibleIds(after, reader) ==
         VisibleIds(page, reader)
         + if Admits(page.folders[folder].audience, page.memberships, reader) then {id.value} else {}
  {}

  /** Taking a member out, or deleting the group, hides what was reached
      through the group alone, from that member or from its members. */
  lemma RemoveMemberOnlyHides(page: Page, group: int, user: int, reader: Option<int>)
    ensures VisibleIds(RemoveMember(page, group, user).0, reader) ==
      set s <- VisibleIds(page, reader) |
        reader == Some(user) ==>
          Admits(WithoutGroup(page.services[s].audience, group), page.memberships, reader)
  {}

  lemma DeleteGroupOnlyHides(page: Page, group: int, reader: Option<int>)
    ensures VisibleIds(DeleteGroup(page, group).0, reader) ==
      set s <- VisibleIds(page, reader) |
        Admits(WithoutGroup(page.services[s].audience, group), page.memberships, reader)
    ensures !InGroup(page, reader, group) ==>
      VisibleIds(DeleteGroup(page, group).0, reader) == VisibleIds(page, reader)
  {}

  /** Deleting an account changes no other reader's view. */
  lemma DeleteUserHidesFromNoOther(page: Page, user: int, reader: Option<int>)
    requires reader != Some(user)
    ensures VisibleIds(DeleteUser(page, user), reader) == VisibleIds(page, reader)
  {}
}
