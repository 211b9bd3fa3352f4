/**
 What each operation on audiences does, said of the tables and of the lists
 asked for: who sees a service afterwards, and what else changes.
 */
module AudienceEffects {
  import opened Prelude
  import opened Audiences
  import opened AudienceLaws

  // ----- whom a choice lets in

  /** Whom an administrator asks for: everyone, whoever is signed in, or the
      active readers listed and the members of the existing groups listed. */
  ghost predicate Asked(page: Page, visibility: Visibility, grants: Grants, reader: Option<int>) {
    || visibility == Everyone
    || (visibility == Members && reader.Some?)
    || (visibility == Groups && reader.Some?
        && (|| (reader.value in grants.members && reader.value in page.users
                && page.users[reader.value].role == Reader && page.users[reader.value].active)
            || exists g :: g in grants.groups && g in page.groups && Membership(g, reader.value) in page.memberships))
  }

  lemma ChosenIsAsked(page: Page, visibility: Visibility, grants: Grants, reader: Option<int>)
    ensures Admits(Chosen(page, visibility, grants), page.memberships, reader) <==> Asked(page, visibility, grants, reader)
  {
    if reader.Some? && visibility == Groups {
      var audience := Chosen(page, visibility, grants);
      assert forall g :: g in audience.groups <==> g in grants.groups && g in page.groups;
      assert forall u :: u in audience.members <==> u in grants.members && IsActiveReader(page.users, u);
    }
  }

  /** A setting made on a service shows it to those asked for and to no one else,
      and the service stops following, in its folder and at its place. */
  lemma SetVisibilityShows(page: Page, service: int, visibility: Visibility, grants: Grants, reader: Option<int>)
    requires Sound(page) && service in page.services
    ensures var (after, result) := SetVisibility(page, service, visibility, grants);
      && result == Ok(())
      && VisibleIds(after, reader)
         == (VisibleIds(page, reader) - {service}) + (if Asked(page, visibility, grants, reader) then {service} else {})
      && service in after.services
      && after.services[service].folder == page.services[service].folder
      && after.services[service].position == page.services[service].position
      && !after.services[service].follows
      && after == page.(services := page.services[service := after.services[service]])
  {
    hide Asked, Chosen;
    ChosenIsAsked(page, visibility, grants, reader);
  }

  /** For no such service nothing is written, and it is refused exactly when some
      row would have been. */
  lemma SetVisibilityOfNone(page: Page, service: int, visibility: Visibility, grants: Grants)
    requires service !in page.services
    ensures var (after, result) := SetVisibility(page, service, visibility, grants);
      && after == page
      && (result == Refused <==>
            (visibility == Groups
             && ((exists g :: g in grants.groups && g in page.groups)
                 || exists u :: u in grants.members && u in page.users && page.users[u] == User(Reader, true))))
  {
    var groups, members := KnownGroups(page.groups, grants.groups), ActiveReaders(page.users, grants.members);
    assert forall g :: g in groups <==> g in grants.groups && g in page.groups;
    assert forall u :: u in members <==> u in grants.members && u in page.users && page.users[u] == User(Reader, true);
    if groups != {} {
      var g := Pick(groups);
    }
    if members != {} {
      var u := Pick(members);
    }
  }

  /** A service created with a setting is shown to those asked for, last in
      order, in no folder; nothing else changes. */
  lemma CreateServiceShows(page: Page, visibility: Visibility, grants: Grants, reader: Option<int>)
    requires Sound(page)
    ensures var (after, id) := CreateService(page, visibility, grants);
      && id !in page.services && id in after.services
      && VisibleIds(after, reader)
         == VisibleIds(page, reader) + (if Asked(page, visibility, grants, reader) then {id} else {})
      && after.services[id].folder == None && !after.services[id].follows
      && (forall s <- page.services ::
            page.services[s].position < after.services[id].position && after.services[s] == page.services[s])
      && after == page.(services := after.services, next := page.next.(service := id + 1))
      && after.services.Keys == page.services.Keys + {id}
  {
    hide Asked, Chosen, LastPosition;
    ChosenIsAsked(page, visibility, grants, reader);
    assert forall s <- page.services :: page.services[s].position in ServicePositions(page);
    assert page.next.service !in page.services;
  }

  /** A folder's new setting is the one asked for: its followers are shown to
      those, as is a service created in it next. Nothing else changes. */
  lemma SaveSettingsShows(page: Page, folder: int, visibility: Visibility, grants: Grants, reader: Option<int>)
    requires Sound(page) && folder in page.folders
    ensures var (after, saved) := SaveSettings(page, folder, visibility, grants);
      && saved && after.folders.Keys == page.folders.Keys && after.services.Keys == page.services.Keys
      && (forall f <- page.folders :: f != folder ==> after.folders[f] == page.folders[f])
      && after.folders[folder].position == page.folders[folder].position
      && (forall s <- page.services ::
            if page.services[s].follows && page.services[s].folder == Some(folder)
            then (Sees(after, reader, s) <==> Asked(page, visibility, grants, reader))
                 && after.services[s] == page.services[s].(audience := after.folders[folder].audience)
            else after.services[s] == page.services[s])
      && after == page.(services := after.services, folders := after.folders)
      && (var (later, id) := CreateInFolder(after, folder);
          id.Ok? && (Sees(later, reader, id.value) <==> Asked(page, visibility, grants, reader)))
  {
    hide Asked, Chosen, LastPosition;
    ChosenIsAsked(page, visibility, grants, reader);
  }

  lemma SaveSettingsOfNone(page: Page, folder: int, visibility: Visibility, grants: Grants)
    requires folder !in page.folders
    ensures SaveSettings(page, folder, visibility, grants) == (page, false)
  {}

  // ----- folders

  /** A new folder is public, empty and last. */
  lemma CreateFolderIs(page: Page, reader: Option<int>)
    requires Sound(page)
    ensures var (after, id) := CreateFolder(page);
      && id !in page.folders && id in after.folders && after.folders.Keys == page.folders.Keys + {id}
      && Admits(after.folders[id].audience, page.memberships, reader)
      && (forall f <- page.folders ::
            after.folders[f] == page.folders[f] && page.folders[f].position < after.folders[id].position)
      && (forall s <- after.services :: after.services[s].folder != Some(id))
      && after == page.(folders := after.folders, next := page.next.(folder := id + 1))
  {
    hide LastPosition;
    assert forall f <- page.folders :: page.folders[f].position in FolderPositions(page);
    assert forall s <- page.services :: SoundService(page, page.services[s]);
  }

  /** A service created in a folder follows it, last in order, and nothing else
      changes; refused exactly for no such folder. */
  lemma CreateInFolderIs(page: Page, folder: int)
    requires Sound(page)
    ensures var (after, id) := CreateInFolder(page, folder);
      && (id == Refused <==> folder !in page.folders)
      && (id == Refused ==> after == page)
      && (id.Ok? ==>
            && id.value !in page.services && id.value in after.services
            && after.services[id.value].folder == Some(folder) && after.services[id.value].follows
            && (forall s <- page.services ::
                  page.services[s].position < after.services[id.value].position && after.services[s] == page.services[s])
            && after == page.(services := after.services, next := page.next.(service := id.value + 1))
            && after.services.Keys == page.services.Keys + {id.value})
  {
    hide LastPosition;
    assert forall s <- page.services :: page.services[s].position in ServicePositions(page);
  }

  /** The services listed that exist and are elsewhere move to the folder; those
      open to everyone or with just its audience follow it. No other service
      changes, and each that moved is told with whether it follows. */
  lemma AddServicesMoves(page: Page, folder: int, ids: seq<int>, service: int)
    requires Sound(page) && service in page.services
    ensures var (after, joined) := AddServices(page, folder, ids);
      var was := page.services[service];
      var moves := folder in page.folders && service in ids && was.folder != Some(folder);
      && after == page.(services := after.services) && service in after.services
      && (service in joined <==> moves)
      && (!moves ==> after.services[service] == was)
      && (moves ==>
            && after.services[service].folder == Some(folder)
            && (after.services[service].follows <==>
                  was.audience.visibility == Everyone || was.audience == page.folders[folder].audience)
            && joined[service] == after.services[service].follows)
  {
    hide LastPosition, IndexOf;
    assert SoundService(page, page.services[service]);
  }

  /** Following again keeps the service's folder and place; false, and nothing
      changes, exactly when it is not in the folder. */
  lemma FollowIs(page: Page, folder: int, service: int)
    requires Sound(page)
    ensures var (after, found) := Follow(page, folder, service);
      && (found <==> service in page.services && page.services[service].folder == Some(folder))
      && (!found ==> after == page)
      && (found ==>
            && folder in page.folders
            && after == page.(services := page.services[service := page.services[service].(
                 follows := true, audience := page.folders[folder].audience)]))
  {
    var (after, found) := Follow(page, folder, service);
    if found {
      assert SoundService(page, page.services[service]);
      var follower := page.services[service].(follows := true, audience := page.folders[folder].audience);
      forall s <- page.services ensures after.services[s] == page.services[service := follower][s] {
        assert SoundService(page, page.services[s]);
      }
      assert after.services == page.services[service := follower];
    }
  }

  /** A service taken out keeps its audience and its place, follows nothing, and
      no other changes; false, and nothing changes, when it was not there. */
  lemma RemoveServiceIs(page: Page, folder: int, service: int)
    ensures var (after, found) := RemoveService(page, folder, service);
      && (found <==> service in page.services && page.services[service].folder == Some(folder))
      && (!found ==> after == page)
      && (found ==>
            && after == page.(services := after.services) && after.services.Keys == page.services.Keys
            && after.services[service].folder == None && !after.services[service].follows
            && after.services[service].audience == page.services[service].audience
            && after.services[service].position == page.services[service].position
            && forall s <- page.services :: s != service ==> after.services[s] == page.services[s])
  {}

  /** A folder deleted is gone, with no service in it; services keep all else. */
  lemma DeleteFolderIs(page: Page, folder: int)
    ensures var (after, found) := DeleteFolder(page, folder);
      && (found <==> folder in page.folders)
      && after.folders == page.folders - {folder} && after.services.Keys == page.services.Keys
      && after == page.(services := after.services, folders := after.folders)
      && forall s <- page.services ::
           if page.services[s].folder == Some(folder)
           then after.services[s].folder == None && !after.services[s].follows
                && after.services[s].audience == page.services[s].audience
                && after.services[s].position == page.services[s].position
           else after.services[s] == page.services[s]
  {}

  // ----- orders

  /** An order is saved exactly when it lists each of them once. */
  lemma ListsExactlyIs(ids: seq<int>, existing: set<int>)
    ensures ListsExactly(ids, existing) <==>
      && (forall x :: x in ids <==> x in existing)
      && forall i, j | 0 <= i < j < |ids| :: ids[i] != ids[j]
  {
    if (forall x :: x in ids <==> x in existing) && forall i, j | 0 <= i < j < |ids| :: ids[i] != ids[j] {
      DistinctIsSet(ids);
      assert (set x <- ids) == existing;
    }
    if ListsExactly(ids, existing) {
      forall x ensures x in ids <==> x in existing {
        assert x in ids <==> x in multiset(ids);
      }
      forall i, j | 0 <= i < j < |ids| ensures ids[i] != ids[j] {
        FirstIsOnly(ids, existing, i, j);
      }
    }
  }

  lemma FirstIsOnly(ids: seq<int>, existing: set<int>, i: nat, j: nat)
    requires ListsExactly(ids, existing) && i < j < |ids|
    ensures ids[i] != ids[j]
  {
    hide IndexOf;
    ListedOnce(ids, existing, i);
    ListedOnce(ids, existing, j);
  }

  lemma {:induction false} DistinctIsSet(ids: seq<int>)
    requires forall i, j | 0 <= i < j < |ids| :: ids[i] != ids[j]
    ensures multiset(ids) == multiset((set x <- ids))
  {
    if ids != [] {
      DistinctIsSet(ids[1..]);
      assert ids == [ids[0]] + ids[1..];
      assert ids[0] !in ids[1..];
      assert (set x <- ids) == {ids[0]} + (set x <- ids[1..]);
    }
  }

  /** A saved order gives each folder its place in the list and changes nothing
      else; any other list changes nothing. */
  lemma ReorderFoldersReadsBack(page: Page, ids: seq<int>)
    ensures var (after, saved) := ReorderFolders(page, ids);
      && (saved <==> ListsExactly(ids, page.folders.Keys))
      && (!saved ==> after == page)
      && (saved ==>
            && after == page.(folders := after.folders) && after.folders.Keys == page.folders.Keys
            && (forall f <- page.folders :: after.folders[f].audience == page.folders[f].audience)
            && forall i | 0 <= i < |ids| :: ids[i] in after.folders && after.folders[ids[i]].position == i + 1)
  {
    hide IndexOf;
    if ListsExactly(ids, page.folders.Keys) {
      forall i | 0 <= i < |ids| ensures ids[i] in page.folders && IndexOf(ids, ids[i]) == i {
        ListedOnce(ids, page.folders.Keys, i);
      }
    }
  }

  /** The same of services, which keep folder, audience and following. */
  lemma ReorderServicesIs(page: Page, ids: seq<int>)
    ensures var (after, saved) := ReorderServices(page, ids);
      && (saved <==> ListsExactly(ids, page.services.Keys))
      && (!saved ==> after == page)
      && after == page.(services := after.services) && after.services.Keys == page.services.Keys
      && forall s <- page.services :: after.services[s] == page.services[s].(position := after.services[s].position)
  {
    hide IndexOf, ListsExactly;
  }

  /** A service deleted is gone, for every reader, and nothing else changes. */
  lemma DeleteServiceIs(page: Page, service: int, reader: Option<int>)
    ensures var after := DeleteService(page, service);
      && after == page.(services := page.services - {service})
      && VisibleIds(after, reader) == VisibleIds(page, reader) - {service}
  {}

  // ----- groups

  /** What a reader sees without a group: open to them, listed by name, or through
      another group. */
  ghost predicate SeesOtherwise(page: Page, reader: Option<int>, group: int, service: int) {
    && service in page.services
    && var audience := page.services[service].audience;
       match audience.visibility
       case Everyone => true
       case Members => reader.Some?
       case Groups =>
         reader.Some?
         && (reader.value in audience.members
             || exists g :: g != group && g in audience.groups && Membership(g, reader.value) in page.memberships)
  }

  /** A new group has no member and opens nothing. */
  lemma CreateGroupIs(page: Page)
    requires Sound(page)
    ensures var (after, id) := CreateGroup(page);
      && id !in page.groups
      && after == page.(groups := page.groups + {id}, next := page.next.(group := id + 1))
      && (forall m <- after.memberships :: m.group != id)
      && (forall s <- after.services :: id !in after.services[s].audience.groups)
      && (forall f <- after.folders :: id !in after.folders[f].audience.groups)
  {
    assert forall s <- page.services :: SoundService(page, page.services[s]);
  }

  /** A group deleted is nowhere any more, each reader sees what they saw without
      it, and nothing else changes. */
  lemma DeleteGroupIs(page: Page, group: int, reader: Option<int>)
    ensures var (after, found) := DeleteGroup(page, group);
      && (found <==> group in page.groups)
      && after.groups == page.groups - {group}
      && (forall m :: m in after.memberships <==> m in page.memberships && m.group != group)
      && after.services.Keys == page.services.Keys && after.folders.Keys == page.folders.Keys
      && (forall s <- page.services :: after.services[s] == page.services[s].(audience := after.services[s].audience)
            && group !in after.services[s].audience.groups)
      && (forall f <- page.folders :: after.folders[f].position == page.folders[f].position
            && group !in after.folders[f].audience.groups)
      && (forall s <- page.services :: Sees(after, reader, s) <==> SeesOtherwise(page, reader, group, s))
      && after.users == page.users && after.next == page.next
  {}

  /** The active readers listed are in the group, with its members before, and no
      one joins another; refused exactly when a reader would join no group. */
  lemma AddMembersIs(page: Page, group: int, users: seq<int>)
    requires Sound(page)
    ensures var (after, result) := AddMembers(page, group, users);
      && (result == Refused <==>
            (group !in page.groups
             && exists u :: u in users && u in page.users && page.users[u].role == Reader && page.users[u].active))
      && (result == Refused ==> after == page)
      && (result.Ok? ==>
            && after == page.(memberships := after.memberships)
            && (forall m :: m in after.memberships <==>
                  || m in page.memberships
                  || (m.group == group && m.user in users && m.user in page.users
                      && page.users[m.user].role == Reader && page.users[m.user].active))
            && result.value == |set u | u in users && IsActiveReader(page.users, u)
                                        && Membership(group, u) !in page.memberships|)
  {
    var joining := set u <- ActiveReaders(page.users, users) | Membership(group, u) !in page.memberships;
    assert forall u :: u in joining <==>
      u in users && IsActiveReader(page.users, u) && Membership(group, u) !in page.memberships;
    assert joining == set u | u in users && IsActiveReader(page.users, u) && Membership(group, u) !in page.memberships;
  }

  /** One membership goes and nothing else; false when there was none. */
  lemma RemoveMemberIs(page: Page, group: int, user: int)
    ensures var (after, found) := RemoveMember(page, group, user);
      && (found <==> Membership(group, user) in page.memberships)
      && after == page.(memberships := after.memberships)
      && forall m :: m in after.memberships <==> m in page.memberships && m != Membership(group, user)
  {}

  /** Opening to an existing group: restricted folders listed, with their
      followers, and restricted services listed that do not follow. Nothing else
      changes, and what was not open yet is told. */
  lemma OpenToIs(page: Page, group: int, folders: seq<int>, services: seq<int>)
    requires Sound(page)
    ensures var (after, openedFolders, openedServices) := OpenTo(page, group, folders, services);
      && after == page.(services := after.services, folders := after.folders)
      && after.services.Keys == page.services.Keys && after.folders.Keys == page.folders.Keys
      && (forall f <- page.folders ::
            var opens := group in page.groups && f in folders && page.folders[f].audience.visibility == Groups;
            && after.folders[f].position == page.folders[f].position
            && Opened(page.folders[f].audience, after.folders[f].audience, group, opens)
            && (f in openedFolders <==> opens && group !in page.folders[f].audience.groups))
      && (forall s <- page.services ::
            var was := page.services[s];
            var opens := group in page.groups && was.audience.visibility == Groups
              && if was.follows then was.folder.Some? && was.folder.value in folders else s in services;
            && after.services[s] == was.(audience := after.services[s].audience)
            && Opened(was.audience, after.services[s].audience, group, opens)
            && (s in openedServices <==> opens && !was.follows && group !in was.audience.groups))
  {
    forall s <- page.services ensures SoundService(page, page.services[s]) {}
  }

  /** Open to the group too when it opens, and else as it was. */
  predicate Opened(was: Audience, now: Audience, group: int, opens: bool) {
    && now.visibility == was.visibility && now.members == was.members
    && now.groups == (if opens then was.groups + {group} else was.groups)
  }

  /** A folder closed to a group is no longer open to it, nor are its followers:
      each reader sees those as they did without the group. Nothing else
      changes; false, and nothing at all, when it was not open to it. */
  lemma CloseFolderIs(page: Page, group: int, folder: int, reader: Option<int>)
    requires Sound(page)
    ensures var (after, closed) := CloseFolder(page, group, folder);
      && (closed <==> folder in page.folders && group in page.folders[folder].audience.groups)
      && (!closed ==> after == page)
      && after == page.(services := after.services, folders := after.folders)
      && after.services.Keys == page.services.Keys && after.folders.Keys == page.folders.Keys
      && (closed ==>
            && group !in after.folders[folder].audience.groups
            && Opened(after.folders[folder].audience, page.folders[folder].audience, group, true)
            && after.folders[folder].position == page.folders[folder].position)
      && (forall f <- page.folders :: f != folder ==> after.folders[f] == page.folders[f])
      && forall s <- page.services ::
           && after.services[s] == page.services[s].(audience := after.services[s].audience)
           && if closed && page.services[s].follows && page.services[s].folder == Some(folder)
              then (Sees(after, reader, s) <==> SeesOtherwise(page, reader, group, s))
                   && group !in after.services[s].audience.groups
              else after.services[s] == page.services[s]
  {
    hide Admits;
    var (after, closed) := CloseFolder(page, group, folder);
    forall s <- page.services
      ensures closed && page.services[s].follows && page.services[s].folder == Some(folder) ==>
        (Sees(after, reader, s) <==> SeesOtherwise(page, reader, group, s))
    {
      assert SoundService(page, page.services[s]);
      WithoutGroupIs(page, reader, group, s);
    }
  }

  lemma WithoutGroupIs(page: Page, reader: Option<int>, group: int, service: int)
    requires service in page.services
    ensures Admits(WithoutGroup(page.services[service].audience, group), page.memberships, reader)
       <==> SeesOtherwise(page, reader, group, service)
  {}

  /** The same of one service that does not follow. */
  lemma CloseServiceIs(page: Page, group: int, service: int, reader: Option<int>)
    ensures var (after, closed) := CloseService(page, group, service);
      && (closed <==> service in page.services && !page.services[service].follows
                      && group in page.services[service].audience.groups)
      && (!closed ==> after == page)
      && (closed ==>
            && after == page.(services := page.services[service := after.services[service]])
            && after.services[service] == page.services[service].(audience := after.services[service].audience)
            && group !in after.services[service].audience.groups
            && (Sees(after, reader, service) <==> SeesOtherwise(page, reader, group, service)))
  {}

  // ----- accounts

  /** A new account is in no group and named nowhere: it sees what is open to
      whoever is signed in. */
  lemma AccountIs(page: Page, user: User)
    requires Sound(page)
    ensures var (after, id) := CreateUser(page, user);
      && id !in page.users
      && after == page.(users := page.users[id := user], next := page.next.(user := id + 1))
      && forall s <- after.services :: Sees(after, Some(id), s) <==> after.services[s].audience.visibility != Groups
  {
    var id := CreateUser(page, user).1;
    assert forall m <- page.memberships :: m.user != id;
    assert forall s <- page.services :: SoundService(page, page.services[s]) && id !in page.services[s].audience.members;
  }

  /** An account's role given or taken, or its state, changes that account alone,
      and nobody's view. */
  lemma ChangedAccountIs(page: Page, id: int, user: User, reader: Option<int>)
    ensures var after := ChangeUser(page, id, user);
      && after == page.(users := after.users) && after.users.Keys == page.users.Keys
      && (forall u <- page.users :: after.users[u] == if u == id then user else page.users[u])
      && VisibleIds(after, reader) == VisibleIds(page, reader)
  {}

  /** An account deleted is nowhere any more, and nothing else changes. */
  lemma DeleteUserIs(page: Page, user: int)
    ensures var after := DeleteUser(page, user);
      && after.users == page.users - {user} && after.groups == page.groups && after.next == page.next
      && (forall m :: m in after.memberships <==> m in page.memberships && m.user != user)
      && after.services.Keys == page.services.Keys && after.folders.Keys == page.folders.Keys
      && (forall s <- page.services ::
            && after.services[s] == page.services[s].(audience := after.services[s].audience)
            && after.services[s].audience.visibility == page.services[s].audience.visibility
            && after.services[s].audience.groups == page.services[s].audience.groups
            && after.services[s].audience.members == page.services[s].audience.members - {user})
      && forall f <- page.folders ::
           && after.folders[f].position == page.folders[f].position
           && after.folders[f].audience.visibility == page.folders[f].audience.visibility
           && after.folders[f].audience.groups == page.folders[f].audience.groups
           && after.folders[f].audience.members == page.folders[f].audience.members - {user}
  {}
}
