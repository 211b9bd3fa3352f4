/**
 Who sees a service. A service that follows its folder carries a copy of the
 folder's audience, and the read rule looks at services only, so every
 operation has to keep the copies in step. Here each operation is its effect
 on the page as a whole; `AccessStore` carries them out on the tables.
 */
module Audiences {
  import opened Prelude

  datatype Visibility = Everyone | Members | Groups

  datatype Role = Reader | Publisher | Admin

  datatype User = User(role: Role, active: bool)

  /** Who a service or a folder is for. The groups and members only count
      when the visibility is `Groups`. */
  datatype Audience = Audience(visibility: Visibility, groups: set<int>, members: set<int>)

  datatype Service = Service(audience: Audience, folder: Option<int>, follows: bool, position: int)

  datatype Folder = Folder(audience: Audience, position: int)

  datatype Membership = Membership(group: int, user: int)

  /** What an administrator asks to open a service or a folder to. */
  datatype Grants = Grants(groups: seq<int>, members: seq<int>)

  /** The next id of each table; an id is never given twice. */
  datatype NextIds = NextIds(user: int, group: int, service: int, folder: int)

  datatype Page = Page(
    users: map<int, User>,
    groups: set<int>,
    memberships: set<Membership>,
    services: map<int, Service>,
    folders: map<int, Folder>,
    next: NextIds)

  const EMPTY := Page(map[], {}, {}, map[], map[], NextIds(1, 1, 1, 1))

  // ----- the read rule

  /** Whether an audience lets a reader in; `None` is a visitor not signed in. */
  predicate Admits(audience: Audience, memberships: set<Membership>, reader: Option<int>) {
    match audience.visibility
    case Everyone => true
    case Members => reader.Some?
    case Groups =>
      reader.Some? &&
      (reader.value in audience.members
       || exists g <- audience.groups :: Membership(g, reader.value) in memberships)
  }

  predicate Sees(page: Page, reader: Option<int>, service: int) {
    service in page.services && Admits(page.services[service].audience, page.memberships, reader)
  }

  /** The services this reader may see. */
  function VisibleIds(page: Page, reader: Option<int>): set<int> {
    set s <- page.services | Sees(page, reader, s)
  }

  // ----- the operations

  predicate IsActiveReader(users: map<int, User>, user: int) {
    user in users && users[user] == User(Reader, true)
  }

  /** The audience a choice gives: groups that exist and active readers. */
  function Chosen(page: Page, visibility: Visibility, grants: Grants): Audience {
    if visibility != Groups then Audience(visibility, {}, {})
    else Audience(Groups, KnownGroups(page.groups, grants.groups), ActiveReaders(page.users, grants.members))
  }

  function KnownGroups(groups: set<int>, ids: seq<int>): set<int> {
    set g <- ids | g in groups
  }

  function ActiveReaders(users: map<int, User>, ids: seq<int>): set<int> {
    set u <- ids | IsActiveReader(users, u)
  }

  predicate FollowsFolder(service: Service, folder: int) {
    service.follows && service.folder == Some(folder)
  }

  /** Copies the folder's audience to every service that follows it. */
  function Propagate(page: Page, folder: int): Page {
    if folder !in page.folders then page
    else page.(services := map s <- page.services ::
      if FollowsFolder(page.services[s], folder)
      then page.services[s].(audience := page.folders[folder].audience)
      else page.services[s])
  }

  /** The last position in use, or 0. */
  function LastPosition(positions: set<int>): (last: int)
    ensures forall p <- positions :: p <= last
    ensures if positions == {} then last == 0 else last in positions
  {
    if positions == {} then 0 else Greatest(positions)
  }

  function ServicePositions(page: Page): set<int> {
    set s <- page.services :: page.services[s].position
  }

  function FolderPositions(page: Page): set<int> {
    set f <- page.folders :: page.folders[f].position
  }

  /** Where `x` first comes in `xs`. */
  function IndexOf(xs: seq<int>, x: int): (i: nat)
    requires x in xs
    ensures i < |xs| && xs[i] == x && x !in xs[..i]
  {
    if xs[0] == x then 0 else 1 + IndexOf(xs[1..], x)
  }

  function CreateFolder(page: Page): (Page, int) {
    var id := page.next.folder;
    var folder := Folder(Audience(Everyone, {}, {}), LastPosition(FolderPositions(page)) + 1);
    (page.(folders := page.folders[id := folder], next := page.next.(folder := id + 1)), id)
  }

  /** A service created in a folder, following it; refused for no such folder. */
  function CreateInFolder(page: Page, folder: int): (Page, Result<int>) {
    if folder !in page.folders then (page, Refused)
    else
      var id := page.next.service;
      var service := Service(page.folders[folder].audience, Some(folder), true,
                             LastPosition(ServicePositions(page)) + 1);
      (page.(services := page.services[id := service], next := page.next.(service := id + 1)), Ok(id))
  }

  function SaveSettings(page: Page, folder: int, visibility: Visibility, grants: Grants): (Page, bool) {
    if folder !in page.folders then (page, false)
    else
      var saved := page.folders[folder].(audience := Chosen(page, visibility, grants));
      (Propagate(page.(folders := page.folders[folder := saved]), folder), true)
  }

  /** Listed, known, and not in the folder yet. */
  predicate Joins(page: Page, folder: int, ids: seq<int>, service: int) {
    && folder in page.folders && service in ids
    && service in page.services && page.services[service].folder != Some(folder)
  }

  /** A service follows the folder it joins when it was open to everyone or
      already had exactly the folder's audience. */
  function Joined(page: Page, folder: int, ids: seq<int>, service: int): Service
    requires Joins(page, folder, ids, service)
  {
    var was := page.services[service];
    Service(was.audience,
            Some(folder),
            was.audience.visibility == Everyone || was.audience == page.folders[folder].audience,
            LastPosition(ServicePositions(page)) + 1 + IndexOf(ids, service))
  }

  /** Returns the services that joined, each with whether it follows now. */
  function AddServices(page: Page, folder: int, ids: seq<int>): (Page, map<int, bool>) {
    var services := map s <- page.services ::
      if Joins(page, folder, ids, s) then Joined(page, folder, ids, s) else page.services[s];
    (Propagate(page.(services := services), folder),
     map s <- page.services | Joins(page, folder, ids, s) :: Joined(page, folder, ids, s).follows)
  }

  function Follow(page: Page, folder: int, service: int): (Page, bool) {
    if service !in page.services || page.services[service].folder != Some(folder) then (page, false)
    else
      var follower := page.services[service].(follows := true);
      (Propagate(page.(services := page.services[service := follower]), folder), true)
  }

  function Leave(service: Service): Service {
    service.(folder := None, follows := false)
  }

  function RemoveService(page: Page, folder: int, service: int): (Page, bool) {
    if service !in page.services || page.services[service].folder != Some(folder) then (page, false)
    else (page.(services := page.services[service := Leave(page.services[service])]), true)
  }

  function DeleteFolder(page: Page, folder: int): (Page, bool) {
    (page.(folders := page.folders - {folder},
           services := map s <- page.services ::
             if page.services[s].folder == Some(folder) then Leave(page.services[s]) else page.services[s]),
     folder in page.folders)
  }

  /** Each of `ids` once and nothing else. */
  predicate ListsExactly(ids: seq<int>, existing: set<int>) {
    multiset(ids) == multiset(existing)
  }

  function ReorderFolders(page: Page, ids: seq<int>): (Page, bool) {
    if !ListsExactly(ids, page.folders.Keys) then (page, false)
    else (page.(folders := map f <- page.folders ::
            if f in ids then page.folders[f].(position := IndexOf(ids, f) + 1) else page.folders[f]), true)
  }

  function ReorderServices(page: Page, ids: seq<int>): (Page, bool) {
    if !ListsExactly(ids, page.services.Keys) then (page, false)
    else (page.(services := map s <- page.services ::
            if s in ids then page.services[s].(position := IndexOf(ids, s) + 1) else page.services[s]), true)
  }

  function CreateService(page: Page, visibility: Visibility, grants: Grants): (Page, int) {
    var id := page.next.service;
    var service := Service(Chosen(page, visibility, grants), None, false,
                           LastPosition(ServicePositions(page)) + 1);
    (page.(services := page.services[id := service], next := page.next.(service := id + 1)), id)
  }

  /** Refused when it would open a service that does not exist to someone. */
  function SetVisibility(page: Page, service: int, visibility: Visibility, grants: Grants): (Page, Result<()>) {
    var audience := Chosen(page, visibility, grants);
    if service in page.services then
      var own := page.services[service].(audience := audience, follows := false);
      (page.(services := page.services[service := own]), Ok(()))
    else if audience.groups == {} && audience.members == {} then (page, Ok(()))
    else (page, Refused)
  }

  function DeleteService(page: Page, service: int): Page {
    page.(services := page.services - {service})
  }

  function CreateGroup(page: Page): (Page, int) {
    var id := page.next.group;
    (page.(groups := page.groups + {id}, next := page.next.(group := id + 1)), id)
  }

  function WithoutGroup(audience: Audience, group: int): Audience {
    audience.(groups := audience.groups - {group})
  }

  function WithoutMember(audience: Audience, user: int): Audience {
    audience.(members := audience.members - {user})
  }

  /** Memberships and accesses of the group go with it. */
  function DeleteGroup(page: Page, group: int): (Page, bool) {
    (page.(groups := page.groups - {group},
           memberships := (set m <- page.memberships | m.group != group),
           services := map s <- page.services ::
             page.services[s].(audience := WithoutGroup(page.services[s].audience, group)),
           folders := map f <- page.folders ::
             page.folders[f].(audience := WithoutGroup(page.folders[f].audience, group))),
     group in page.groups)
  }

  /** Refused when a reader would join a group that does not exist. */
  function AddMembers(page: Page, group: int, users: seq<int>): (Page, Result<nat>) {
    var joining := set u <- ActiveReaders(page.users, users) | Membership(group, u) !in page.memberships;
    if joining != {} && group !in page.groups then (page, Refused)
    else (page.(memberships := page.memberships + (set u <- joining :: Membership(group, u))), Ok(|joining|))
  }

  function RemoveMember(page: Page, group: int, user: int): (Page, bool) {
    (page.(memberships := page.memberships - {Membership(group, user)}),
     Membership(group, user) in page.memberships)
  }

  /** Restricted and not open to the group yet. */
  predicate CanOpen(audience: Audience, group: int) {
    audience.visibility == Groups && group !in audience.groups
  }

  function WithGroup(audience: Audience, group: int): Audience {
    audience.(groups := audience.groups + {group})
  }

  function OpenedFolders(page: Page, group: int, ids: seq<int>): set<int> {
    set f <- page.folders | group in page.groups && f in ids && CanOpen(page.folders[f].audience, group)
  }

  function OpenedServices(page: Page, group: int, ids: seq<int>): set<int> {
    set s <- page.services |
      && group in page.groups && s in ids && !page.services[s].follows
      && CanOpen(page.services[s].audience, group)
  }

  predicate FollowsOneOf(service: Service, folders: set<int>) {
    service.follows && service.folder.Some? && service.folder.value in folders
  }

  /** Opens restricted folders, with their followers, and restricted services
      of their own; returns those it opened. */
  function OpenTo(page: Page, group: int, folders: seq<int>, services: seq<int>): (Page, set<int>, set<int>) {
    var openedFolders := OpenedFolders(page, group, folders);
    var own := OpenedServices(page, group, services);
    (page.(folders := map f <- page.folders ::
             if f in openedFolders then page.folders[f].(audience := WithGroup(page.folders[f].audience, group))
             else page.folders[f],
           services := map s <- page.services ::
             if s in own || FollowsOneOf(page.services[s], openedFolders)
             then page.services[s].(audience := WithGroup(page.services[s].audience, group))
             else page.services[s]),
     openedFolders, own)
  }

  function CloseFolder(page: Page, group: int, folder: int): (Page, bool) {
    if folder !in page.folders || group !in page.folders[folder].audience.groups then (page, false)
    else
      var closed := page.folders[folder].(audience := WithoutGroup(page.folders[folder].audience, group));
      (Propagate(page.(folders := page.folders[folder := closed]), folder), true)
  }

  function CloseService(page: Page, group: int, service: int): (Page, bool) {
    if || service !in page.services || page.services[service].follows
       || group !in page.services[service].audience.groups
    then (page, false)
    else
      var closed := page.services[service].(audience := WithoutGroup(page.services[service].audience, group));
      (page.(services := page.services[service := closed]), true)
  }

  function CreateUser(page: Page, user: User): (Page, int) {
    var id := page.next.user;
    (page.(users := page.users[id := user], next := page.next.(user := id + 1)), id)
  }

  /** A role given or taken, an account enabled or disabled. */
  function ChangeUser(page: Page, id: int, user: User): Page {
    if id in page.users then page.(users := page.users[id := user]) else page
  }

  /** Memberships and accesses of the account go with it. */
  function DeleteUser(page: Page, user: int): Page {
    page.(users := page.users - {user},
          memberships := (set m <- page.memberships | m.user != user),
          services := map s <- page.services ::
            page.services[s].(audience := WithoutMember(page.services[s].audience, user)),
          folders := map f <- page.folders ::
            page.folders[f].(audience := WithoutMember(page.folders[f].audience, user)))
  }

  /** The restricted services this group alone opens, and no member by name. */
  function ClosedByDeleting(page: Page, group: int): set<int> {
    set s <- page.services |
      && page.services[s].audience.visibility == Groups
      && group in page.services[s].audience.groups
      && |page.services[s].audience.groups| == 1
      && page.services[s].audience.members == {}
  }
}
