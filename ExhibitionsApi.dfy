/**
 * ExhibitionsApiImpl: the request handlers' decision chains.
 *
 * Every handler is a chain of early returns (missing body, missing path
 * id, failed lookup, no logged-in user, ownership mismatch) that ends in a
 * write. The chains whose write goes to a controller outside this model
 * are functions returning the response; `Ok` or `NoContent` there means
 * the write is reached. The visitor-session and content-version handlers
 * are methods that resolve every referenced id in a loop and only then
 * call the controllers of this model.
 */
module Api {
  import opened Common
  import opened Reconcile
  import opened Sessions
  import opened ContentVersionDao
  import opened ContentVersionControl

  /**
   * The status of a handler's response. ServerError is the 500 of the
   * NullPointerException that `!!` throws when a found entity has no
   * exhibition.
   */
  datatype Response = Ok | NoContent | BadRequest | NotFound | Unauthorized | ServerError

  /**
   * The stored entities as the chains see them: the exhibition ids and, for
   * each room, device, RFID antenna and device group, the exhibition it
   * belongs to (a nullable reference in the entity).
   */
  datatype World = World(
    exhibitions: set<Id>,
    rooms: map<Id, Option<Id>>,
    devices: map<Id, Option<Id>>,
    antennas: map<Id, Option<Id>>,
    deviceGroups: map<Id, Option<Id>>)

  datatype ExhibitionInput = ExhibitionInput(name: Option<string>)

  datatype AntennaInput = AntennaInput(name: Option<string>, readerId: Option<string>, groupId: Option<Id>, roomId: Option<Id>)

  datatype DeviceGroupInput = DeviceGroupInput(roomId: Option<Id>)

  datatype SessionInput = SessionInput(
    state: SessionState,
    visitorIds: seq<Id>,
    visitedDeviceGroups: seq<Id>,
    variables: seq<VariableInput>)

  datatype VersionInput = VersionInput(name: string, language: string, rooms: seq<Id>)

  /** The realtime notifications the session handlers emit. */
  datatype Notification =
    | SessionCreated(exhibition: Id, session: Id)
    | SessionUpdated(exhibition: Id, session: Id, variablesChanged: bool, usersChanged: bool)

  /** The answer of listContentVersions: a rejection or the listed versions. */
  datatype Listing = Rejected(response: Response) | Listed(versions: seq<ContentVersion>)

  /** Every id of the list resolves. */
  predicate AllIn(ids: seq<Id>, known: set<Id>)
  {
    forall i :: i in ids ==> i in known
  }

  /** `name == null || name.isEmpty()`: whitespace alone is not empty. */
  predicate NullOrEmpty(s: Option<string>)
  {
    s.None? || s.value == []
  }

  /** The payload checks shared by createRfidAntenna and updateRfidAntenna, in their order. */
  function AntennaFields(w: World, p: AntennaInput): (r: Response)
    ensures r == Ok <==>
      && !NullOrEmpty(p.name) && !NullOrEmpty(p.readerId)
      && (p.groupId.Some? ==> p.groupId.value in w.deviceGroups)
      && (p.roomId.Some? ==> p.roomId.value in w.rooms)
    ensures r == Ok || r == BadRequest
  {
    if NullOrEmpty(p.name) then BadRequest
    else if NullOrEmpty(p.readerId) then BadRequest
    else if p.groupId.Some? && p.groupId.value !in w.deviceGroups then BadRequest
    else if p.roomId.Some? && p.roomId.value !in w.rooms then BadRequest
    else Ok
  }

  // ---------------------------------------------------------------------
  // Chains over the world
  // ---------------------------------------------------------------------

  /**
   * The find handlers of rooms, devices, RFID antennas, device groups and
   * content versions: both path ids, the user, the exhibition, the child,
   * and then the child must belong to the path's exhibition.
   */
  function FindOwned(exhibitions: set<Id>, owners: map<Id, Option<Id>>, user: Option<Id>,
                     exhibitionId: Option<Id>, childId: Option<Id>): (r: Response)
    ensures r == Ok <==>
      && exhibitionId.Some? && childId.Some? && user.Some? && exhibitionId.value in exhibitions
      && childId.value in owners && owners[childId.value] == exhibitionId
    ensures r == Unauthorized <==> exhibitionId.Some? && childId.Some? && user.None?
    ensures r == ServerError <==>
      && exhibitionId.Some? && childId.Some? && user.Some? && exhibitionId.value in exhibitions
      && childId.value in owners && owners[childId.value].None?
    ensures r in {Ok, NotFound, Unauthorized, ServerError}
    ensures (&& exhibitionId.Some? && childId.Some? && user.Some? && childId.value in owners
             && owners[childId.value].Some? && owners[childId.value] != exhibitionId) ==> r == NotFound
  {
    if exhibitionId.None? || childId.None? then NotFound
    else if user.None? then Unauthorized
    else if exhibitionId.value !in exhibitions then NotFound
    else if childId.value !in owners then NotFound
    else if owners[childId.value].None? then ServerError
    else if owners[childId.value] != exhibitionId then NotFound
    else Ok
  }

  /** createExhibition: the body, a non-blank name, then the user. */
  function CreateExhibitionChain(payload: Option<ExhibitionInput>, user: Option<Id>): (r: Response)
    ensures r == Ok <==> payload.Some? && !IsBlankOrNull(payload.value.name) && user.Some?
    ensures r == Unauthorized <==> payload.Some? && !IsBlankOrNull(payload.value.name) && user.None?
    ensures r == BadRequest <==> payload.None? || IsBlankOrNull(payload.value.name)
  {
    if payload.None? then BadRequest
    else if IsBlankOrNull(payload.value.name) then BadRequest
    else if user.None? then Unauthorized
    else Ok
  }

  /**
   * createRfidAntenna: the body, the exhibition, the user, then the name,
   * the reader id, the device group and the room; the first failure is
   * the response.
   */
  function CreateAntennaChain(w: World, user: Option<Id>, exhibitionId: Option<Id>, payload: Option<AntennaInput>): (r: Response)
    ensures r == NotFound <==> payload.Some? && (exhibitionId.None? || exhibitionId.value !in w.exhibitions)
    ensures r == Unauthorized <==>
      payload.Some? && exhibitionId.Some? && exhibitionId.value in w.exhibitions && user.None?
    ensures r == Ok <==>
      && payload.Some? && exhibitionId.Some? && exhibitionId.value in w.exhibitions && user.Some?
      && AntennaFields(w, payload.value) == Ok
    ensures r in {Ok, BadRequest, NotFound, Unauthorized}
  {
    if payload.None? then BadRequest
    else if exhibitionId.None? then NotFound
    else if exhibitionId.value !in w.exhibitions then NotFound
    else if user.None? then Unauthorized
    else AntennaFields(w, payload.value)
  }

  /**
   * updateRfidAntenna: the body, both path ids, the exhibition, the user,
   * the antenna and its exhibition, and only then the payload's fields.
   */
  function UpdateAntennaChain(w: World, user: Option<Id>, exhibitionId: Option<Id>, antennaId: Option<Id>,
                              payload: Option<AntennaInput>): (r: Response)
    ensures r == Ok <==>
      && payload.Some? && exhibitionId.Some? && antennaId.Some? && exhibitionId.value in w.exhibitions
      && user.Some? && antennaId.value in w.antennas && w.antennas[antennaId.value] == exhibitionId
      && AntennaFields(w, payload.value) == Ok
    ensures r == Unauthorized <==>
      payload.Some? && exhibitionId.Some? && antennaId.Some? && exhibitionId.value in w.exhibitions && user.None?
    ensures r == BadRequest <==> (
      || payload.None?
      || (&& exhibitionId.Some? && antennaId.Some? && exhibitionId.value in w.exhibitions && user.Some?
          && antennaId.value in w.antennas && w.antennas[antennaId.value] == exhibitionId
          && AntennaFields(w, payload.value) == BadRequest))
    ensures
      && payload.Some? && exhibitionId.Some? && exhibitionId.value in w.exhibitions && user.Some?
      && antennaId.Some? && antennaId.value in w.antennas && w.antennas[antennaId.value].Some?
      && w.antennas[antennaId.value] != exhibitionId
      ==> r == NotFound
  {
    if payload.None? then BadRequest
    else if exhibitionId.None? || antennaId.None? then NotFound
    else if exhibitionId.value !in w.exhibitions then NotFound
    else if user.None? then Unauthorized
    else if antennaId.value !in w.antennas then NotFound
    else if w.antennas[antennaId.value].None? then ServerError
    else if w.antennas[antennaId.value] != exhibitionId then NotFound
    else AntennaFields(w, payload.value)
  }

  /**
   * updateExhibitionDeviceGroup: the body, both path ids, the user, the
   * exhibition, the payload's room, then the device group. The group's
   * own exhibition is not compared with the path's.
   */
  function UpdateDeviceGroupChain(w: World, user: Option<Id>, exhibitionId: Option<Id>, groupId: Option<Id>,
                                  payload: Option<DeviceGroupInput>): (r: Response)
    ensures r == Ok <==>
      && payload.Some? && exhibitionId.Some? && groupId.Some? && user.Some?
      && exhibitionId.value in w.exhibitions
      && payload.value.roomId.Some? && payload.value.roomId.value in w.rooms
      && groupId.value in w.deviceGroups
    ensures r == BadRequest <==> payload.None?
    ensures payload.Some? && groupId.Some? && user.Some? && exhibitionId.Some? && exhibitionId.value !in w.exhibitions
      ==> r == NotFound
    ensures r in {Ok, BadRequest, NotFound, Unauthorized}
  {
    if payload.None? then BadRequest
    else if exhibitionId.None? then NotFound
    else if groupId.None? then NotFound
    else if user.None? then Unauthorized
    else if exhibitionId.value !in w.exhibitions then NotFound
    else if payload.value.roomId.None? || payload.value.roomId.value !in w.rooms then NotFound
    else if groupId.value !in w.deviceGroups then NotFound
    else Ok
  }

  /**
   * deleteExhibitionDeviceGroup: both path ids, the user, the exhibition,
   * then the device group.
   */
  function DeleteDeviceGroupChain(w: World, user: Option<Id>, exhibitionId: Option<Id>, groupId: Option<Id>): (r: Response)
    ensures r == NoContent <==>
      exhibitionId.Some? && groupId.Some? && user.Some? && exhibitionId.value in w.exhibitions && groupId.value in w.deviceGroups
    ensures r == Unauthorized <==> exhibitionId.Some? && groupId.Some? && user.None?
    ensures groupId.Some? && user.Some? && exhibitionId.Some? && exhibitionId.value !in w.exhibitions ==> r == NotFound
    ensures r in {NoContent, NotFound, Unauthorized}
  {
    if exhibitionId.None? then NotFound
    else if groupId.None? then NotFound
    else if user.None? then Unauthorized
    else if exhibitionId.value !in w.exhibitions then NotFound
    else if groupId.value !in w.deviceGroups then NotFound
    else NoContent
  }

  /**
   * createVisitorSession: the body, the exhibition, the user, every
   * visitor id, then every visited device-group id.
   */
  function CreateSessionChain(exhibitions: set<Id>, visitors: set<Id>, groups: set<Id>, user: Option<Id>,
                              exhibitionId: Option<Id>, payload: Option<SessionInput>): (r: Response)
    ensures r == Ok <==>
      && payload.Some? && exhibitionId.Some? && exhibitionId.value in exhibitions && user.Some?
      && AllIn(payload.value.visitorIds, visitors) && AllIn(payload.value.visitedDeviceGroups, groups)
    ensures r == BadRequest <==> (
      || payload.None?
      || (&& exhibitionId.Some? && exhibitionId.value in exhibitions && user.Some?
          && !(AllIn(payload.value.visitorIds, visitors) && AllIn(payload.value.visitedDeviceGroups, groups))))
    ensures r in {Ok, BadRequest, NotFound, Unauthorized}
  {
    if payload.None? then BadRequest
    else if exhibitionId.None? || exhibitionId.value !in exhibitions then NotFound
    else if user.None? then Unauthorized
    else if !AllIn(payload.value.visitorIds, visitors) then BadRequest
    else if !AllIn(payload.value.visitedDeviceGroups, groups) then BadRequest
    else Ok
  }

  /**
   * updateVisitorSession: the body, both path ids, the user, the
   * exhibition, the session, every visitor id, then every visited
   * device-group id. The session's exhibition is not compared with the
   * path's.
   */
  function UpdateSessionChain(exhibitions: set<Id>, sessionIds: set<Id>, visitors: set<Id>, groups: set<Id>,
                              user: Option<Id>, exhibitionId: Option<Id>, sessionId: Option<Id>,
                              payload: Option<SessionInput>): (r: Response)
    ensures r == Ok <==>
      && payload.Some? && exhibitionId.Some? && sessionId.Some? && user.Some?
      && exhibitionId.value in exhibitions && sessionId.value in sessionIds
      && AllIn(payload.value.visitorIds, visitors) && AllIn(payload.value.visitedDeviceGroups, groups)
    ensures r == Unauthorized <==> payload.Some? && exhibitionId.Some? && sessionId.Some? && user.None?
    ensures r in {Ok, BadRequest, NotFound, Unauthorized}
  {
    if payload.None? then BadRequest
    else if exhibitionId.None? || sessionId.None? then NotFound
    else if user.None? then Unauthorized
    else if exhibitionId.value !in exhibitions || sessionId.value !in sessionIds then NotFound
    else if !AllIn(payload.value.visitorIds, visitors) then BadRequest
    else if !AllIn(payload.value.visitedDeviceGroups, groups) then BadRequest
    else Ok
  }

  /** createContentVersion: the body, the exhibition, the user, then every room id. */
  function CreateVersionChain(w: World, user: Option<Id>, exhibitionId: Option<Id>, payload: Option<VersionInput>): (r: Response)
    ensures r == Ok <==>
      && payload.Some? && exhibitionId.Some? && exhibitionId.value in w.exhibitions && user.Some?
      && AllIn(payload.value.rooms, w.rooms.Keys)
    ensures r == BadRequest <==> (
      || payload.None?
      || (&& exhibitionId.Some? && exhibitionId.value in w.exhibitions && user.Some?
          && !AllIn(payload.value.rooms, w.rooms.Keys)))
    ensures r in {Ok, BadRequest, NotFound, Unauthorized}
  {
    if payload.None? then BadRequest
    else if exhibitionId.None? || exhibitionId.value !in w.exhibitions then NotFound
    else if user.None? then Unauthorized
    else if !AllIn(payload.value.rooms, w.rooms.Keys) then BadRequest
    else Ok
  }

  /**
   * updateContentVersion: the body, both path ids, the user, the
   * exhibition, the content version, then every room id. The version's
   * exhibition is not compared with the path's.
   */
  function UpdateVersionChain(w: World, versionIds: set<Id>, user: Option<Id>, exhibitionId: Option<Id>,
                              versionId: Option<Id>, payload: Option<VersionInput>): (r: Response)
    ensures r == Ok <==>
      && payload.Some? && exhibitionId.Some? && versionId.Some? && user.Some?
      && exhibitionId.value in w.exhibitions && versionId.value in versionIds
      && AllIn(payload.value.rooms, w.rooms.Keys)
    ensures r == BadRequest <==> (
      || payload.None?
      || (&& exhibitionId.Some? && versionId.Some? && user.Some?
          && exhibitionId.value in w.exhibitions && versionId.value in versionIds
          && !AllIn(payload.value.rooms, w.rooms.Keys)))
    ensures r in {Ok, BadRequest, NotFound, Unauthorized}
  {
    if payload.None? then BadRequest
    else if exhibitionId.None? || versionId.None? then NotFound
    else if user.None? then Unauthorized
    else if exhibitionId.value !in w.exhibitions || versionId.value !in versionIds then NotFound
    else if !AllIn(payload.value.rooms, w.rooms.Keys) then BadRequest
    else Ok
  }

  /**
   * The `for (id in ids) { find(id) ?: return createBadRequest(...) }`
   * loops: true when every id resolves, false at the first that does not.
   */
  method ResolveAll(ids: seq<Id>, known: set<Id>) returns (ok: bool)
    ensures ok <==> AllIn(ids, known)
  {
    var i := 0;
    while i < |ids|
      invariant 0 <= i <= |ids|
      invariant forall j :: 0 <= j < i ==> ids[j] in known
    {
      if ids[i] !in known {
        return false;
      }
      i := i + 1;
    }
    return true;
  }

  /** The content versions' exhibitions, keyed by version id (what the find handler looks at). */
  function VersionOwners(versions: seq<ContentVersion>): (r: map<Id, Option<Id>>)
    ensures r.Keys == VersionIds(versions)
    ensures forall id :: id in r ==> FindVersion(versions, id).Some? && r[id] == FindVersion(versions, id).value.exhibition
  {
    map id | id in VersionIds(versions) :: FindVersion(versions, id).value.exhibition
  }

  class ExhibitionsApi {
    const sessions: VisitorSessionController
    const contents: ContentVersionController
    var world: World
    /** Every exhibition id handed out so far is below nextId. */
    var nextId: Id

    ghost predicate Valid()
      reads this, sessions, contents, contents.dao
    {
      && sessions.Valid() && contents.Valid()
      && forall e :: e in world.exhibitions ==> e < nextId
    }

    constructor (sessions: VisitorSessionController, contents: ContentVersionController, world: World, nextId: Id)
      requires sessions.Valid() && contents.Valid()
      requires forall e :: e in world.exhibitions ==> e < nextId
      ensures Valid()
      ensures this.sessions == sessions && this.contents == contents && this.world == world && this.nextId == nextId
    {
      this.sessions := sessions;
      this.contents := contents;
      this.world := world;
      this.nextId := nextId;
    }

    /** createExhibition: a fresh exhibition, only when the chain lets the request through. */
    method CreateExhibition(payload: Option<ExhibitionInput>, user: Option<Id>) returns (r: Response)
      requires Valid()
      modifies this
      ensures Valid()
      ensures r == CreateExhibitionChain(payload, user)
      ensures r == Ok ==> world == old(world).(exhibitions := old(world).exhibitions + {old(nextId)})
      ensures r == Ok ==> old(nextId) !in old(world).exhibitions && nextId == old(nextId) + 1
      ensures r != Ok ==> world == old(world) && nextId == old(nextId)
    {
      if payload.None? {
        return BadRequest;
      }
      if IsBlankOrNull(payload.value.name) {
        return BadRequest;
      }
      if user.None? {
        return Unauthorized;
      }
      world := world.(exhibitions := world.exhibitions + {nextId});
      nextId := nextId + 1;
      r := Ok;
    }

    /** findContentVersion */
    function FindContentVersion(user: Option<Id>, exhibitionId: Option<Id>, versionId: Option<Id>): (r: Response)
      reads this, contents, contents.dao
      ensures r == Ok <==>
        && exhibitionId.Some? && versionId.Some? && user.Some? && exhibitionId.value in world.exhibitions
        && contents.FindContentVersionById(versionId.value).Some?
        && contents.FindContentVersionById(versionId.value).value.exhibition == exhibitionId
    {
      FindOwned(world.exhibitions, VersionOwners(contents.dao.versions), user, exhibitionId, versionId)
    }

    /**
     * listContentVersions: the exhibition must exist; no user is required.
     * A room id that does not resolve is treated as no room, so the
     * exhibition's versions are listed.
     */
    function ListContentVersions(exhibitionId: Option<Id>, roomId: Option<Id>): (r: Listing)
      reads this, contents, contents.dao
      ensures r.Rejected? <==> exhibitionId.None? || exhibitionId.value !in world.exhibitions
      ensures r.Rejected? ==> r.response == NotFound
      ensures r.Listed? && (roomId.None? || roomId.value !in world.rooms) ==>
        forall v :: v in r.versions <==> v in contents.dao.versions && v.exhibition == exhibitionId
      ensures r.Listed? && roomId.Some? && roomId.value in world.rooms ==>
        forall v :: v in r.versions <==>
          v in contents.dao.versions && exists l :: l in contents.versionRooms && l.owner == v.id && l.target == roomId.value
    {
      if exhibitionId.None? || exhibitionId.value !in world.exhibitions then Rejected(NotFound)
      else
        var room := if roomId.Some? && roomId.value in world.rooms then roomId else None;
        Listed(contents.ListContentVersions(exhibitionId.value, room))
    }

    /**
     * The writes of createVisitorSession: the session, its visitor links,
     * its variables. The visitors linked to the new session are exactly the
     * requested ones.
     */
    method WriteNewSession(exhibition: Id, input: SessionInput, user: Id) returns (sid: Id)
      requires sessions.Valid() && AllIn(input.visitorIds, VisitorIds(sessions.visitors))
      modifies sessions
      ensures sessions.Valid()
      ensures sid == old(sessions.nextId)
      ensures sessions.sessions == old(sessions.sessions) + [VisitorSession(sid, exhibition, input.state, user, user)]
      ensures multiset(Targets(OwnedBy(sessions.sessionVisitors, sid))) == multiset(input.visitorIds)
    {
      ghost var links0 := sessions.sessionVisitors;
      var s := sessions.CreateVisitorSession(exhibition, input.state, user);
      sid := s.id;
      ghost var next1 := sessions.nextId;
      assert sessions.sessionVisitors == links0 && next1 == sid + 1;
      var usersChanged := sessions.SetVisitorSessionVisitors(sid, input.visitorIds);
      ghost var links2 := sessions.sessionVisitors;
      assert links2 == SetLinks(links0, sid, input.visitorIds, next1);
      var variablesChanged := sessions.SetVisitorSessionVariables(sid, input.variables);
      assert sessions.sessionVisitors == links2;
      SetLinksTargets(links0, sid, input.visitorIds, next1);
    }

    /**
     * createVisitorSession: resolves every visitor and visited device group
     * before writing; then creates the session, links the visitors, sets the
     * variables and announces the new session.
     */
    method CreateVisitorSession(exhibitionId: Option<Id>, payload: Option<SessionInput>, user: Option<Id>)
      returns (r: Response, event: Option<Notification>)
      requires Valid()
      modifies sessions
      ensures Valid()
      ensures r == CreateSessionChain(world.exhibitions, VisitorIds(old(sessions.visitors)), world.deviceGroups.Keys,
        user, exhibitionId, payload)
      ensures r != Ok ==> event.None? && unchanged(sessions)
      ensures r == Ok ==> event == Some(SessionCreated(exhibitionId.value, old(sessions.nextId)))
      ensures r == Ok ==> (sessions.sessions == old(sessions.sessions)
        + [VisitorSession(old(sessions.nextId), exhibitionId.value, payload.value.state, user.value, user.value)])
      ensures r == Ok ==> multiset(Targets(OwnedBy(sessions.sessionVisitors, old(sessions.nextId)))) == multiset(payload.value.visitorIds)
    {
      if payload.None? {
        return BadRequest, None;
      }
      if exhibitionId.None? || exhibitionId.value !in world.exhibitions {
        return NotFound, None;
      }
      if user.None? {
        return Unauthorized, None;
      }
      var input := payload.value;
      var visitorsFound := ResolveAll(input.visitorIds, VisitorIds(sessions.visitors));
      if !visitorsFound {
        return BadRequest, None;
      }
      var groupsFound := ResolveAll(input.visitedDeviceGroups, world.deviceGroups.Keys);
      if !groupsFound {
        return BadRequest, None;
      }
      var sid := WriteNewSession(exhibitionId.value, input, user.value);
      r, event := Ok, Some(SessionCreated(exhibitionId.value, sid));
    }

    /**
     * The writes of updateVisitorSession: the state, the visitor links, the
     * variables; returns both reconciliations' change flags.
     */
    method WriteSessionUpdate(sid: Id, input: SessionInput, user: Id) returns (variablesChanged: bool, usersChanged: bool)
      requires sessions.Valid() && sessions.HasSession(sid) && AllIn(input.visitorIds, VisitorIds(sessions.visitors))
      modifies sessions
      ensures sessions.Valid()
      ensures old(sessions.FindVisitorSessionById(sid)).Some?
      ensures sessions.FindVisitorSessionById(sid)
        == Some(old(sessions.FindVisitorSessionById(sid)).value.(state := input.state, lastModifierId := user))
      ensures multiset(Targets(OwnedBy(sessions.sessionVisitors, sid))) == multiset(input.visitorIds)
      ensures usersChanged <==> sessions.sessionVisitors != old(sessions.sessionVisitors)
      ensures variablesChanged == VariablesChanged(PlanVariables(VariablesOf(old(sessions.sessionVariables), sid), input.variables))
    {
      ghost var links0, vars0, next0 := sessions.sessionVisitors, sessions.sessionVariables, sessions.nextId;
      var updated := sessions.UpdateVisitorSession(sid, input.state, user);
      assert sessions.sessionVisitors == links0 && sessions.sessionVariables == vars0 && sessions.nextId == next0;
      SetLinksChanged(links0, sid, input.visitorIds, next0);
      usersChanged := sessions.SetVisitorSessionVisitors(sid, input.visitorIds);
      ghost var links2 := sessions.sessionVisitors;
      assert links2 == SetLinks(links0, sid, input.visitorIds, next0);
      assert sessions.sessionVariables == vars0;
      variablesChanged := sessions.SetVisitorSessionVariables(sid, input.variables);
      assert sessions.sessionVisitors == links2;
      assert sessions.FindVisitorSessionById(sid) == Some(updated);
      SetLinksTargets(links0, sid, input.visitorIds, next0);
    }

    /**
     * updateVisitorSession: resolves every id before writing; then updates
     * the state, reconciles the visitors and the variables, and announces
     * the update with both reconciliations' change flags.
     */
    method UpdateVisitorSession(exhibitionId: Option<Id>, sessionId: Option<Id>, payload: Option<SessionInput>, user: Option<Id>)
      returns (r: Response, event: Option<Notification>)
      requires Valid()
      modifies sessions
      ensures Valid()
      ensures r == UpdateSessionChain(world.exhibitions, SessionIds(old(sessions.sessions)), VisitorIds(old(sessions.visitors)),
        world.deviceGroups.Keys, user, exhibitionId, sessionId, payload)
      ensures r != Ok ==> event.None? && unchanged(sessions)
      ensures r == Ok ==> event.Some? && event.value.SessionUpdated?
      ensures r == Ok ==> event.value.exhibition == exhibitionId.value && event.value.session == sessionId.value
      ensures r == Ok ==> (sessions.FindVisitorSessionById(sessionId.value)
        == Some(old(sessions.FindVisitorSessionById(sessionId.value)).value
          .(state := payload.value.state, lastModifierId := user.value)))
      ensures r == Ok ==> multiset(Targets(OwnedBy(sessions.sessionVisitors, sessionId.value))) == multiset(payload.value.visitorIds)
      ensures r == Ok ==> (event.value.usersChanged <==> sessions.sessionVisitors != old(sessions.sessionVisitors))
      ensures r == Ok ==> (event.value.variablesChanged
        == VariablesChanged(PlanVariables(VariablesOf(old(sessions.sessionVariables), sessionId.value), payload.value.variables)))
    {
      if payload.None? {
        return BadRequest, None;
      }
      if exhibitionId.None? || sessionId.None? {
        return NotFound, None;
      }
      if user.None? {
        return Unauthorized, None;
      }
      if exhibitionId.value !in world.exhibitions || !sessions.HasSession(sessionId.value) {
        return NotFound, None;
      }
      var input := payload.value;
      var visitorsFound := ResolveAll(input.visitorIds, VisitorIds(sessions.visitors));
      if !visitorsFound {
        return BadRequest, None;
      }
      var groupsFound := ResolveAll(input.visitedDeviceGroups, world.deviceGroups.Keys);
      if !groupsFound {
        return BadRequest, None;
      }
      var variablesChanged, usersChanged := WriteSessionUpdate(sessionId.value, input, user.value);
      r, event := Ok, Some(SessionUpdated(exhibitionId.value, sessionId.value, variablesChanged, usersChanged));
    }

    /**
     * createContentVersion: resolves every room id before writing; then
     * creates the version and links it to the rooms.
     */
    method CreateContentVersion(exhibitionId: Option<Id>, payload: Option<VersionInput>, user: Option<Id>)
      returns (r: Response)
      requires Valid()
      modifies contents, contents.dao
      ensures Valid()
      ensures r == CreateVersionChain(world, user, exhibitionId, payload)
      ensures r != Ok ==> unchanged(contents, contents.dao)
      ensures r == Ok ==>
        var v := ContentVersion(old(contents.nextId), payload.value.name, Some(payload.value.language),
          exhibitionId, user.value, user.value);
        && v.id !in VersionIds(old(contents.dao.versions))
        && contents.dao.versions == old(contents.dao.versions) + [v]
        && contents.FindContentVersionById(v.id) == Some(v)
        && contents.versionRooms == SetLinks(old(contents.versionRooms), v.id, payload.value.rooms, old(contents.nextId) + 1)
        && multiset(RoomsOf(contents.versionRooms, v.id)) == multiset(payload.value.rooms)
    {
      if payload.None? {
        r := BadRequest;
      } else if exhibitionId.None? || exhibitionId.value !in world.exhibitions {
        r := NotFound;
      } else if user.None? {
        r := Unauthorized;
      } else {
        var input := payload.value;
        var roomsFound := ResolveAll(input.rooms, world.rooms.Keys);
        if !roomsFound {
          r := BadRequest;
        } else {
          var v := WriteNewVersion(exhibitionId.value, input, user.value);
          assert v == ContentVersion(old(contents.nextId), payload.value.name, Some(payload.value.language),
            exhibitionId, user.value, user.value);
          r := Ok;
        }
      }
    }

    /** The writes of createContentVersion: the version, then its rooms. */
    method WriteNewVersion(exhibition: Id, input: VersionInput, user: Id) returns (v: ContentVersion)
      requires Valid()
      modifies contents, contents.dao
      ensures Valid()
      ensures v == ContentVersion(old(contents.nextId), input.name, Some(input.language), Some(exhibition), user, user)
      ensures v.id !in VersionIds(old(contents.dao.versions))
      ensures contents.dao.versions == old(contents.dao.versions) + [v]
      ensures contents.FindContentVersionById(v.id) == Some(v)
      ensures contents.versionRooms == SetLinks(old(contents.versionRooms), v.id, input.rooms, old(contents.nextId) + 1)
      ensures multiset(RoomsOf(contents.versionRooms, v.id)) == multiset(input.rooms)
    {
      v := contents.CreateContentVersion(exhibition, input.name, input.language, user);
      assert v in contents.dao.versions;
      contents.SetContentVersionRooms(v, input.rooms);
    }

    /**
     * updateContentVersion: resolves every room id before writing; then
     * updates the name and language and reconciles the rooms.
     */
    method UpdateContentVersion(exhibitionId: Option<Id>, versionId: Option<Id>, payload: Option<VersionInput>, user: Option<Id>)
      returns (r: Response)
      requires Valid()
      modifies contents, contents.dao
      ensures Valid()
      ensures r == UpdateVersionChain(world, VersionIds(old(contents.dao.versions)), user, exhibitionId, versionId, payload)
      ensures r != Ok ==> unchanged(contents, contents.dao)
      ensures r == Ok ==>
        var v := old(contents.FindContentVersionById(versionId.value)).value;
        var updated := v.(name := payload.value.name, language := Some(payload.value.language), lastModifierId := user.value);
        && contents.dao.versions == ReplaceVersion(old(contents.dao.versions), updated)
        && contents.FindContentVersionById(versionId.value) == Some(updated)
        && contents.versionRooms == SetLinks(old(contents.versionRooms), versionId.value, payload.value.rooms, old(contents.nextId))
        && multiset(RoomsOf(contents.versionRooms, versionId.value)) == multiset(payload.value.rooms)
    {
      if payload.None? {
        return BadRequest;
      }
      if exhibitionId.None? || versionId.None? {
        return NotFound;
      }
      if user.None? {
        return Unauthorized;
      }
      if exhibitionId.value !in world.exhibitions {
        return NotFound;
      }
      var found := contents.FindContentVersionById(versionId.value);
      if found.None? {
        return NotFound;
      }
      var input := payload.value;
      var roomsFound := ResolveAll(input.rooms, world.rooms.Keys);
      if !roomsFound {
        return BadRequest;
      }
      var result := contents.UpdateContentVersion(found.value, input.name, input.language, user.value);
      assert result in contents.dao.versions;
      contents.SetContentVersionRooms(result, input.rooms);
      r := Ok;
    }
  }
}
