/**
 * ContentVersionController: content versions, the rooms linked to them,
 * their copy and their cascading delete.
 *
 * The controller owns the content-version-room join table (owner: the
 * content version, target: the room) and `nextId`, the source of fresh
 * identifiers that stands in for UUID.randomUUID(); the version table is
 * the ContentVersionDAO it works through.
 */
module ContentVersionControl {
  import opened Common
  import opened Reconcile
  import opened ContentVersionDao

  /**
   * Why a copy fails: the message of its CopyException, or the persist of
   * a mapped id that is already stored, which breaks the primary key.
   */
  datatype CopyError = TargetIdNotFound | SourceExhibitionNotFound | SourceLanguageNotFound | TargetIdInUse

  datatype CopyResult = Copied(copy: ContentVersion) | CopyFailed(error: CopyError)

  /** The versions linked to a room, in table order (listContentVersionsByRoom). */
  function VersionsOfRoom(versions: seq<ContentVersion>, links: seq<JoinRow>, room: Id): (r: seq<ContentVersion>)
    ensures forall v :: v in r <==> v in versions && exists l :: l in links && l.owner == v.id && l.target == room
  {
    if versions == [] then []
    else
      var rest := VersionsOfRoom(versions[1..], links, room);
      assert versions == [versions[0]] + versions[1..];
      if exists l :: l in links && l.owner == versions[0].id && l.target == room then [versions[0]] + rest else rest
  }

  /**
   * The copy decision: the new id comes from the id map, then the source's
   * exhibition and then its language must be present, and last the persist
   * needs the new id to be unused among the `stored` ids; the first check
   * that fails is the error.
   */
  function CopyOf(source: ContentVersion, idMap: map<Id, Id>, stored: set<Id>, namePrefix: string, creatorId: Id): (r: CopyResult)
    ensures source.id !in idMap ==> r == CopyFailed(TargetIdNotFound)
    ensures source.id in idMap && source.exhibition.None? ==> r == CopyFailed(SourceExhibitionNotFound)
    ensures source.id in idMap && source.exhibition.Some? && source.language.None? ==> r == CopyFailed(SourceLanguageNotFound)
    ensures source.id in idMap && source.exhibition.Some? && source.language.Some? && idMap[source.id] in stored ==>
      r == CopyFailed(TargetIdInUse)
    ensures r.Copied? <==>
      source.id in idMap && source.exhibition.Some? && source.language.Some? && idMap[source.id] !in stored
    ensures r.Copied? ==> (
      && r.copy.id == idMap[source.id] && r.copy.name == namePrefix + source.name
      && r.copy.exhibition == source.exhibition && r.copy.language == source.language
      && r.copy.creatorId == creatorId && r.copy.lastModifierId == creatorId)
  {
    if source.id !in idMap then CopyFailed(TargetIdNotFound)
    else if source.exhibition.None? then CopyFailed(SourceExhibitionNotFound)
    else if source.language.None? then CopyFailed(SourceLanguageNotFound)
    else if idMap[source.id] in stored then CopyFailed(TargetIdInUse)
    else Copied(ContentVersion(idMap[source.id], namePrefix + source.name, source.language, source.exhibition, creatorId, creatorId))
  }

  /** The rooms linked to a version, with multiplicity. */
  function RoomsOf(links: seq<JoinRow>, version: Id): seq<Id>
  {
    Targets(OwnedBy(links, version))
  }

  /** The counter after an id taken from outside it: above both. */
  function Above(nextId: Id, id: Id): (r: Id)
    ensures r >= nextId && r > id
    ensures r == nextId || r == id + 1
  {
    if id < nextId then nextId else id + 1
  }

  class ContentVersionController {
    const dao: ContentVersionDAO
    /** The content-version-room join table. */
    var versionRooms: seq<JoinRow>
    /** Every id handed out so far is below nextId. */
    var nextId: Id

    /**
     * Version ids are a primary key and link ids are unique; both are below
     * nextId, so a fresh id is never stored (IdBoundAbove); every link
     * belongs to a stored version.
     */
    ghost predicate Valid()
      reads this, dao
    {
      && UniqueVersionIds(dao.versions)
      && IdBound(dao.versions) <= nextId
      && UniqueIds(versionRooms)
      && forall r :: r in versionRooms ==> r.id < nextId && r.owner in VersionIds(dao.versions)
    }

    constructor (dao: ContentVersionDAO, nextId: Id)
      requires UniqueVersionIds(dao.versions)
      requires IdBound(dao.versions) <= nextId
      ensures Valid()
      ensures this.dao == dao && this.nextId == nextId && versionRooms == []
    {
      this.dao := dao;
      this.nextId := nextId;
      versionRooms := [];
    }

    /** createContentVersion: a fresh id; creator and last modifier are both the caller. */
    method CreateContentVersion(exhibition: Id, name: string, language: string, creatorId: Id) returns (v: ContentVersion)
      requires Valid()
      modifies this, dao
      ensures Valid()
      ensures v == ContentVersion(old(nextId), name, Some(language), Some(exhibition), creatorId, creatorId)
      ensures v.id !in VersionIds(old(dao.versions))
      ensures dao.versions == old(dao.versions) + [v] && nextId == old(nextId) + 1
      ensures FindContentVersionById(v.id) == Some(v)
      ensures versionRooms == old(versionRooms)
    {
      var id := nextId;
      nextId := nextId + 1;
      IdBoundAbove(dao.versions, id);
      var created := dao.Create(id, exhibition, name, language, creatorId, creatorId);
      v := created.value;
      AppendFresh(old(dao.versions), v);
      IdBoundAppend(old(dao.versions), v);
    }

    /** findContentVersionById */
    function FindContentVersionById(id: Id): (r: Option<ContentVersion>)
      reads dao
      ensures r.Some? ==> r.value in dao.versions && r.value.id == id
      ensures r.None? <==> id !in VersionIds(dao.versions)
    {
      dao.FindById(id)
    }

    /**
     * listContentVersions: with a room, the versions linked to that room
     * (whatever their exhibition); without one, the exhibition's versions.
     */
    function ListContentVersions(exhibition: Id, room: Option<Id>): (r: seq<ContentVersion>)
      reads this, dao
      ensures room.Some? ==> forall v :: v in r <==>
        v in dao.versions && exists l :: l in versionRooms && l.owner == v.id && l.target == room.value
      ensures room.None? ==> forall v :: v in r <==> v in dao.versions && v.exhibition == Some(exhibition)
    {
      match room
      case Some(x) => VersionsOfRoom(dao.versions, versionRooms, x)
      case None => dao.ListByExhibition(exhibition)
    }

    /** contentVersionRoomDAO.create */
    method CreateVersionRoom(version: Id, room: Id)
      modifies this
      ensures versionRooms == old(versionRooms) + [JoinRow(old(nextId), version, room)]
      ensures nextId == old(nextId) + 1
    {
      versionRooms := versionRooms + [JoinRow(nextId, version, room)];
      nextId := nextId + 1;
    }

    /** contentVersionRoomDAO.delete */
    method DeleteVersionRoom(row: JoinRow)
      modifies this
      ensures versionRooms == Without(old(versionRooms), {row.id})
      ensures nextId == old(nextId)
    {
      versionRooms := Without(versionRooms, {row.id});
    }

    /** CreateVersionRoom, seen as growing the rows created from `base` on. */
    method CreateNextRoomLink(ghost table: seq<JoinRow>, ghost base: Id, version: Id, ghost created: seq<Id>, room: Id)
      requires versionRooms == table + NewRows(base, version, created)
      requires nextId == base + |created|
      modifies this
      ensures versionRooms == table + NewRows(base, version, created + [room])
      ensures nextId == base + |created| + 1
    {
      CreateVersionRoom(version, room);
      NewRowsSnoc(base, version, created, room);
      assert (table + NewRows(base, version, created)) + [JoinRow(base + |created|, version, room)]
        == table + (NewRows(base, version, created) + [JoinRow(base + |created|, version, room)]);
    }

    /** DeleteVersionRoom on the next row of `rows`, seen as growing the deleted prefix. */
    method DeleteNextRoomLink(ghost table: seq<JoinRow>, rows: seq<JoinRow>, j: nat)
      requires j < |rows| && versionRooms == Without(table, IdsOf(rows[..j]))
      modifies this
      ensures versionRooms == Without(table, IdsOf(rows[..j + 1]))
      ensures nextId == old(nextId)
    {
      DeleteVersionRoom(rows[j]);
      WithoutWithout(table, IdsOf(rows[..j]), {rows[j].id});
      IdsOfPrefix(rows, j);
    }

    /** `rows.forEach(contentVersionRoomDAO::delete)` */
    method DeleteVersionRooms(rows: seq<JoinRow>)
      modifies this
      ensures versionRooms == Without(old(versionRooms), IdsOf(rows))
      ensures nextId == old(nextId)
    {
      ghost var table := versionRooms;
      WithoutNothing(table);
      assert rows[..0] == [];
      IdsOfNone();
      var j := 0;
      while j < |rows|
        invariant 0 <= j <= |rows|
        invariant versionRooms == Without(table, IdsOf(rows[..j]))
        invariant nextId == old(nextId)
      {
        DeleteNextRoomLink(table, rows, j);
        j := j + 1;
      }
      assert rows[..j] == rows;
    }

    /**
     * The `for (room in rooms)` loop of setContentVersionRooms: walks the
     * rooms against the working list of the version's links, creating a
     * link for each room the working list lacks. Returns the working list
     * left over.
     */
    method LinkRooms(version: Id, rooms: seq<Id>) returns (working: seq<JoinRow>)
      modifies this
      ensures var p := PlanLinks(OwnedBy(old(versionRooms), version), rooms);
        && working == p.remaining
        && versionRooms == old(versionRooms) + NewRows(old(nextId), version, p.created)
        && nextId == old(nextId) + |p.created|
    {
      ghost var table, base := versionRooms, nextId;
      ghost var existing := OwnedBy(table, version);
      working := OwnedBy(versionRooms, version);
      ghost var plan := PlanLinks(existing, []);
      var i := 0;
      while i < |rooms|
        invariant 0 <= i <= |rooms|
        invariant plan == PlanLinks(existing, rooms[..i])
        invariant working == plan.remaining
        invariant versionRooms == table + NewRows(base, version, plan.created)
        invariant nextId == base + |plan.created|
      {
        var room := rooms[i];
        PlanLinksStep(existing, rooms, i);
        match FindTarget(working, room) {
          case None =>
            CreateNextRoomLink(table, base, version, plan.created, room);
            plan := plan.(created := plan.created + [room]);
          case Some(k) =>
            plan := Plan(RemoveAt(working, k), plan.kept + [working[k]], plan.created);
            working := RemoveAt(working, k);
        }
        i := i + 1;
      }
      assert rooms[..i] == rooms;
    }

    /** setContentVersionRooms: reconciles the version's room links with `rooms`. */
    method SetContentVersionRooms(version: ContentVersion, rooms: seq<Id>)
      requires Valid() && version.id in VersionIds(dao.versions)
      modifies this
      ensures Valid()
      ensures versionRooms == SetLinks(old(versionRooms), version.id, rooms, old(nextId))
      ensures nextId == old(nextId) + |PlanLinks(OwnedBy(old(versionRooms), version.id), rooms).created|
      ensures multiset(RoomsOf(versionRooms, version.id)) == multiset(rooms)
      ensures forall l: JoinRow :: l.owner != version.id ==> (l in versionRooms <==> l in old(versionRooms))
      ensures forall other :: other != version.id ==> RoomsOf(versionRooms, other) == RoomsOf(old(versionRooms), other)
    {
      ghost var table, base := versionRooms, nextId;
      var working := LinkRooms(version.id, rooms);
      DeleteVersionRooms(working);
      SetLinksByDeletes(table, version.id, rooms, base);
      SetLinksShape(table, version.id, rooms, base);
      RoomsAfterSet(table, version.id, rooms, base);
    }

    /**
     * copyContentVersion: fails, writing nothing, when the id map has no new
     * id, the source lacks an exhibition or a language, or the new id is
     * already stored; otherwise creates the copy under the mapped id and
     * links it to the source's rooms. The counter moves above the mapped id
     * so that later fresh ids cannot meet it.
     */
    method CopyContentVersion(source: ContentVersion, idMap: map<Id, Id>, namePrefix: string, creatorId: Id)
      returns (r: CopyResult)
      requires Valid()
      modifies this, dao
      ensures Valid()
      ensures r == CopyOf(source, idMap, VersionIds(old(dao.versions)), namePrefix, creatorId)
      ensures r.CopyFailed? ==>
        dao.versions == old(dao.versions) && versionRooms == old(versionRooms) && nextId == old(nextId)
      ensures r.Copied? ==> r.copy.id !in VersionIds(old(dao.versions))
      ensures r.Copied? ==> dao.versions == old(dao.versions) + [r.copy]
      ensures r.Copied? ==> FindContentVersionById(r.copy.id) == Some(r.copy)
      ensures r.Copied? ==> nextId >= Above(old(nextId), r.copy.id)
      ensures r.Copied? ==> (
        versionRooms == SetLinks(old(versionRooms), r.copy.id, RoomsOf(old(versionRooms), source.id), Above(old(nextId), r.copy.id)))
      ensures r.Copied? ==> multiset(RoomsOf(versionRooms, r.copy.id)) == multiset(RoomsOf(old(versionRooms), source.id))
      ensures r.Copied? ==> forall other :: other != r.copy.id ==> RoomsOf(versionRooms, other) == RoomsOf(old(versionRooms), other)
    {
      if source.id !in idMap {
        return CopyFailed(TargetIdNotFound);
      }
      var id := idMap[source.id];
      if source.exhibition.None? {
        return CopyFailed(SourceExhibitionNotFound);
      }
      if source.language.None? {
        return CopyFailed(SourceLanguageNotFound);
      }
      var created := dao.Create(id, source.exhibition.value, namePrefix + source.name, source.language.value, creatorId, creatorId);
      if created.None? {
        return CopyFailed(TargetIdInUse);
      }
      var copy := created.value;
      AppendFresh(old(dao.versions), copy);
      IdBoundAppend(old(dao.versions), copy);
      nextId := Above(nextId, id);
      var rooms := RoomsOf(versionRooms, source.id);
      SetContentVersionRooms(copy, rooms);
      r := Copied(copy);
    }

    /** updateContentVersion: the name, then the language; the last modifier is the caller. */
    method UpdateContentVersion(v: ContentVersion, name: string, language: string, modifierId: Id)
      returns (r: ContentVersion)
      requires Valid() && v in dao.versions
      modifies dao
      ensures Valid()
      ensures r == v.(name := name, language := Some(language), lastModifierId := modifierId)
      ensures dao.versions == ReplaceVersion(old(dao.versions), r)
      ensures FindContentVersionById(v.id) == Some(r)
    {
      ReplaceKeepsIds(dao.versions, v.(name := name, lastModifierId := modifierId));
      ReplaceKeepsUnique(dao.versions, v.(name := name, lastModifierId := modifierId));
      IdBoundReplace(dao.versions, v.(name := name, lastModifierId := modifierId));
      r := dao.UpdateName(v, name, modifierId);
      assert r in dao.versions;
      ReplaceKeepsIds(dao.versions, r.(language := Some(language), lastModifierId := modifierId));
      ReplaceKeepsUnique(dao.versions, r.(language := Some(language), lastModifierId := modifierId));
      IdBoundReplace(dao.versions, r.(language := Some(language), lastModifierId := modifierId));
      assert ReplaceVersion(ReplaceVersion(old(dao.versions), r), r.(language := Some(language), lastModifierId := modifierId))
        == ReplaceVersion(old(dao.versions), r.(language := Some(language), lastModifierId := modifierId));
      r := dao.UpdateLanguage(r, language, modifierId);
    }

    /** deleteContentVersion: the version's room links first, then the version. */
    method DeleteContentVersion(v: ContentVersion)
      requires Valid()
      modifies this, dao
      ensures Valid()
      ensures FindContentVersionById(v.id).None?
      ensures dao.versions == WithoutVersion(old(dao.versions), v.id)
      ensures forall r :: r in versionRooms <==> r in old(versionRooms) && r.owner != v.id
      ensures nextId == old(nextId)
    {
      ghost var links0 := versionRooms;
      var links := OwnedBy(versionRooms, v.id);
      DeleteVersionRooms(links);
      WithoutOwned(links0, v.id);
      WithoutUnique(links0, IdsOf(links));
      WithoutIds(dao.versions, v.id);
      WithoutKeepsUnique(dao.versions, v.id);
      IdBoundWithout(dao.versions, v.id);
      dao.Delete(v);
    }
  }

  /**
   * After setContentVersionRooms the version links exactly the requested
   * rooms (as a multiset, so as a set for a duplicate-free list), and the
   * links of every other version are untouched.
   */
  lemma RoomsAfterSet(links: seq<JoinRow>, version: Id, rooms: seq<Id>, base: Id)
    requires UniqueIds(links)
    ensures multiset(RoomsOf(SetLinks(links, version, rooms, base), version)) == multiset(rooms)
    ensures forall room :: room in RoomsOf(SetLinks(links, version, rooms, base), version) <==> room in rooms
    ensures forall l: JoinRow :: l.owner != version ==> (l in SetLinks(links, version, rooms, base) <==> l in links)
    ensures forall other :: other != version ==> RoomsOf(SetLinks(links, version, rooms, base), other) == RoomsOf(links, other)
  {
    SetLinksTargets(links, version, rooms, base);
    SetLinksOthers(links, version, rooms, base);
    forall other | other != version
      ensures RoomsOf(SetLinks(links, version, rooms, base), other) == RoomsOf(links, other)
    {
      SetLinksOtherOwner(links, version, rooms, base, other);
    }
  }

  /**
   * Repeating setContentVersionRooms with the same rooms creates no link,
   * deletes no link and leaves the table as the first call left it.
   */
  lemma SetRoomsAgain(links: seq<JoinRow>, version: Id, rooms: seq<Id>, base: Id, base': Id)
    requires UniqueIds(links)
    ensures var after := SetLinks(links, version, rooms, base);
      var again := PlanLinks(OwnedBy(after, version), rooms);
      && again.created == [] && again.remaining == []
      && SetLinks(after, version, rooms, base') == after
  {
    SetLinksIdempotent(links, version, rooms, base, base');
  }

  /**
   * A room linked once and requested once keeps its link row: the row is
   * neither deleted nor re-created.
   */
  lemma RoomLinkKept(links: seq<JoinRow>, version: Id, rooms: seq<Id>, base: Id, l: JoinRow)
    requires UniqueIds(links) && l in links && l.owner == version
    requires multiset(rooms)[l.target] == 1 && multiset(RoomsOf(links, version))[l.target] == 1
    ensures l in SetLinks(links, version, rooms, base)
    ensures forall n :: n in SetLinks(links, version, rooms, base) && n !in links ==> n.target != l.target
  {
    LinkedTargetKept(links, version, rooms, base, l);
    var p := PlanLinks(OwnedBy(links, version), rooms);
    NewRowsFacts(base, version, p.created);
    forall n | n in SetLinks(links, version, rooms, base) && n !in links
      ensures n.target != l.target
    {
      var w := Without(links, IdsOf(p.remaining));
      assert n !in w;
      var i :| 0 <= i < |p.created| && NewRows(base, version, p.created)[i] == n;
      assert n.target == p.created[i];
    }
  }
}
