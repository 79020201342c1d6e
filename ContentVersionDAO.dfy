/**
 * ContentVersionDAO: the content-version table and the field-level writes
 * behind the content-version controller.
 *
 * The table is a sequence of rows; an update of a managed entity replaces
 * the row carrying its primary key.
 */
module ContentVersionDao {
  import opened Common

  /**
   * A content version. The exhibition and the language are nullable in the
   * entity (the copy checks both for null).
   */
  datatype ContentVersion = ContentVersion(
    id: Id,
    name: string,
    language: Option<string>,
    exhibition: Option<Id>,
    creatorId: Id,
    lastModifierId: Id)

  /** The first row with the given id (findById). */
  function FindVersion(versions: seq<ContentVersion>, id: Id): (r: Option<ContentVersion>)
    ensures r.Some? ==> r.value in versions && r.value.id == id
    ensures r.None? <==> forall v :: v in versions ==> v.id != id
  {
    if versions == [] then None
    else if versions[0].id == id then Some(versions[0])
    else FindVersion(versions[1..], id)
  }

  /** The versions of an exhibition, in table order (listByExhibition). */
  function VersionsOfExhibition(versions: seq<ContentVersion>, exhibition: Id): (r: seq<ContentVersion>)
    ensures forall v :: v in r <==> v in versions && v.exhibition == Some(exhibition)
    ensures |r| <= |versions|
  {
    if versions == [] then []
    else
      var rest := VersionsOfExhibition(versions[1..], exhibition);
      assert versions == [versions[0]] + versions[1..];
      if versions[0].exhibition == Some(exhibition) then [versions[0]] + rest else rest
  }

  /** The table with the row of `v`'s id replaced by `v` (persist of a managed entity). */
  function ReplaceVersion(versions: seq<ContentVersion>, v: ContentVersion): (r: seq<ContentVersion>)
    ensures |r| == |versions|
    ensures forall i :: 0 <= i < |r| ==> r[i] == if versions[i].id == v.id then v else versions[i]
  {
    seq(|versions|, i requires 0 <= i < |versions| => if versions[i].id == v.id then v else versions[i])
  }

  /** The table without the rows of the given id (delete). */
  function WithoutVersion(versions: seq<ContentVersion>, id: Id): (r: seq<ContentVersion>)
    ensures forall v :: v in r <==> v in versions && v.id != id
  {
    if versions == [] then []
    else
      var rest := WithoutVersion(versions[1..], id);
      assert versions == [versions[0]] + versions[1..];
      if versions[0].id == id then rest else [versions[0]] + rest
  }

  /** The ids of the stored versions. */
  function VersionIds(versions: seq<ContentVersion>): set<Id>
  {
    set v | v in versions :: v.id
  }

  /** The id is the primary key: no two rows share one. */
  predicate UniqueVersionIds(versions: seq<ContentVersion>)
  {
    forall i, j :: 0 <= i < j < |versions| ==> versions[i].id != versions[j].id
  }

  /** One above the largest stored id; 0 for an empty table. */
  function IdBound(versions: seq<ContentVersion>): nat
  {
    if versions == [] then 0
    else
      var rest := IdBound(versions[1..]);
      if versions[0].id + 1 > rest then versions[0].id + 1 else rest
  }

  /** Every stored id is below the bound, so an id at or above it is unused. */
  lemma {:induction false} IdBoundAbove(versions: seq<ContentVersion>, id: Id)
    requires IdBound(versions) <= id
    ensures id !in VersionIds(versions)
    decreases |versions|
  {
    if versions != [] {
      IdBoundAbove(versions[1..], id);
      assert versions == [versions[0]] + versions[1..];
    }
  }

  /** Appending a row raises the bound to above its id, and no further. */
  lemma {:induction false} IdBoundAppend(versions: seq<ContentVersion>, v: ContentVersion)
    ensures IdBound(versions + [v]) == if v.id + 1 > IdBound(versions) then v.id + 1 else IdBound(versions)
    decreases |versions|
  {
    if versions != [] {
      assert (versions + [v])[1..] == versions[1..] + [v];
      IdBoundAppend(versions[1..], v);
    }
  }

  /** A replacement keeps the bound: every index keeps its id. */
  lemma {:induction false} IdBoundReplace(versions: seq<ContentVersion>, v: ContentVersion)
    ensures IdBound(ReplaceVersion(versions, v)) == IdBound(versions)
    decreases |versions|
  {
    if versions != [] {
      assert ReplaceVersion(versions, v)[1..] == ReplaceVersion(versions[1..], v);
      IdBoundReplace(versions[1..], v);
    }
  }

  /** A delete does not raise the bound. */
  lemma {:induction false} IdBoundWithout(versions: seq<ContentVersion>, id: Id)
    ensures IdBound(WithoutVersion(versions, id)) <= IdBound(versions)
    decreases |versions|
  {
    if versions != [] {
      IdBoundWithout(versions[1..], id);
    }
  }

  /** In a table with a primary key, findById returns the stored row itself. */
  lemma {:induction false} FindStored(versions: seq<ContentVersion>, v: ContentVersion)
    requires UniqueVersionIds(versions) && v in versions
    ensures FindVersion(versions, v.id) == Some(v)
    decreases |versions|
  {
    if versions[0] != v {
      assert versions[0].id != v.id by {
        var k :| 0 <= k < |versions| && versions[k] == v;
        assert k != 0;
      }
      assert v in versions[1..] by {
        var k :| 0 <= k < |versions| && versions[k] == v;
        assert versions[1..][k - 1] == v;
      }
      FindStored(versions[1..], v);
    }
  }

  /** Persisting a row under an unused id keeps the key unique and adds exactly that id. */
  lemma AppendFresh(versions: seq<ContentVersion>, v: ContentVersion)
    requires UniqueVersionIds(versions) && v.id !in VersionIds(versions)
    ensures UniqueVersionIds(versions + [v])
    ensures VersionIds(versions + [v]) == VersionIds(versions) + {v.id}
    ensures FindVersion(versions + [v], v.id) == Some(v)
  {
    var after := versions + [v];
    forall i, j | 0 <= i < j < |after| ensures after[i].id != after[j].id {
      if j == |versions| {
        assert after[i] in versions;
      }
    }
    assert v in after;
    FindStored(after, v);
  }

  /** A delete drops exactly the deleted id. */
  lemma WithoutIds(versions: seq<ContentVersion>, id: Id)
    ensures VersionIds(WithoutVersion(versions, id)) == VersionIds(versions) - {id}
  {
    var after := WithoutVersion(versions, id);
    forall x | x in VersionIds(versions) - {id} ensures x in VersionIds(after) {
      var v :| v in versions && v.id == x;
      assert v in after;
    }
  }

  /** A delete keeps the key unique. */
  lemma {:induction false} WithoutKeepsUnique(versions: seq<ContentVersion>, id: Id)
    requires UniqueVersionIds(versions)
    ensures UniqueVersionIds(WithoutVersion(versions, id))
    decreases |versions|
  {
    if versions != [] {
      var tail := versions[1..];
      var rest := WithoutVersion(tail, id);
      assert UniqueVersionIds(tail) by {
        forall i, j | 0 <= i < j < |tail| ensures tail[i].id != tail[j].id {
          assert tail[i] == versions[i + 1] && tail[j] == versions[j + 1];
        }
      }
      WithoutKeepsUnique(tail, id);
      if versions[0].id != id {
        assert versions[0].id !in VersionIds(rest) by {
          forall v | v in rest ensures v.id != versions[0].id {
            var k :| 0 <= k < |tail| && tail[k] == v;
            assert versions[k + 1] == v;
          }
        }
        PrependFresh(versions[0], rest);
      }
    }
  }

  /** A row whose id is not in a unique table can head it. */
  lemma PrependFresh(v: ContentVersion, rest: seq<ContentVersion>)
    requires UniqueVersionIds(rest) && v.id !in VersionIds(rest)
    ensures UniqueVersionIds([v] + rest)
  {
    var after := [v] + rest;
    forall i, j | 0 <= i < j < |after| ensures after[i].id != after[j].id {
      assert after[j] == rest[j - 1];
      if i > 0 {
        assert after[i] == rest[i - 1];
      }
    }
  }

  /** A replacement keeps the key unique: every index keeps its id. */
  lemma ReplaceKeepsUnique(versions: seq<ContentVersion>, v: ContentVersion)
    requires UniqueVersionIds(versions)
    ensures UniqueVersionIds(ReplaceVersion(versions, v))
  {
    var after := ReplaceVersion(versions, v);
    forall i, j | 0 <= i < j < |after| ensures after[i].id != after[j].id {
      assert after[i].id == versions[i].id && after[j].id == versions[j].id;
    }
  }

  /** A replacement keeps the set of stored ids. */
  lemma ReplaceKeepsIds(versions: seq<ContentVersion>, v: ContentVersion)
    requires v.id in VersionIds(versions)
    ensures VersionIds(ReplaceVersion(versions, v)) == VersionIds(versions)
  {
    var after := ReplaceVersion(versions, v);
    forall x | x in VersionIds(versions) ensures x in VersionIds(after) {
      var i :| 0 <= i < |versions| && versions[i].id == x;
      assert after[i].id == x;
    }
    forall x | x in VersionIds(after) ensures x in VersionIds(versions) {
      var i :| 0 <= i < |after| && after[i].id == x;
      assert versions[i].id == x;
    }
  }

  /** After a replacement the replaced version is what findById returns. */
  lemma {:induction false} ReplaceThenFind(versions: seq<ContentVersion>, v: ContentVersion)
    requires v.id in VersionIds(versions)
    ensures FindVersion(ReplaceVersion(versions, v), v.id) == Some(v)
    decreases |versions|
  {
    if versions[0].id != v.id {
      var i :| 0 <= i < |versions| && versions[i].id == v.id;
      assert versions[1..][i - 1] in versions[1..];
      ReplaceThenFind(versions[1..], v);
      assert ReplaceVersion(versions, v)[1..] == ReplaceVersion(versions[1..], v);
    }
  }

  class ContentVersionDAO {
    var versions: seq<ContentVersion>

    constructor ()
      ensures versions == []
    {
      versions := [];
    }

    /**
     * create: a row holding exactly the given fields. The persist of an id
     * already stored breaks the primary key and writes nothing (None).
     */
    method Create(id: Id, exhibition: Id, name: string, language: string, creatorId: Id, lastModifierId: Id)
      returns (r: Option<ContentVersion>)
      modifies this
      ensures r.None? <==> id in VersionIds(old(versions))
      ensures r.None? ==> versions == old(versions)
      ensures r.Some? ==> r.value == ContentVersion(id, name, Some(language), Some(exhibition), creatorId, lastModifierId)
      ensures r.Some? ==> versions == old(versions) + [r.value]
    {
      if id in VersionIds(versions) {
        return None;
      }
      var v := ContentVersion(id, name, Some(language), Some(exhibition), creatorId, lastModifierId);
      versions := versions + [v];
      r := Some(v);
    }

    /** findById */
    function FindById(id: Id): (r: Option<ContentVersion>)
      reads this
      ensures r.Some? ==> r.value in versions && r.value.id == id
      ensures r.None? <==> id !in VersionIds(versions)
    {
      FindVersion(versions, id)
    }

    /** listByExhibition: exactly the stored versions of the exhibition. */
    function ListByExhibition(exhibition: Id): (r: seq<ContentVersion>)
      reads this
      ensures forall v :: v in r <==> v in versions && v.exhibition == Some(exhibition)
    {
      VersionsOfExhibition(versions, exhibition)
    }

    /** updateName: the name and the last modifier change, nothing else. */
    method UpdateName(v: ContentVersion, name: string, lastModifierId: Id) returns (r: ContentVersion)
      requires v in versions
      modifies this
      ensures r == v.(name := name, lastModifierId := lastModifierId)
      ensures versions == ReplaceVersion(old(versions), r)
      ensures FindById(v.id) == Some(r)
    {
      r := v.(name := name, lastModifierId := lastModifierId);
      ReplaceThenFind(versions, r);
      versions := ReplaceVersion(versions, r);
    }

    /** updateLanguage: the language and the last modifier change, nothing else. */
    method UpdateLanguage(v: ContentVersion, language: string, lastModifierId: Id) returns (r: ContentVersion)
      requires v in versions
      modifies this
      ensures r == v.(language := Some(language), lastModifierId := lastModifierId)
      ensures versions == ReplaceVersion(old(versions), r)
      ensures FindById(v.id) == Some(r)
    {
      r := v.(language := Some(language), lastModifierId := lastModifierId);
      ReplaceThenFind(versions, r);
      versions := ReplaceVersion(versions, r);
    }

    /** delete */
    method Delete(v: ContentVersion)
      modifies this
      ensures versions == WithoutVersion(old(versions), v.id)
      ensures FindById(v.id).None?
    {
      versions := WithoutVersion(versions, v.id);
    }
  }
}
