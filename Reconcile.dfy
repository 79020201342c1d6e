/**
 * The set-difference reconciliation shared by VisitorSessionController
 * (session -> visitor links) and ContentVersionController (content version ->
 * room links), stated on values.
 *
 * Both controllers load the owner's join rows into a mutable working list,
 * walk the caller's target ids, create a row for a target that no row in the
 * working list links to and otherwise drop the first matching row from the
 * working list; whatever is left over is deleted. PlanLinks is that walk as a
 * function; SetLinks is the join table it leaves behind. The controllers'
 * methods are proved to compute exactly these.
 */
module Reconcile {
  import opened Common

  /** A join row: its own id, the owning entity and the linked entity. */
  datatype JoinRow = JoinRow(id: Id, owner: Id, target: Id)

  /** The ids linked by `rows`, in order. */
  function Targets(rows: seq<JoinRow>): seq<Id>
  {
    seq(|rows|, i requires 0 <= i < |rows| => rows[i].target)
  }

  /** The ids linked by `rows`, with multiplicity. */
  function Keys(rows: seq<JoinRow>): multiset<Id>
  {
    multiset(Targets(rows))
  }

  /** The row ids of `rows`. */
  function IdsOf(rows: seq<JoinRow>): set<Id>
  {
    set r | r in rows :: r.id
  }

  /** Row ids are primary keys. */
  predicate UniqueIds(rows: seq<JoinRow>)
  {
    forall i, j :: 0 <= i < j < |rows| ==> rows[i].id != rows[j].id
  }

  /** Kotlin's `find { it.target == t }` on the working list: the first row linking to t. */
  function FindTarget(rows: seq<JoinRow>, t: Id): (r: Option<nat>)
    ensures r.Some? ==> r.value < |rows| && rows[r.value].target == t
    ensures r.Some? ==> forall j :: 0 <= j < r.value ==> rows[j].target != t
    ensures r.None? ==> forall j :: 0 <= j < |rows| ==> rows[j].target != t
  {
    if rows == [] then None
    else if rows[0].target == t then Some(0)
    else match FindTarget(rows[1..], t)
      case None => None
      case Some(k) => Some(k + 1)
  }

  /**
   * The outcome of walking `targets` against the owner's `existing` rows:
   * the rows left in the working list (to be deleted), the rows matched
   * (kept as they are) and the target ids for which a row is created.
   */
  datatype Plan = Plan(remaining: seq<JoinRow>, kept: seq<JoinRow>, created: seq<Id>)

  function PlanLinks(existing: seq<JoinRow>, targets: seq<Id>): Plan
    decreases |targets|
  {
    if targets == [] then Plan(existing, [], [])
    else
      var p := PlanLinks(existing, targets[..|targets| - 1]);
      var t := targets[|targets| - 1];
      match FindTarget(p.remaining, t)
      case None => p.(created := p.created + [t])
      case Some(k) => Plan(RemoveAt(p.remaining, k), p.kept + [p.remaining[k]], p.created)
  }

  /** One step of the walk, as the controllers' loops take it. */
  lemma PlanLinksStep(existing: seq<JoinRow>, targets: seq<Id>, i: nat)
    requires i < |targets|
    ensures var p := PlanLinks(existing, targets[..i]);
      PlanLinks(existing, targets[..i + 1]) ==
        match FindTarget(p.remaining, targets[i])
        case None => p.(created := p.created + [targets[i]])
        case Some(k) => Plan(RemoveAt(p.remaining, k), p.kept + [p.remaining[k]], p.created)
  {
    assert targets[..i + 1][..i] == targets[..i];
  }

  /** Whether the walk writes anything: a create or a leftover delete. */
  predicate Changed(p: Plan)
  {
    p.created != [] || p.remaining != []
  }

  /** The rows of `owner`, in table order (listByVisitorSession, listRoomsByContentVersion). */
  function OwnedBy(rows: seq<JoinRow>, owner: Id): (r: seq<JoinRow>)
    ensures forall x :: x in r <==> x in rows && x.owner == owner
  {
    if rows == [] then []
    else
      var rest := OwnedBy(rows[..|rows| - 1], owner);
      var last := rows[|rows| - 1];
      assert rows == rows[..|rows| - 1] + [last];
      if last.owner == owner then rest + [last] else rest
  }

  /** The table after deleting the rows whose id is in `gone`. */
  function Without(rows: seq<JoinRow>, gone: set<Id>): (r: seq<JoinRow>)
    ensures forall x :: x in r <==> x in rows && x.id !in gone
  {
    if rows == [] then []
    else
      var rest := Without(rows[..|rows| - 1], gone);
      var last := rows[|rows| - 1];
      assert rows == rows[..|rows| - 1] + [last];
      if last.id in gone then rest else rest + [last]
  }

  /** The rows created for `targets`, with consecutive fresh ids from `base`. */
  function NewRows(base: Id, owner: Id, targets: seq<Id>): seq<JoinRow>
  {
    seq(|targets|, i requires 0 <= i < |targets| => JoinRow(base + i, owner, targets[i]))
  }

  /**
   * The join table after reconciling `owner`'s links with `targets`: the
   * leftover rows deleted, one new row per created target.
   */
  function SetLinks(rows: seq<JoinRow>, owner: Id, targets: seq<Id>, base: Id): seq<JoinRow>
  {
    var p := PlanLinks(OwnedBy(rows, owner), targets);
    Without(rows, IdsOf(p.remaining)) + NewRows(base, owner, p.created)
  }

  // ---------------------------------------------------------------------
  // Facts about the walk
  // ---------------------------------------------------------------------

  lemma MultisetCancel<T>(a: multiset<T>, b: multiset<T>, d: multiset<T>)
    requires a + b == a + d
    ensures b == d
  {
    forall x ensures b[x] == d[x] {
      assert (a + b)[x] == a[x] + b[x];
      assert (a + d)[x] == a[x] + d[x];
    }
  }

  lemma SubOfSum<T>(a: multiset<T>, b: multiset<T>, c: multiset<T>)
    requires a + b == c
    ensures b <= c
  {
    forall x ensures b[x] <= c[x] {
      assert (a + b)[x] == a[x] + b[x];
    }
  }

  lemma MultisetSubCancel<T>(a: multiset<T>, b: multiset<T>, c: multiset<T>)
    requires a + c <= b + c
    ensures a <= b
  {
    forall x ensures a[x] <= b[x] {
      assert (a + c)[x] == a[x] + c[x];
      assert (b + c)[x] == b[x] + c[x];
    }
  }

  lemma KeysAppend(a: seq<JoinRow>, b: seq<JoinRow>)
    ensures Keys(a + b) == Keys(a) + Keys(b)
  {
    assert Targets(a + b) == Targets(a) + Targets(b);
  }

  lemma KeysRemoveAt(s: seq<JoinRow>, k: nat)
    requires k < |s|
    ensures Keys(s) == Keys(RemoveAt(s, k)) + multiset{s[k].target}
    ensures multiset(s) == multiset(RemoveAt(s, k)) + multiset{s[k]}
  {
    assert s == s[..k] + [s[k]] + s[k + 1..];
    KeysAppend(s[..k] + [s[k]], s[k + 1..]);
    KeysAppend(s[..k], [s[k]]);
    KeysAppend(s[..k], s[k + 1..]);
  }

  lemma KeysMember(s: seq<JoinRow>, x: JoinRow)
    requires x in s
    ensures x.target in Keys(s)
  {
    var i :| 0 <= i < |s| && s[i] == x;
    assert Targets(s)[i] == x.target;
  }

  /**
   * The invariant of the walk: every existing row is either kept or left
   * over; every target is either matched by a kept row or created; and a
   * created id is never also linked by a leftover row.
   */
  lemma {:induction false} PlanInvariant(existing: seq<JoinRow>, targets: seq<Id>)
    ensures var p := PlanLinks(existing, targets);
      && multiset(p.kept) + multiset(p.remaining) == multiset(existing)
      && Keys(p.kept) + Keys(p.remaining) == Keys(existing)
      && Keys(p.kept) + multiset(p.created) == multiset(targets)
      && (forall x :: x in p.created ==> x !in Keys(p.remaining))
    decreases |targets|
  {
    if targets != [] {
      var init := targets[..|targets| - 1];
      var t := targets[|targets| - 1];
      assert targets == init + [t];
      PlanInvariant(existing, init);
      var p := PlanLinks(existing, init);
      match FindTarget(p.remaining, t)
      case None =>
        assert t !in Targets(p.remaining);
      case Some(k) =>
        KeysRemoveAt(p.remaining, k);
        KeysAppend(p.kept, [p.remaining[k]]);
        assert Targets([p.remaining[k]]) == [t];
    }
  }

  /**
   * When the owner's links already match the targets (as multisets), the
   * walk creates nothing and leaves nothing over.
   */
  lemma PlanIdempotent(existing: seq<JoinRow>, targets: seq<Id>)
    requires Keys(existing) == multiset(targets)
    ensures PlanLinks(existing, targets).created == []
    ensures PlanLinks(existing, targets).remaining == []
  {
    var p := PlanLinks(existing, targets);
    PlanInvariant(existing, targets);
    MultisetCancel(Keys(p.kept), Keys(p.remaining), multiset(p.created));
    assert |Targets(p.remaining)| == 0;
  }

  // ---------------------------------------------------------------------
  // Facts about the table
  // ---------------------------------------------------------------------

  lemma {:induction false} OwnedByAppend(a: seq<JoinRow>, b: seq<JoinRow>, owner: Id)
    ensures OwnedBy(a + b, owner) == OwnedBy(a, owner) + OwnedBy(b, owner)
    decreases |b|
  {
    if b != [] {
      var n := |b| - 1;
      assert (a + b)[..|a + b| - 1] == a + b[..n];
      OwnedByAppend(a, b[..n], owner);
    } else {
      assert a + b == a;
    }
  }

  lemma {:induction false} WithoutAppend(a: seq<JoinRow>, b: seq<JoinRow>, gone: set<Id>)
    ensures Without(a + b, gone) == Without(a, gone) + Without(b, gone)
    decreases |b|
  {
    if b != [] {
      var n := |b| - 1;
      assert (a + b)[..|a + b| - 1] == a + b[..n];
      WithoutAppend(a, b[..n], gone);
    } else {
      assert a + b == a;
    }
  }

  lemma {:induction false} OwnedByWithout(rows: seq<JoinRow>, owner: Id, gone: set<Id>)
    ensures OwnedBy(Without(rows, gone), owner) == Without(OwnedBy(rows, owner), gone)
    decreases |rows|
  {
    if rows != [] {
      var n := |rows| - 1;
      OwnedByWithout(rows[..n], owner, gone);
      var last := rows[n];
      if last.id !in gone {
        OwnedByAppend(Without(rows[..n], gone), [last], owner);
      }
      if last.owner == owner {
        WithoutAppend(OwnedBy(rows[..n], owner), [last], gone);
      }
    }
  }

  lemma {:induction false} WithoutNothing(rows: seq<JoinRow>)
    ensures Without(rows, {}) == rows
    decreases |rows|
  {
    if rows != [] {
      WithoutNothing(rows[..|rows| - 1]);
      assert rows == rows[..|rows| - 1] + [rows[|rows| - 1]];
    }
  }

  /** Deleting by ids that no row of the table carries changes nothing. */
  lemma {:induction false} WithoutSameOnTable(rows: seq<JoinRow>, a: set<Id>, b: set<Id>)
    requires forall x :: x in rows ==> (x.id in a <==> x.id in b)
    ensures Without(rows, a) == Without(rows, b)
    decreases |rows|
  {
    if rows != [] {
      WithoutSameOnTable(rows[..|rows| - 1], a, b);
    }
  }

  lemma OwnedByAll(base: Id, owner: Id, targets: seq<Id>)
    ensures OwnedBy(NewRows(base, owner, targets), owner) == NewRows(base, owner, targets)
    ensures Keys(NewRows(base, owner, targets)) == multiset(targets)
  {
    var rows := NewRows(base, owner, targets);
    OwnedByAllOwner(rows, owner);
    assert Targets(rows) == targets;
  }

  lemma {:induction false} OwnedByAllOwner(rows: seq<JoinRow>, owner: Id)
    requires forall x :: x in rows ==> x.owner == owner
    ensures OwnedBy(rows, owner) == rows
    decreases |rows|
  {
    if rows != [] {
      OwnedByAllOwner(rows[..|rows| - 1], owner);
      assert rows == rows[..|rows| - 1] + [rows[|rows| - 1]];
    }
  }

  lemma {:induction false} OwnedByNone(rows: seq<JoinRow>, owner: Id)
    requires forall x :: x in rows ==> x.owner != owner
    ensures OwnedBy(rows, owner) == []
    decreases |rows|
  {
    if rows != [] {
      OwnedByNone(rows[..|rows| - 1], owner);
    }
  }

  lemma {:induction false} OwnedByUnique(rows: seq<JoinRow>, owner: Id)
    requires UniqueIds(rows)
    ensures UniqueIds(OwnedBy(rows, owner))
    decreases |rows|
  {
    if rows != [] {
      var n := |rows| - 1;
      assert UniqueIds(rows[..n]);
      OwnedByUnique(rows[..n], owner);
      var rest := OwnedBy(rows[..n], owner);
      forall x | x in rest ensures x.id != rows[n].id {
        var i :| 0 <= i < n && rows[i] == x;
      }
    }
  }

  /** Deleting rows keeps row ids unique. */
  lemma {:induction false} WithoutUnique(rows: seq<JoinRow>, gone: set<Id>)
    requires UniqueIds(rows)
    ensures UniqueIds(Without(rows, gone))
    decreases |rows|
  {
    if rows != [] {
      var n := |rows| - 1;
      UniquePrefix(rows, n);
      WithoutUnique(rows[..n], gone);
      var rest := Without(rows[..n], gone);
      forall x | x in rest ensures x.id != rows[n].id {
        var i :| 0 <= i < n && rows[i] == x;
      }
      if rows[n].id !in gone {
        UniqueSnoc(rest, rows[n]);
      }
    }
  }

  lemma UniquePrefix(rows: seq<JoinRow>, n: nat)
    requires UniqueIds(rows) && n <= |rows|
    ensures UniqueIds(rows[..n])
  {
  }

  /** Appending a row whose id is new keeps the ids unique. */
  lemma UniqueSnoc(rows: seq<JoinRow>, x: JoinRow)
    requires UniqueIds(rows) && forall y :: y in rows ==> y.id != x.id
    ensures UniqueIds(rows + [x])
  {
    var r := rows + [x];
    forall i, j | 0 <= i < j < |r| ensures r[i].id != r[j].id {
      if j == |rows| {
        assert r[i] in rows;
      } else {
        assert r[i] == rows[i] && r[j] == rows[j];
      }
    }
  }

  /** Two deletions in a row are one deletion of both id sets. */
  lemma {:induction false} WithoutWithout(rows: seq<JoinRow>, a: set<Id>, b: set<Id>)
    ensures Without(Without(rows, a), b) == Without(rows, a + b)
    decreases |rows|
  {
    if rows != [] {
      var n := |rows| - 1;
      WithoutWithout(rows[..n], a, b);
      if rows[n].id !in a {
        WithoutSnoc(Without(rows[..n], a), rows[n], b);
      }
    }
  }

  /** Created rows carry ids from `base` on, so a deletion of older ids leaves them alone. */
  lemma WithoutFresh(base: Id, owner: Id, targets: seq<Id>, gone: set<Id>)
    requires forall g :: g in gone ==> g < base
    ensures Without(NewRows(base, owner, targets), gone) == NewRows(base, owner, targets)
  {
    var rows := NewRows(base, owner, targets);
    WithoutSameOnTable(rows, gone, {});
    WithoutNothing(rows);
  }

  /**
   * SetLinks keeps row ids unique, and every row it holds is an old row or
   * a created row of the owner, for a target, with a fresh id.
   */
  lemma SetLinksShape(rows: seq<JoinRow>, owner: Id, targets: seq<Id>, base: Id)
    requires UniqueIds(rows) && forall r :: r in rows ==> r.id < base
    ensures UniqueIds(SetLinks(rows, owner, targets, base))
    ensures forall r :: r in SetLinks(rows, owner, targets, base) ==>
      || r in rows
      || (r.owner == owner && r.target in targets && base <= r.id < base + |PlanLinks(OwnedBy(rows, owner), targets).created|)
  {
    var p := PlanLinks(OwnedBy(rows, owner), targets);
    WithoutUnique(rows, IdsOf(p.remaining));
    CreatedFromTargets(OwnedBy(rows, owner), targets);
    NewRowsFacts(base, owner, p.created);
    AppendFreshUnique(Without(rows, IdsOf(p.remaining)), NewRows(base, owner, p.created), base);
  }

  /** The walk creates rows only for requested targets. */
  lemma CreatedFromTargets(existing: seq<JoinRow>, targets: seq<Id>)
    ensures forall t :: t in PlanLinks(existing, targets).created ==> t in targets
  {
    var p := PlanLinks(existing, targets);
    PlanInvariant(existing, targets);
    forall t | t in p.created ensures t in targets {
      assert t in multiset(p.created);
    }
  }

  /** Created rows have distinct fresh ids, the owner and one of the targets. */
  lemma NewRowsFacts(base: Id, owner: Id, targets: seq<Id>)
    ensures UniqueIds(NewRows(base, owner, targets))
    ensures forall r :: r in NewRows(base, owner, targets) ==>
      base <= r.id < base + |targets| && r.owner == owner && r.target in targets
  {
  }

  /** Rows with ids below `bound` followed by rows with ids from `bound` on keep ids unique. */
  lemma AppendFreshUnique(kept: seq<JoinRow>, added: seq<JoinRow>, bound: Id)
    requires UniqueIds(kept) && UniqueIds(added)
    requires forall r :: r in kept ==> r.id < bound
    requires forall r :: r in added ==> bound <= r.id
    ensures UniqueIds(kept + added)
  {
    var all := kept + added;
    forall i, j | 0 <= i < j < |all| ensures all[i].id != all[j].id {
      if j < |kept| {
        assert all[i] == kept[i] && all[j] == kept[j];
      } else if i < |kept| {
        assert all[i] in kept && all[j] in added;
      } else {
        assert all[i] == added[i - |kept|] && all[j] == added[j - |kept|];
      }
    }
  }

  lemma IdsOfNone()
    ensures IdsOf([]) == {}
  {
  }

  /** The ids of a prefix grow by one id per row. */
  lemma IdsOfPrefix(rows: seq<JoinRow>, j: nat)
    requires j < |rows|
    ensures IdsOf(rows[..j + 1]) == IdsOf(rows[..j]) + {rows[j].id}
  {
    assert rows[..j + 1] == rows[..j] + [rows[j]];
    assert forall x :: x in rows[..j + 1] <==> x in rows[..j] || x == rows[j];
  }

  lemma NewRowsSnoc(base: Id, owner: Id, targets: seq<Id>, t: Id)
    ensures NewRows(base, owner, targets + [t])
      == NewRows(base, owner, targets) + [JoinRow(base + |targets|, owner, t)]
  {
  }

  /** Deleting an owner's rows by id removes exactly the rows of that owner. */
  lemma WithoutOwned(rows: seq<JoinRow>, owner: Id)
    requires UniqueIds(rows)
    ensures forall r :: r in Without(rows, IdsOf(OwnedBy(rows, owner))) <==> r in rows && r.owner != owner
  {
    forall r | r in rows && r.owner != owner ensures r.id !in IdsOf(OwnedBy(rows, owner)) {
      if r.id in IdsOf(OwnedBy(rows, owner)) {
        assert false;
      }
    }
  }

  /** Within a table with unique row ids, a row of a sub-multiset is identified by its id. */
  lemma SameRowById(e: seq<JoinRow>, r: seq<JoinRow>, x: JoinRow, y: JoinRow)
    requires UniqueIds(e)
    requires multiset(r) <= multiset(e)
    requires x in e && y in r && y.id == x.id
    ensures y == x
  {
    assert y in multiset(r);
    assert y in e;
    var i :| 0 <= i < |e| && e[i] == x;
    var j :| 0 <= j < |e| && e[j] == y;
  }

  lemma WithoutSnoc(init: seq<JoinRow>, last: JoinRow, gone: set<Id>)
    ensures Without(init + [last], gone)
      == if last.id in gone then Without(init, gone) else Without(init, gone) + [last]
  {
    assert (init + [last])[..|init + [last]| - 1] == init;
  }

  /** Removing the last row of `e` from a sub-multiset `r` leaves the other rows' deletion status alone. */
  lemma RemovedIdsAgree(e: seq<JoinRow>, r: seq<JoinRow>, k: nat)
    requires UniqueIds(e) && e != []
    requires multiset(r) <= multiset(e)
    requires k < |r| && r[k] == e[|e| - 1]
    ensures forall x :: x in e[..|e| - 1] ==> (x.id in IdsOf(RemoveAt(r, k)) <==> x.id in IdsOf(r))
  {
    var n := |e| - 1;
    var init, last, r' := e[..n], e[n], RemoveAt(r, k);
    KeysRemoveAt(r, k);
    forall x | x in init ensures x.id in IdsOf(r') <==> x.id in IdsOf(r) {
      var i :| 0 <= i < n && init[i] == x;
      assert e[i] == x;
      assert x.id != last.id;
      if x.id in IdsOf(r) {
        var z :| z in r && z.id == x.id;
        SameRowById(e, r, x, z);
        assert z in multiset(r');
      }
      if x.id in IdsOf(r') {
        var z :| z in r' && z.id == x.id;
        assert z in multiset(r');
        assert z in multiset(r);
      }
    }
  }

  /**
   * Deleting a sub-multiset `r` of a table with unique row ids, by row id,
   * removes exactly r's links.
   */
  lemma {:induction false} KeysWithout(e: seq<JoinRow>, r: seq<JoinRow>)
    requires UniqueIds(e)
    requires multiset(r) <= multiset(e)
    ensures Keys(Without(e, IdsOf(r))) + Keys(r) == Keys(e)
    decreases |e|
  {
    if e == [] {
      assert |multiset(r)| == 0;
    } else {
      var n := |e| - 1;
      var init, last := e[..n], e[n];
      UniquePrefix(e, n);
      KeysSnoc(e);
      WithoutSnoc(init, last, IdsOf(r));
      if last.id in IdsOf(r) {
        var k := FindLast(e, r);
        var r' := RemoveAt(r, k);
        KeysRemoveAt(r, k);
        SubOfInit(e, r, k);
        RemovedIdsAgree(e, r, k);
        WithoutSameOnTable(init, IdsOf(r'), IdsOf(r));
        KeysWithout(init, r');
      } else {
        SubWithoutLast(e, r);
        KeysWithout(init, r);
        KeysAppend(Without(init, IdsOf(r)), [last]);
        assert Targets([last]) == [last.target];
      }
    }
  }

  lemma KeysSnoc(e: seq<JoinRow>)
    requires e != []
    ensures Keys(e) == Keys(e[..|e| - 1]) + multiset{e[|e| - 1].target}
  {
    var n := |e| - 1;
    assert e == e[..n] + [e[n]];
    KeysAppend(e[..n], [e[n]]);
    assert Targets([e[n]]) == [e[n].target];
  }

  /** The row of a sub-multiset carrying the last row's id is the last row itself. */
  lemma FindLast(e: seq<JoinRow>, r: seq<JoinRow>) returns (k: nat)
    requires UniqueIds(e) && e != []
    requires multiset(r) <= multiset(e)
    requires e[|e| - 1].id in IdsOf(r)
    ensures k < |r| && r[k] == e[|e| - 1]
  {
    var last := e[|e| - 1];
    var y :| y in r && y.id == last.id;
    SameRowById(e, r, last, y);
    k :| 0 <= k < |r| && r[k] == last;
  }

  lemma SubOfInit(e: seq<JoinRow>, r: seq<JoinRow>, k: nat)
    requires e != [] && multiset(r) <= multiset(e)
    requires k < |r| && r[k] == e[|e| - 1]
    ensures multiset(RemoveAt(r, k)) <= multiset(e[..|e| - 1])
  {
    var n := |e| - 1;
    assert e == e[..n] + [e[n]];
    assert r == r[..k] + [r[k]] + r[k + 1..];
    assert multiset(r) == multiset(RemoveAt(r, k)) + multiset{e[n]};
    MultisetSubCancel(multiset(RemoveAt(r, k)), multiset(e[..n]), multiset{e[n]});
  }

  lemma SubWithoutLast(e: seq<JoinRow>, r: seq<JoinRow>)
    requires e != [] && multiset(r) <= multiset(e)
    requires e[|e| - 1].id !in IdsOf(r)
    ensures multiset(r) <= multiset(e[..|e| - 1])
  {
    var n := |e| - 1;
    assert e == e[..n] + [e[n]];
    assert e[n] !in multiset(r);
  }

  /** The owner's rows after SetLinks: its surviving rows, then the created ones. */
  lemma SetLinksOwned(rows: seq<JoinRow>, owner: Id, targets: seq<Id>, base: Id)
    ensures var p := PlanLinks(OwnedBy(rows, owner), targets);
      OwnedBy(SetLinks(rows, owner, targets, base), owner)
        == Without(OwnedBy(rows, owner), IdsOf(p.remaining)) + NewRows(base, owner, p.created)
  {
    var p := PlanLinks(OwnedBy(rows, owner), targets);
    var gone := IdsOf(p.remaining);
    var added := NewRows(base, owner, p.created);
    OwnedByAppend(Without(rows, gone), added, owner);
    OwnedByAll(base, owner, p.created);
    OwnedByWithout(rows, owner, gone);
  }

  /**
   * Creating the new rows first and deleting the leftover rows afterwards,
   * as the controllers do, yields SetLinks.
   */
  lemma SetLinksByDeletes(table: seq<JoinRow>, owner: Id, targets: seq<Id>, base: Id)
    requires forall r :: r in table ==> r.id < base
    ensures var p := PlanLinks(OwnedBy(table, owner), targets);
      Without(table + NewRows(base, owner, p.created), IdsOf(p.remaining)) == SetLinks(table, owner, targets, base)
  {
    var existing := OwnedBy(table, owner);
    var p := PlanLinks(existing, targets);
    PlanInvariant(existing, targets);
    forall g | g in IdsOf(p.remaining) ensures g < base {
      var r :| r in p.remaining && r.id == g;
      assert r in multiset(p.remaining);
      assert r in multiset(existing);
    }
    WithoutAppend(table, NewRows(base, owner, p.created), IdsOf(p.remaining));
    WithoutFresh(base, owner, p.created, IdsOf(p.remaining));
  }

  /**
   * After SetLinks the owner's links are exactly the targets, with
   * multiplicity; in particular the set of linked ids is the target set.
   */
  lemma SetLinksTargets(rows: seq<JoinRow>, owner: Id, targets: seq<Id>, base: Id)
    requires UniqueIds(rows)
    ensures Keys(OwnedBy(SetLinks(rows, owner, targets, base), owner)) == multiset(targets)
    ensures forall v :: v in Targets(OwnedBy(SetLinks(rows, owner, targets, base), owner)) <==> v in targets
  {
    var e := OwnedBy(rows, owner);
    var p := PlanLinks(e, targets);
    var gone := IdsOf(p.remaining);
    var added := NewRows(base, owner, p.created);
    var after := OwnedBy(SetLinks(rows, owner, targets, base), owner);
    SetLinksOwned(rows, owner, targets, base);
    PlanInvariant(e, targets);
    assert Keys(Without(e, gone)) == Keys(p.kept) by {
      OwnedByUnique(rows, owner);
      SubOfSum(multiset(p.kept), multiset(p.remaining), multiset(e));
      KeysWithout(e, p.remaining);
      MultisetCancel(Keys(p.remaining), Keys(Without(e, gone)), Keys(p.kept));
    }
    KeysAppend(Without(e, gone), added);
    OwnedByAll(base, owner, p.created);
    forall v ensures v in Targets(after) <==> v in targets {
      assert v in Targets(after) <==> v in Keys(after);
      assert v in targets <==> v in multiset(targets);
    }
  }

  /**
   * Reconciling twice with the same targets: the second walk creates and
   * deletes nothing, and the table stays as the first call left it.
   */
  lemma SetLinksIdempotent(rows: seq<JoinRow>, owner: Id, targets: seq<Id>, base: Id, base': Id)
    requires UniqueIds(rows)
    ensures var after := SetLinks(rows, owner, targets, base);
      && !Changed(PlanLinks(OwnedBy(after, owner), targets))
      && SetLinks(after, owner, targets, base') == after
  {
    var after := SetLinks(rows, owner, targets, base);
    SetLinksTargets(rows, owner, targets, base);
    PlanIdempotent(OwnedBy(after, owner), targets);
    WithoutNothing(after);
    assert IdsOf([]) == {};
    assert NewRows(base', owner, []) == [];
  }

  /**
   * A target linked by exactly one existing row and listed once keeps that
   * row: it is neither deleted nor re-created.
   */
  lemma LinkedTargetKept(rows: seq<JoinRow>, owner: Id, targets: seq<Id>, base: Id, r: JoinRow)
    requires UniqueIds(rows)
    requires r in rows && r.owner == owner
    requires multiset(targets)[r.target] == 1
    requires Keys(OwnedBy(rows, owner))[r.target] == 1
    ensures r in SetLinks(rows, owner, targets, base)
    ensures r.target !in PlanLinks(OwnedBy(rows, owner), targets).created
  {
    var e := OwnedBy(rows, owner);
    var p := PlanLinks(e, targets);
    PlanInvariant(e, targets);
    var k := r.target;
    if k in p.created {
      assert false;
    }
    assert Keys(p.remaining)[k] == 0;
    if r.id in IdsOf(p.remaining) {
      var y :| y in p.remaining && y.id == r.id;
      assert y in multiset(e);
      assert y in rows;
      var i :| 0 <= i < |rows| && rows[i] == y;
      var j :| 0 <= j < |rows| && rows[j] == r;
      assert y == r;
      KeysMember(p.remaining, y);
      assert false;
    }
  }

  /**
   * The returned flag is true exactly when the join table changes: a row is
   * created or a leftover row is deleted.
   */
  lemma SetLinksChanged(rows: seq<JoinRow>, owner: Id, targets: seq<Id>, base: Id)
    requires forall r :: r in rows ==> r.id < base
    ensures Changed(PlanLinks(OwnedBy(rows, owner), targets)) <==> SetLinks(rows, owner, targets, base) != rows
  {
    var p := PlanLinks(OwnedBy(rows, owner), targets);
    if !Changed(p) {
      IdsOfNone();
      WithoutNothing(rows);
      assert NewRows(base, owner, p.created) == [];
    } else if p.created != [] {
      var y := FirstCreated(rows, owner, targets, base);
      assert y !in rows;
    } else {
      var x := FirstLeftover(rows, owner, targets, base);
      assert x !in SetLinks(rows, owner, targets, base);
    }
  }

  /** A created row is in the result table and carries an id from `base` on. */
  lemma FirstCreated(rows: seq<JoinRow>, owner: Id, targets: seq<Id>, base: Id) returns (y: JoinRow)
    requires PlanLinks(OwnedBy(rows, owner), targets).created != []
    ensures y in SetLinks(rows, owner, targets, base) && y.id == base
  {
    var p := PlanLinks(OwnedBy(rows, owner), targets);
    var w, n := Without(rows, IdsOf(p.remaining)), NewRows(base, owner, p.created);
    y := n[0];
    assert (w + n)[|w|] == y;
  }

  /** With nothing created, a leftover row is a stored row missing from the result table. */
  lemma FirstLeftover(rows: seq<JoinRow>, owner: Id, targets: seq<Id>, base: Id) returns (x: JoinRow)
    requires PlanLinks(OwnedBy(rows, owner), targets).created == []
    requires PlanLinks(OwnedBy(rows, owner), targets).remaining != []
    ensures x in rows && x !in SetLinks(rows, owner, targets, base)
  {
    var e := OwnedBy(rows, owner);
    var p := PlanLinks(e, targets);
    x := p.remaining[0];
    PlanInvariant(e, targets);
    assert x in multiset(p.remaining);
    assert x in multiset(e);
    assert x.id in IdsOf(p.remaining);
    assert NewRows(base, owner, p.created) == [];
  }

  /** Reconciling one owner's links leaves every other owner's rows as they were. */
  lemma SetLinksOthers(rows: seq<JoinRow>, owner: Id, targets: seq<Id>, base: Id)
    requires UniqueIds(rows)
    ensures forall r: JoinRow :: r.owner != owner ==> (r in SetLinks(rows, owner, targets, base) <==> r in rows)
  {
    var e := OwnedBy(rows, owner);
    var p := PlanLinks(e, targets);
    PlanInvariant(e, targets);
    forall r | r in rows && r.owner != owner
      ensures r.id !in IdsOf(p.remaining)
    {
      if r.id in IdsOf(p.remaining) {
        var y :| y in p.remaining && y.id == r.id;
        assert y in multiset(e);
        var i :| 0 <= i < |rows| && rows[i] == y;
        assert false;
      }
    }
    NewRowsFacts(base, owner, p.created);
  }

  /** Another owner's rows, in order, are the same before and after the reconciliation. */
  lemma SetLinksOtherOwner(rows: seq<JoinRow>, owner: Id, targets: seq<Id>, base: Id, other: Id)
    requires UniqueIds(rows) && other != owner
    ensures OwnedBy(SetLinks(rows, owner, targets, base), other) == OwnedBy(rows, other)
  {
    var p := PlanLinks(OwnedBy(rows, owner), targets);
    var gone := IdsOf(p.remaining);
    var added := NewRows(base, owner, p.created);
    SetLinksOthers(rows, owner, targets, base);
    OwnedByAppend(Without(rows, gone), added, other);
    NewRowsFacts(base, owner, p.created);
    OwnedByNone(added, other);
    OwnedByWithout(rows, other, gone);
    var mine := OwnedBy(rows, other);
    WithoutSameOnTable(mine, gone, {});
    WithoutNothing(mine);
  }
}
