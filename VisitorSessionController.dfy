/**
 * VisitorSessionController: visitor sessions, the visitors linked to them
 * and their named variables.
 *
 * The class holds the four tables the controller works on (sessions, the
 * visitor table it queries by tag, the session-visitor join table and the
 * session-variable table) and `nextId`, the source of fresh identifiers that
 * stands in for UUID.randomUUID(). Each controller function is a method that
 * updates these tables the way its DAO calls would.
 */
module Sessions {
  import opened Common
  import opened Reconcile

  /** The session state enum; only its identity matters here. */
  datatype SessionState = SessionState(name: string)

  datatype VisitorSession = VisitorSession(id: Id, exhibition: Id, state: SessionState, creatorId: Id, lastModifierId: Id)

  datatype Visitor = Visitor(id: Id, exhibition: Id, tagId: Option<string>)

  /** A stored session variable row. */
  datatype SessionVariable = SessionVariable(id: Id, session: Id, name: string, value: string)

  /** A variable as submitted by the caller. */
  datatype VariableInput = VariableInput(name: string, value: string)

  // ---------------------------------------------------------------------
  // Table queries
  // ---------------------------------------------------------------------

  /** The first session with the given id (visitorSessionDAO.findById). */
  function FindSession(sessions: seq<VisitorSession>, id: Id): (r: Option<VisitorSession>)
    ensures r.Some? ==> r.value in sessions && r.value.id == id
    ensures r.None? ==> forall s :: s in sessions ==> s.id != id
  {
    if sessions == [] then None
    else if sessions[0].id == id then Some(sessions[0])
    else FindSession(sessions[1..], id)
  }

  /** The first visitor of `exhibition` carrying `tagId` (visitorDAO.findByExhibitionAndTagId). */
  function FindVisitorByTag(visitors: seq<Visitor>, exhibition: Id, tagId: string): (r: Option<Visitor>)
    ensures r.Some? ==> r.value in visitors && r.value.exhibition == exhibition && r.value.tagId == Some(tagId)
    ensures r.None? ==> forall v :: v in visitors ==> !(v.exhibition == exhibition && v.tagId == Some(tagId))
    ensures r.Some? ==> exists i :: (
      && 0 <= i < |visitors| && visitors[i] == r.value
      && forall j :: 0 <= j < i ==> !(visitors[j].exhibition == exhibition && visitors[j].tagId == Some(tagId)))
  {
    if visitors == [] then None
    else if visitors[0].exhibition == exhibition && visitors[0].tagId == Some(tagId) then Some(visitors[0])
    else FindVisitorByTag(visitors[1..], exhibition, tagId)
  }

  /** The sessions of an exhibition, in table order (visitorSessionDAO.list). */
  function SessionsOfExhibition(sessions: seq<VisitorSession>, exhibition: Id): (r: seq<VisitorSession>)
    ensures forall s :: s in r <==> s in sessions && s.exhibition == exhibition
  {
    if sessions == [] then []
    else
      var rest := SessionsOfExhibition(sessions[1..], exhibition);
      assert sessions == [sessions[0]] + sessions[1..];
      if sessions[0].exhibition == exhibition then [sessions[0]] + rest else rest
  }

  /** Whether a join row links `session` to `visitor`. */
  predicate Linked(links: seq<JoinRow>, session: Id, visitor: Id)
  {
    exists r :: r in links && r.owner == session && r.target == visitor
  }

  /** The sessions a visitor is linked to (visitorSessionVisitorDAO.listSessionsByVisitor). */
  function SessionsOfVisitor(sessions: seq<VisitorSession>, links: seq<JoinRow>, visitor: Id): (r: seq<VisitorSession>)
    ensures forall s :: s in r <==> s in sessions && Linked(links, s.id, visitor)
  {
    if sessions == [] then []
    else
      var rest := SessionsOfVisitor(sessions[1..], links, visitor);
      assert sessions == [sessions[0]] + sessions[1..];
      if Linked(links, sessions[0].id, visitor) then [sessions[0]] + rest else rest
  }

  /** Replaces the session with the given id. */
  function ReplaceSession(sessions: seq<VisitorSession>, s: VisitorSession): (r: seq<VisitorSession>)
    ensures |r| == |sessions|
    ensures forall i :: 0 <= i < |r| ==> r[i] == if sessions[i].id == s.id then s else sessions[i]
  {
    seq(|sessions|, i requires 0 <= i < |sessions| => if sessions[i].id == s.id then s else sessions[i])
  }

  /** The sessions other than `id`. */
  function WithoutSession(sessions: seq<VisitorSession>, id: Id): (r: seq<VisitorSession>)
    ensures forall s :: s in r <==> s in sessions && s.id != id
  {
    if sessions == [] then []
    else
      var rest := WithoutSession(sessions[1..], id);
      assert sessions == [sessions[0]] + sessions[1..];
      if sessions[0].id == id then rest else [sessions[0]] + rest
  }

  // ---------------------------------------------------------------------
  // The variable table
  // ---------------------------------------------------------------------

  /** The variable rows of `session`, in table order (visitorSessionVariableDAO.listByVisitorSession). */
  function VariablesOf(rows: seq<SessionVariable>, session: Id): (r: seq<SessionVariable>)
    ensures forall x :: x in r <==> x in rows && x.session == session
  {
    if rows == [] then []
    else
      var rest := VariablesOf(rows[..|rows| - 1], session);
      var last := rows[|rows| - 1];
      assert rows == rows[..|rows| - 1] + [last];
      if last.session == session then rest + [last] else rest
  }

  /** The variable table after deleting the rows whose id is in `gone`. */
  function WithoutVariables(rows: seq<SessionVariable>, gone: set<Id>): (r: seq<SessionVariable>)
    ensures forall x :: x in r <==> x in rows && x.id !in gone
  {
    if rows == [] then []
    else
      var rest := WithoutVariables(rows[..|rows| - 1], gone);
      var last := rows[|rows| - 1];
      assert rows == rows[..|rows| - 1] + [last];
      if last.id in gone then rest else rest + [last]
  }

  function VariableIds(rows: seq<SessionVariable>): set<Id>
  {
    set r | r in rows :: r.id
  }

  lemma VariableIdsNone()
    ensures VariableIds([]) == {}
  {
  }

  lemma VariableIdsPrefix(rows: seq<SessionVariable>, j: nat)
    requires j < |rows|
    ensures VariableIds(rows[..j + 1]) == VariableIds(rows[..j]) + {rows[j].id}
  {
    assert rows[..j + 1] == rows[..j] + [rows[j]];
    assert forall x :: x in rows[..j + 1] <==> x in rows[..j] || x == rows[j];
  }

  predicate UniqueVariableIds(rows: seq<SessionVariable>)
  {
    forall i, j :: 0 <= i < j < |rows| ==> rows[i].id != rows[j].id
  }

  /** Variable names do not repeat. */
  predicate UniqueNames(rows: seq<SessionVariable>)
  {
    forall i, j :: 0 <= i < j < |rows| ==> rows[i].name != rows[j].name
  }

  /** The rows created for `inputs`, with consecutive fresh ids from `base`. */
  function NewVariables(base: Id, session: Id, inputs: seq<VariableInput>): seq<SessionVariable>
  {
    seq(|inputs|, i requires 0 <= i < |inputs| => SessionVariable(base + i, session, inputs[i].name, inputs[i].value))
  }

  /** visitorSessionVariableDAO.updateValue: the row with the given id gets `value`. */
  function SetValue(rows: seq<SessionVariable>, id: Id, value: string): (r: seq<SessionVariable>)
    ensures |r| == |rows|
    ensures forall i :: 0 <= i < |r| ==> r[i] == if rows[i].id == id then rows[i].(value := value) else rows[i]
  {
    seq(|rows|, i requires 0 <= i < |rows| => if rows[i].id == id then rows[i].(value := value) else rows[i])
  }

  /** Kotlin's `find { it.name == name }` on the working list. */
  function FindName(rows: seq<SessionVariable>, name: string): (r: Option<nat>)
    ensures r.Some? ==> r.value < |rows| && rows[r.value].name == name
    ensures r.Some? ==> forall j :: 0 <= j < r.value ==> rows[j].name != name
    ensures r.None? ==> forall j :: 0 <= j < |rows| ==> rows[j].name != name
  {
    if rows == [] then None
    else if rows[0].name == name then Some(0)
    else match FindName(rows[1..], name)
      case None => None
      case Some(k) => Some(k + 1)
  }

  /**
   * The outcome of the variable walk as written: rows left in the working list
   * (deleted), inputs created, and rows on which updateValue runs.
   */
  datatype VariablePlan = VariablePlan(remaining: seq<SessionVariable>, created: seq<VariableInput>, updated: seq<SessionVariable>)

  /**
   * For each input: no row of that name in the working list creates it; a
   * non-blank value equal to the stored one runs updateValue; a non-blank
   * value drops the row from the working list; a blank value leaves the row
   * in the working list, so it is deleted at the end.
   */
  function PlanVariables(existing: seq<SessionVariable>, inputs: seq<VariableInput>): VariablePlan
    decreases |inputs|
  {
    if inputs == [] then VariablePlan(existing, [], [])
    else
      var p := PlanVariables(existing, inputs[..|inputs| - 1]);
      var v := inputs[|inputs| - 1];
      match FindName(p.remaining, v.name)
      case None => p.(created := p.created + [v])
      case Some(k) =>
        if IsBlank(v.value) then p
        else if v.value == p.remaining[k].value then
          VariablePlan(RemoveAt(p.remaining, k), p.created, p.updated + [p.remaining[k]])
        else p.(remaining := RemoveAt(p.remaining, k))
  }

  /** The returned flag: a create, an updateValue or a leftover delete. */
  predicate VariablesChanged(p: VariablePlan)
  {
    p.created != [] || p.updated != [] || p.remaining != []
  }

  /** The variable table after setVisitorSessionVariables. */
  function SetVariables(rows: seq<SessionVariable>, session: Id, inputs: seq<VariableInput>, base: Id): seq<SessionVariable>
  {
    var p := PlanVariables(VariablesOf(rows, session), inputs);
    WithoutVariables(rows, VariableIds(p.remaining)) + NewVariables(base, session, p.created)
  }

  // ---------------------------------------------------------------------
  // The controller
  // ---------------------------------------------------------------------

  class VisitorSessionController {
    var sessions: seq<VisitorSession>
    var visitors: seq<Visitor>
    var sessionVisitors: seq<JoinRow>
    var sessionVariables: seq<SessionVariable>
    /** Every id handed out so far is below nextId. */
    var nextId: Id

    predicate HasSession(id: Id)
      reads this
    {
      id in SessionIds(sessions)
    }

    predicate HasVisitor(id: Id)
      reads this
    {
      id in VisitorIds(visitors)
    }

    /**
     * Primary keys are unique and below nextId, and every join row and
     * variable row refers to a stored session (and visitor).
     */
    ghost predicate Valid()
      reads this
    {
      && SessionsValid(sessions, nextId)
      && UniqueVisitorIds(visitors)
      && LinksValid(sessionVisitors, SessionIds(sessions), VisitorIds(visitors), nextId)
      && VariablesValid(sessionVariables, SessionIds(sessions), nextId)
    }

    /** A store with the given visitors (managed elsewhere) and no sessions. */
    constructor (visitors: seq<Visitor>, nextId: Id)
      requires UniqueVisitorIds(visitors)
      ensures Valid()
      ensures this.visitors == visitors && this.nextId == nextId
      ensures sessions == [] && sessionVisitors == [] && sessionVariables == []
    {
      this.visitors := visitors;
      this.nextId := nextId;
      sessions := [];
      sessionVisitors := [];
      sessionVariables := [];
    }

    /** createVisitorSession: a fresh id; creator and last modifier are both the caller. */
    method CreateVisitorSession(exhibition: Id, state: SessionState, creatorId: Id) returns (s: VisitorSession)
      requires Valid()
      modifies this
      ensures Valid()
      ensures s == VisitorSession(old(nextId), exhibition, state, creatorId, creatorId)
      ensures !old(HasSession(s.id))
      ensures sessions == old(sessions) + [s] && nextId == old(nextId) + 1
      ensures visitors == old(visitors) && sessionVisitors == old(sessionVisitors)
      ensures sessionVariables == old(sessionVariables)
    {
      s := VisitorSession(nextId, exhibition, state, creatorId, creatorId);
      sessions := sessions + [s];
      nextId := nextId + 1;
    }

    /** findVisitorSessionById */
    function FindVisitorSessionById(id: Id): (r: Option<VisitorSession>)
      reads this
      ensures r.Some? ==> r.value in sessions && r.value.id == id
      ensures r.None? <==> !HasSession(id)
    {
      FindSession(sessions, id)
    }

    /**
     * listVisitorSessions: without a tag, the exhibition's sessions; with a
     * tag, the sessions of the exhibition's visitor carrying it, or none
     * when no such visitor exists.
     */
    function ListVisitorSessions(exhibition: Id, tagId: Option<string>): (r: seq<VisitorSession>)
      reads this
      ensures tagId.None? ==> forall s :: s in r <==> s in sessions && s.exhibition == exhibition
      ensures tagId.Some? && FindVisitorByTag(visitors, exhibition, tagId.value).None? ==> r == []
      ensures tagId.Some? ==> forall s :: s in r <==>
        exists v :: v in visitors && v.exhibition == exhibition && v.tagId == tagId
          && v == FindVisitorByTag(visitors, exhibition, tagId.value).value
          && s in sessions && Linked(sessionVisitors, s.id, v.id)
    {
      match tagId
      case None => SessionsOfExhibition(sessions, exhibition)
      case Some(tag) =>
        match FindVisitorByTag(visitors, exhibition, tag)
        case None => []
        case Some(v) => SessionsOfVisitor(sessions, sessionVisitors, v.id)
    }

    /** updateVisitorSession: the state and the last modifier change, nothing else. */
    method UpdateVisitorSession(id: Id, state: SessionState, lastModifierId: Id) returns (s: VisitorSession)
      requires Valid() && HasSession(id)
      modifies this
      ensures Valid()
      ensures old(FindVisitorSessionById(id)).Some?
      ensures s == old(FindVisitorSessionById(id)).value.(state := state, lastModifierId := lastModifierId)
      ensures sessions == ReplaceSession(old(sessions), s)
      ensures FindVisitorSessionById(id) == Some(s)
      ensures visitors == old(visitors) && sessionVisitors == old(sessionVisitors)
      ensures sessionVariables == old(sessionVariables) && nextId == old(nextId)
    {
      var found := FindSession(sessions, id);
      s := found.value.(state := state, lastModifierId := lastModifierId);
      ReplaceSessionValid(sessions, nextId, s);
      sessions := ReplaceSession(sessions, s);
    }

    /** visitorSessionVisitorDAO.create */
    method CreateSessionVisitor(session: Id, visitor: Id)
      modifies this
      ensures sessionVisitors == old(sessionVisitors) + [JoinRow(old(nextId), session, visitor)]
      ensures nextId == old(nextId) + 1
      ensures sessions == old(sessions) && visitors == old(visitors)
      ensures sessionVariables == old(sessionVariables)
    {
      sessionVisitors := sessionVisitors + [JoinRow(nextId, session, visitor)];
      nextId := nextId + 1;
    }

    /** CreateSessionVisitor, seen as growing the rows created from `base` on. */
    method CreateNextLink(ghost table: seq<JoinRow>, ghost base: Id, session: Id, ghost created: seq<Id>, v: Id)
      requires sessionVisitors == table + NewRows(base, session, created)
      requires nextId == base + |created|
      modifies this
      ensures sessionVisitors == table + NewRows(base, session, created + [v])
      ensures nextId == base + |created| + 1
      ensures sessions == old(sessions) && visitors == old(visitors)
      ensures sessionVariables == old(sessionVariables)
    {
      CreateSessionVisitor(session, v);
      NewRowsSnoc(base, session, created, v);
      assert (table + NewRows(base, session, created)) + [JoinRow(base + |created|, session, v)]
        == table + (NewRows(base, session, created) + [JoinRow(base + |created|, session, v)]);
    }

    /** visitorSessionVisitorDAO.delete */
    method DeleteSessionVisitor(row: JoinRow)
      modifies this
      ensures sessionVisitors == Without(old(sessionVisitors), {row.id})
      ensures sessions == old(sessions) && visitors == old(visitors)
      ensures sessionVariables == old(sessionVariables) && nextId == old(nextId)
    {
      sessionVisitors := Without(sessionVisitors, {row.id});
    }

    /** DeleteSessionVisitor on the next row of `rows`, seen as growing the deleted prefix. */
    method DeleteNextLink(ghost table: seq<JoinRow>, rows: seq<JoinRow>, j: nat)
      requires j < |rows| && sessionVisitors == Without(table, IdsOf(rows[..j]))
      modifies this
      ensures sessionVisitors == Without(table, IdsOf(rows[..j + 1]))
      ensures sessions == old(sessions) && visitors == old(visitors)
      ensures sessionVariables == old(sessionVariables) && nextId == old(nextId)
    {
      DeleteSessionVisitor(rows[j]);
      WithoutWithout(table, IdsOf(rows[..j]), {rows[j].id});
      IdsOfPrefix(rows, j);
    }

    /** `rows.forEach(visitorSessionVisitorDAO::delete)` */
    method DeleteSessionVisitors(rows: seq<JoinRow>)
      modifies this
      ensures sessionVisitors == Without(old(sessionVisitors), IdsOf(rows))
      ensures sessions == old(sessions) && visitors == old(visitors)
      ensures sessionVariables == old(sessionVariables) && nextId == old(nextId)
    {
      ghost var table := sessionVisitors;
      WithoutNothing(table);
      assert rows[..0] == [];
      IdsOfNone();
      var j := 0;
      while j < |rows|
        invariant 0 <= j <= |rows|
        invariant sessionVisitors == Without(table, IdsOf(rows[..j]))
        invariant sessions == old(sessions) && visitors == old(visitors)
        invariant sessionVariables == old(sessionVariables) && nextId == old(nextId)
      {
        DeleteNextLink(table, rows, j);
        j := j + 1;
      }
      assert rows[..j] == rows;
    }

    /**
     * The `for (visitor in visitors)` loop of setVisitorSessionVisitors: walks
     * the targets against the working list of the session's links, creating a
     * link for each target the working list lacks. Returns the working list
     * left over and whether a link was created.
     */
    method LinkVisitors(session: Id, visitorIds: seq<Id>) returns (working: seq<JoinRow>, created: bool)
      modifies this
      ensures var p := PlanLinks(OwnedBy(old(sessionVisitors), session), visitorIds);
        && working == p.remaining
        && sessionVisitors == old(sessionVisitors) + NewRows(old(nextId), session, p.created)
        && nextId == old(nextId) + |p.created|
        && created == (p.created != [])
      ensures sessions == old(sessions) && visitors == old(visitors)
      ensures sessionVariables == old(sessionVariables)
    {
      ghost var table, base := sessionVisitors, nextId;
      ghost var existing := OwnedBy(table, session);
      created := false;
      working := OwnedBy(sessionVisitors, session);
      ghost var plan := PlanLinks(existing, []);
      var i := 0;
      while i < |visitorIds|
        invariant 0 <= i <= |visitorIds|
        invariant plan == PlanLinks(existing, visitorIds[..i])
        invariant working == plan.remaining
        invariant sessionVisitors == table + NewRows(base, session, plan.created)
        invariant nextId == base + |plan.created|
        invariant created == (plan.created != [])
        invariant sessions == old(sessions) && visitors == old(visitors)
        invariant sessionVariables == old(sessionVariables)
      {
        var v := visitorIds[i];
        PlanLinksStep(existing, visitorIds, i);
        match FindTarget(working, v) {
          case None =>
            CreateNextLink(table, base, session, plan.created, v);
            plan := plan.(created := plan.created + [v]);
            created := true;
          case Some(k) =>
            plan := Plan(RemoveAt(working, k), plan.kept + [working[k]], plan.created);
            working := RemoveAt(working, k);
        }
        i := i + 1;
      }
      assert visitorIds[..i] == visitorIds;
    }

    /**
     * setVisitorSessionVisitors: reconciles the session's visitor links with
     * `visitorIds` and reports whether it created or deleted a link.
     */
    method SetVisitorSessionVisitors(session: Id, visitorIds: seq<Id>) returns (changed: bool)
      requires Valid() && HasSession(session)
      requires forall v :: v in visitorIds ==> HasVisitor(v)
      modifies this
      ensures Valid()
      ensures sessionVisitors == SetLinks(old(sessionVisitors), session, visitorIds, old(nextId))
      ensures changed == Changed(PlanLinks(OwnedBy(old(sessionVisitors), session), visitorIds))
      ensures nextId == old(nextId) + |PlanLinks(OwnedBy(old(sessionVisitors), session), visitorIds).created|
      ensures sessions == old(sessions) && visitors == old(visitors)
      ensures sessionVariables == old(sessionVariables)
    {
      ghost var table, base := sessionVisitors, nextId;
      var working;
      working, changed := LinkVisitors(session, visitorIds);
      changed := changed || working != [];
      DeleteSessionVisitors(working);
      SetLinksByDeletes(table, session, visitorIds, base);
      SetLinksValid(table, SessionIds(sessions), VisitorIds(visitors), base, session, visitorIds);
    }

    /** visitorSessionVariableDAO.create */
    method CreateSessionVariable(session: Id, name: string, value: string)
      modifies this
      ensures sessionVariables == old(sessionVariables) + [SessionVariable(old(nextId), session, name, value)]
      ensures nextId == old(nextId) + 1
      ensures sessions == old(sessions) && visitors == old(visitors)
      ensures sessionVisitors == old(sessionVisitors)
    {
      sessionVariables := sessionVariables + [SessionVariable(nextId, session, name, value)];
      nextId := nextId + 1;
    }

    /** CreateSessionVariable, seen as growing the rows created from `base` on. */
    method CreateNextVariable(ghost table: seq<SessionVariable>, ghost base: Id, session: Id,
                              ghost created: seq<VariableInput>, v: VariableInput)
      requires sessionVariables == table + NewVariables(base, session, created)
      requires nextId == base + |created|
      modifies this
      ensures sessionVariables == table + NewVariables(base, session, created + [v])
      ensures nextId == base + |created| + 1
      ensures sessions == old(sessions) && visitors == old(visitors)
      ensures sessionVisitors == old(sessionVisitors)
    {
      CreateSessionVariable(session, v.name, v.value);
      NewVariablesSnoc(base, session, created, v);
      assert (table + NewVariables(base, session, created)) + [SessionVariable(base + |created|, session, v.name, v.value)]
        == table + (NewVariables(base, session, created) + [SessionVariable(base + |created|, session, v.name, v.value)]);
    }

    /** visitorSessionVariableDAO.updateValue */
    method UpdateValue(row: SessionVariable, value: string)
      modifies this
      ensures sessionVariables == SetValue(old(sessionVariables), row.id, value)
      ensures sessions == old(sessions) && visitors == old(visitors)
      ensures sessionVisitors == old(sessionVisitors) && nextId == old(nextId)
    {
      sessionVariables := SetValue(sessionVariables, row.id, value);
    }

    /** visitorSessionVariableDAO.delete */
    method DeleteSessionVariable(row: SessionVariable)
      modifies this
      ensures sessionVariables == WithoutVariables(old(sessionVariables), {row.id})
      ensures sessions == old(sessions) && visitors == old(visitors)
      ensures sessionVisitors == old(sessionVisitors) && nextId == old(nextId)
    {
      sessionVariables := WithoutVariables(sessionVariables, {row.id});
    }

    /** DeleteSessionVariable on the next row of `rows`, seen as growing the deleted prefix. */
    method DeleteNextVariable(ghost table: seq<SessionVariable>, rows: seq<SessionVariable>, j: nat)
      requires j < |rows| && sessionVariables == WithoutVariables(table, VariableIds(rows[..j]))
      modifies this
      ensures sessionVariables == WithoutVariables(table, VariableIds(rows[..j + 1]))
      ensures sessions == old(sessions) && visitors == old(visitors)
      ensures sessionVisitors == old(sessionVisitors) && nextId == old(nextId)
    {
      DeleteSessionVariable(rows[j]);
      WithoutVariablesTwice(table, VariableIds(rows[..j]), {rows[j].id});
      VariableIdsPrefix(rows, j);
    }

    /** `rows.forEach(visitorSessionVariableDAO::delete)` */
    method DeleteSessionVariables(rows: seq<SessionVariable>)
      modifies this
      ensures sessionVariables == WithoutVariables(old(sessionVariables), VariableIds(rows))
      ensures sessions == old(sessions) && visitors == old(visitors)
      ensures sessionVisitors == old(sessionVisitors) && nextId == old(nextId)
    {
      ghost var table := sessionVariables;
      WithoutVariablesKeep(table, {});
      assert rows[..0] == [];
      VariableIdsNone();
      var j := 0;
      while j < |rows|
        invariant 0 <= j <= |rows|
        invariant sessionVariables == WithoutVariables(table, VariableIds(rows[..j]))
        invariant sessions == old(sessions) && visitors == old(visitors)
        invariant sessionVisitors == old(sessionVisitors) && nextId == old(nextId)
      {
        DeleteNextVariable(table, rows, j);
        j := j + 1;
      }
      assert rows[..j] == rows;
    }

    /**
     * The `for (variable in variables)` loop of setVisitorSessionVariables,
     * as written: see PlanVariables for what each submitted variable does.
     * Returns the working list left over and whether a variable was created
     * or updated.
     */
    method ApplyVariables(session: Id, inputs: seq<VariableInput>) returns (working: seq<SessionVariable>, written: bool)
      requires UniqueVariableIds(sessionVariables) && forall r :: r in sessionVariables ==> r.id < nextId
      modifies this
      ensures var p := PlanVariables(VariablesOf(old(sessionVariables), session), inputs);
        && working == p.remaining
        && sessionVariables == old(sessionVariables) + NewVariables(old(nextId), session, p.created)
        && nextId == old(nextId) + |p.created|
        && written == (p.created != [] || p.updated != [])
      ensures sessions == old(sessions) && visitors == old(visitors)
      ensures sessionVisitors == old(sessionVisitors)
    {
      ghost var table, base := sessionVariables, nextId;
      ghost var existing := VariablesOf(table, session);
      written := false;
      working := VariablesOf(sessionVariables, session);
      ghost var plan := PlanVariables(existing, []);
      var i := 0;
      while i < |inputs|
        invariant 0 <= i <= |inputs|
        invariant plan == PlanVariables(existing, inputs[..i])
        invariant working == plan.remaining
        invariant sessionVariables == table + NewVariables(base, session, plan.created)
        invariant nextId == base + |plan.created|
        invariant written == (plan.created != [] || plan.updated != [])
        invariant sessions == old(sessions) && visitors == old(visitors)
        invariant sessionVisitors == old(sessionVisitors)
      {
        var v := inputs[i];
        PlanVariablesStep(existing, inputs, i);
        match FindName(working, v.name) {
          case None =>
            CreateNextVariable(table, base, session, plan.created, v);
            plan := plan.(created := plan.created + [v]);
            written := true;
          case Some(k) =>
            if !IsBlank(v.value) {
              if v.value == working[k].value {
                UpdateSameValue(table, base, session, inputs[..i], k);
                UpdateValue(working[k], v.value);
                plan := VariablePlan(RemoveAt(working, k), plan.created, plan.updated + [working[k]]);
                written := true;
              } else {
                plan := plan.(remaining := RemoveAt(working, k));
              }
              working := RemoveAt(working, k);
            }
        }
        i := i + 1;
      }
      assert inputs[..i] == inputs;
    }

    /**
     * setVisitorSessionVariables, as written: reconciles the session's
     * variables with `inputs` and reports whether it wrote anything.
     */
    method SetVisitorSessionVariables(session: Id, inputs: seq<VariableInput>) returns (changed: bool)
      requires Valid() && HasSession(session)
      modifies this
      ensures Valid()
      ensures sessionVariables == SetVariables(old(sessionVariables), session, inputs, old(nextId))
      ensures changed == VariablesChanged(PlanVariables(VariablesOf(old(sessionVariables), session), inputs))
      ensures nextId == old(nextId) + |PlanVariables(VariablesOf(old(sessionVariables), session), inputs).created|
      ensures sessions == old(sessions) && visitors == old(visitors)
      ensures sessionVisitors == old(sessionVisitors)
    {
      ghost var table, base := sessionVariables, nextId;
      var working;
      working, changed := ApplyVariables(session, inputs);
      changed := changed || working != [];
      DeleteSessionVariables(working);
      SetVariablesByDeletes(table, session, inputs, base);
      SetVariablesValid(table, SessionIds(sessions), base, session, inputs);
    }

    /** visitorSessionDAO.delete: only a session no row refers to can be deleted. */
    method DeleteSessionRow(id: Id)
      requires forall r :: r in sessionVisitors ==> r.owner != id
      requires forall r :: r in sessionVariables ==> r.session != id
      modifies this
      ensures sessions == WithoutSession(old(sessions), id)
      ensures visitors == old(visitors) && sessionVisitors == old(sessionVisitors)
      ensures sessionVariables == old(sessionVariables) && nextId == old(nextId)
    {
      sessions := WithoutSession(sessions, id);
    }

    /**
     * deleteVisitorSession: deletes the session's variables, then its visitor
     * links, then the session itself; the other sessions' rows stay.
     */
    method DeleteVisitorSession(id: Id)
      requires Valid() && HasSession(id)
      modifies this
      ensures Valid()
      ensures !HasSession(id)
      ensures sessions == WithoutSession(old(sessions), id)
      ensures forall r :: r in sessionVisitors <==> r in old(sessionVisitors) && r.owner != id
      ensures forall r :: r in sessionVariables <==> r in old(sessionVariables) && r.session != id
      ensures visitors == old(visitors) && nextId == old(nextId)
    {
      ghost var vars0, links0 := sessionVariables, sessionVisitors;
      var variables := VariablesOf(sessionVariables, id);
      DeleteSessionVariables(variables);
      var links := OwnedBy(sessionVisitors, id);
      DeleteSessionVisitors(links);
      WithoutOwned(links0, id);
      WithoutVariablesOwned(vars0, id);
      WithoutVariablesUnique(vars0, VariableIds(variables));
      DeleteSessionRow(id);
      DeleteSessionValid(old(sessions), old(visitors), old(sessionVisitors), old(sessionVariables), nextId, id,
        sessionVisitors, sessionVariables);
    }
  }

  // ---------------------------------------------------------------------
  // Store validity
  // ---------------------------------------------------------------------

  function SessionIds(sessions: seq<VisitorSession>): set<Id>
  {
    set s | s in sessions :: s.id
  }

  function VisitorIds(visitors: seq<Visitor>): set<Id>
  {
    set v | v in visitors :: v.id
  }

  predicate UniqueSessionIds(sessions: seq<VisitorSession>)
  {
    forall i, j :: 0 <= i < j < |sessions| ==> sessions[i].id != sessions[j].id
  }

  predicate UniqueVisitorIds(visitors: seq<Visitor>)
  {
    forall i, j :: 0 <= i < j < |visitors| ==> visitors[i].id != visitors[j].id
  }

  /** Session ids are unique and below `bound`. */
  predicate SessionsValid(sessions: seq<VisitorSession>, bound: Id)
  {
    UniqueSessionIds(sessions) && forall s :: s in sessions ==> s.id < bound
  }

  /** Link ids are unique and below `bound`; every link joins a stored session and a stored visitor. */
  predicate LinksValid(links: seq<JoinRow>, sessionIds: set<Id>, visitorIds: set<Id>, bound: Id)
  {
    UniqueIds(links) && forall r :: r in links ==> r.id < bound && r.owner in sessionIds && r.target in visitorIds
  }

  /** Variable ids are unique and below `bound`; every variable belongs to a stored session. */
  predicate VariablesValid(rows: seq<SessionVariable>, sessionIds: set<Id>, bound: Id)
  {
    UniqueVariableIds(rows) && forall r :: r in rows ==> r.id < bound && r.session in sessionIds
  }

  /** The join table produced by setVisitorSessionVisitors stays valid. */
  lemma SetLinksValid(links: seq<JoinRow>, sessionIds: set<Id>, visitorIds: set<Id>, bound: Id, session: Id, targets: seq<Id>)
    requires LinksValid(links, sessionIds, visitorIds, bound)
    requires session in sessionIds && forall v :: v in targets ==> v in visitorIds
    ensures LinksValid(SetLinks(links, session, targets, bound), sessionIds, visitorIds,
      bound + |PlanLinks(OwnedBy(links, session), targets).created|)
  {
    SetLinksShape(links, session, targets, bound);
  }

  /** The variable table produced by setVisitorSessionVariables stays valid. */
  lemma SetVariablesValid(rows: seq<SessionVariable>, sessionIds: set<Id>, bound: Id, session: Id, inputs: seq<VariableInput>)
    requires VariablesValid(rows, sessionIds, bound) && session in sessionIds
    ensures VariablesValid(SetVariables(rows, session, inputs, bound), sessionIds,
      bound + |PlanVariables(VariablesOf(rows, session), inputs).created|)
  {
    var p := PlanVariables(VariablesOf(rows, session), inputs);
    WithoutVariablesUnique(rows, VariableIds(p.remaining));
    NewVariablesFacts(bound, session, p.created);
    VariablesAppendFreshUnique(WithoutVariables(rows, VariableIds(p.remaining)), NewVariables(bound, session, p.created), bound);
  }

  /** Created variables have distinct fresh ids and the session. */
  lemma NewVariablesFacts(base: Id, session: Id, inputs: seq<VariableInput>)
    ensures UniqueVariableIds(NewVariables(base, session, inputs))
    ensures forall r :: r in NewVariables(base, session, inputs) ==> base <= r.id < base + |inputs| && r.session == session
  {
  }

  /** Variables with ids below `bound` followed by variables with ids from `bound` on keep ids unique. */
  lemma VariablesAppendFreshUnique(kept: seq<SessionVariable>, added: seq<SessionVariable>, bound: Id)
    requires UniqueVariableIds(kept) && UniqueVariableIds(added)
    requires forall r :: r in kept ==> r.id < bound
    requires forall r :: r in added ==> bound <= r.id
    ensures UniqueVariableIds(kept + added)
  {
    var all := kept + added;
    forall i, j | 0 <= i < j < |all| ensures all[i].id != all[j].id {
      if j < |kept| {
        assert all[i] == kept[i] && all[j] == kept[j];
      } else if i < |kept| {
        assert all[i] in kept && all[j] in added;
      } else {
        assert all[i] == added[i - |kept|] && all[j] == added[j - |kept|];
      }
    }
  }

  /** Deleting a session together with every row that refers to it keeps the store valid. */
  lemma DeleteSessionValid(sessions: seq<VisitorSession>, visitors: seq<Visitor>, links: seq<JoinRow>,
                           rows: seq<SessionVariable>, bound: Id, id: Id,
                           links': seq<JoinRow>, rows': seq<SessionVariable>)
    requires SessionsValid(sessions, bound) && UniqueVisitorIds(visitors)
    requires LinksValid(links, SessionIds(sessions), VisitorIds(visitors), bound)
    requires VariablesValid(rows, SessionIds(sessions), bound)
    requires links' == Without(links, IdsOf(OwnedBy(links, id)))
    requires forall r :: r in links' <==> r in links && r.owner != id
    requires forall r :: r in rows' <==> r in rows && r.session != id
    requires UniqueVariableIds(rows')
    ensures var sessions' := WithoutSession(sessions, id);
      && SessionsValid(sessions', bound)
      && LinksValid(links', SessionIds(sessions'), VisitorIds(visitors), bound)
      && VariablesValid(rows', SessionIds(sessions'), bound)
  {
    var sessions' := WithoutSession(sessions, id);
    WithoutSessionUnique(sessions, id);
    WithoutUnique(links, IdsOf(OwnedBy(links, id)));
    forall r | r in links' ensures r.owner in SessionIds(sessions') {
      var s :| s in sessions && s.id == r.owner;
      assert s in sessions';
    }
    forall r | r in rows' ensures r.session in SessionIds(sessions') {
      var s :| s in sessions && s.id == r.session;
      assert s in sessions';
    }
  }

  // ---------------------------------------------------------------------
  // Table lemmas
  // ---------------------------------------------------------------------

  /** Deleting a session's variables by id removes exactly the variables of that session. */
  lemma WithoutVariablesOwned(rows: seq<SessionVariable>, session: Id)
    requires UniqueVariableIds(rows)
    ensures forall r ::
      r in WithoutVariables(rows, VariableIds(VariablesOf(rows, session))) <==> r in rows && r.session != session
  {
    forall r | r in rows && r.session != session ensures r.id !in VariableIds(VariablesOf(rows, session)) {
      if r.id in VariableIds(VariablesOf(rows, session)) {
        assert false;
      }
    }
  }

  /** One step of the variable walk, as the controller's loop takes it. */
  lemma PlanVariablesStep(existing: seq<SessionVariable>, inputs: seq<VariableInput>, i: nat)
    requires i < |inputs|
    ensures var p := PlanVariables(existing, inputs[..i]);
      var v := inputs[i];
      PlanVariables(existing, inputs[..i + 1]) ==
        match FindName(p.remaining, v.name)
        case None => p.(created := p.created + [v])
        case Some(k) =>
          if IsBlank(v.value) then p
          else if v.value == p.remaining[k].value then
            VariablePlan(RemoveAt(p.remaining, k), p.created, p.updated + [p.remaining[k]])
          else p.(remaining := RemoveAt(p.remaining, k))
  {
    assert inputs[..i + 1][..i] == inputs[..i];
  }

  lemma NewVariablesSnoc(base: Id, session: Id, inputs: seq<VariableInput>, v: VariableInput)
    ensures NewVariables(base, session, inputs + [v])
      == NewVariables(base, session, inputs) + [SessionVariable(base + |inputs|, session, v.name, v.value)]
  {
  }

  /** The walk only ever holds, updates or leaves over existing rows. */
  lemma {:induction false} PlanVariablesFromExisting(existing: seq<SessionVariable>, inputs: seq<VariableInput>)
    ensures var p := PlanVariables(existing, inputs);
      && (forall r :: r in p.remaining ==> r in existing)
      && (forall r :: r in p.updated ==> r in existing)
    decreases |inputs|
  {
    if inputs != [] {
      var p := PlanVariables(existing, inputs[..|inputs| - 1]);
      PlanVariablesFromExisting(existing, inputs[..|inputs| - 1]);
      var v := inputs[|inputs| - 1];
      match FindName(p.remaining, v.name) {
        case None =>
        case Some(k) =>
          assert forall x :: x in RemoveAt(p.remaining, k) ==> x in p.remaining;
      }
    }
  }

  /** Submitted variable names do not repeat. */
  predicate UniqueInputNames(inputs: seq<VariableInput>)
  {
    forall i, j :: 0 <= i < j < |inputs| ==> inputs[i].name != inputs[j].name
  }

  /** Some input names `x` with a non-blank value: the row leaves the working list. */
  predicate Settled(inputs: seq<VariableInput>, x: SessionVariable)
  {
    exists v :: v in inputs && v.name == x.name && !IsBlank(v.value)
  }

  /** Some input names `x` with a non-blank value equal to the stored one: updateValue runs. */
  predicate Resubmitted(inputs: seq<VariableInput>, x: SessionVariable)
  {
    exists v :: v in inputs && v.name == x.name && !IsBlank(v.value) && v.value == x.value
  }

  /**
   * What the variable walk `p` over `inputs` has done to each row and each
   * input: a row is deleted unless an input names it with a non-blank
   * value; updateValue runs on a row exactly when that value equals the
   * stored one; an input is created exactly when no row has its name.
   */
  ghost predicate Outcome(existing: seq<SessionVariable>, inputs: seq<VariableInput>, p: VariablePlan)
  {
    && UniqueNames(p.remaining)
    && (forall x :: x in p.remaining <==> x in existing && !Settled(inputs, x))
    && (forall x :: x in p.updated <==> x in existing && Resubmitted(inputs, x))
    && (forall v :: v in p.created <==> v in inputs && forall x :: x in existing ==> x.name != v.name)
  }

  /** For unique names, the walk as written has the outcome above. */
  lemma {:induction false} PlanVariablesOutcome(existing: seq<SessionVariable>, inputs: seq<VariableInput>)
    requires UniqueNames(existing) && UniqueInputNames(inputs)
    ensures Outcome(existing, inputs, PlanVariables(existing, inputs))
    decreases |inputs|
  {
    if inputs == [] {
      forall x | x in existing ensures !Settled(inputs, x) && !Resubmitted(inputs, x) {
      }
    } else {
      var n := |inputs| - 1;
      var done, v := inputs[..n], inputs[n];
      assert inputs == done + [v];
      assert UniqueInputNames(done);
      PlanVariablesOutcome(existing, done);
      forall w | w in done ensures w.name != v.name {
        var j :| 0 <= j < n && done[j] == w;
      }
      var p := PlanVariables(existing, done);
      match FindName(p.remaining, v.name) {
        case None =>
          OutcomeCreate(existing, done, v, p);
        case Some(k) =>
          if IsBlank(v.value) {
            OutcomeBlank(existing, done, v, p);
          } else {
            OutcomeSettle(existing, done, v, p, k);
          }
      }
    }
  }

  /** An input whose name the working list lacks is created. */
  lemma OutcomeCreate(existing: seq<SessionVariable>, done: seq<VariableInput>, v: VariableInput, p: VariablePlan)
    requires Outcome(existing, done, p)
    requires forall w :: w in done ==> w.name != v.name
    requires forall j :: 0 <= j < |p.remaining| ==> p.remaining[j].name != v.name
    ensures Outcome(existing, done + [v], p.(created := p.created + [v]))
  {
    forall x | x in existing ensures x.name != v.name {
      if x.name == v.name {
        assert false;
      }
    }
    OutcomeSnoc(existing, done, v);
  }

  /** A blank value for a name in the working list changes nothing, so the row stays there. */
  lemma OutcomeBlank(existing: seq<SessionVariable>, done: seq<VariableInput>, v: VariableInput, p: VariablePlan)
    requires Outcome(existing, done, p)
    requires IsBlank(v.value)
    requires exists x :: x in existing && x.name == v.name
    ensures Outcome(existing, done + [v], p)
  {
    OutcomeSnoc(existing, done, v);
  }

  /**
   * A non-blank value for the row at k of the working list takes the row
   * out of it, and runs updateValue when the values are equal.
   */
  lemma OutcomeSettle(existing: seq<SessionVariable>, done: seq<VariableInput>, v: VariableInput, p: VariablePlan, k: nat)
    requires UniqueNames(existing)
    requires Outcome(existing, done, p)
    requires forall w :: w in done ==> w.name != v.name
    requires !IsBlank(v.value) && k < |p.remaining| && p.remaining[k].name == v.name
    ensures var r := p.remaining[k];
      Outcome(existing, done + [v],
        if v.value == r.value then VariablePlan(RemoveAt(p.remaining, k), p.created, p.updated + [r])
        else p.(remaining := RemoveAt(p.remaining, k)))
  {
    var r := p.remaining[k];
    assert r in p.remaining;
    RemoveAtNamed(p.remaining, k);
    forall x | x in existing && x.name == v.name ensures x == r {
      var i :| 0 <= i < |existing| && existing[i] == x;
      var j :| 0 <= j < |existing| && existing[j] == r;
    }
    OutcomeSnoc(existing, done, v);
  }

  /** What one more input adds to Settled, Resubmitted and the created condition. */
  lemma OutcomeSnoc(existing: seq<SessionVariable>, done: seq<VariableInput>, v: VariableInput)
    ensures forall x :: Settled(done + [v], x) <==> Settled(done, x) || (v.name == x.name && !IsBlank(v.value))
    ensures forall x :: Resubmitted(done + [v], x) <==>
      Resubmitted(done, x) || (v.name == x.name && !IsBlank(v.value) && v.value == x.value)
    ensures forall w :: w in done + [v] <==> w in done || w == v
  {
    forall x ensures Settled(done + [v], x) <==> Settled(done, x) || (v.name == x.name && !IsBlank(v.value)) {
      if Settled(done + [v], x) {
        var w :| w in done + [v] && w.name == x.name && !IsBlank(w.value);
      }
      if Settled(done, x) {
        var w :| w in done && w.name == x.name && !IsBlank(w.value);
        assert w in done + [v];
      }
      if v.name == x.name && !IsBlank(v.value) {
        assert v in done + [v];
      }
    }
    forall x ensures Resubmitted(done + [v], x) <==>
      Resubmitted(done, x) || (v.name == x.name && !IsBlank(v.value) && v.value == x.value) {
      if Resubmitted(done + [v], x) {
        var w :| w in done + [v] && w.name == x.name && !IsBlank(w.value) && w.value == x.value;
      }
      if Resubmitted(done, x) {
        var w :| w in done && w.name == x.name && !IsBlank(w.value) && w.value == x.value;
        assert w in done + [v];
      }
      if v.name == x.name && !IsBlank(v.value) && v.value == x.value {
        assert v in done + [v];
      }
    }
  }

  /** The rows created for `inputs` carry the session, fresh ids and an input's name and value. */
  lemma NewVariablesMember(base: Id, session: Id, inputs: seq<VariableInput>)
    ensures forall r :: r in NewVariables(base, session, inputs) ==>
      r.session == session && base <= r.id && exists w :: w in inputs && r.name == w.name && r.value == w.value
  {
    var rows := NewVariables(base, session, inputs);
    forall r | r in rows
      ensures r.session == session && base <= r.id && exists w :: w in inputs && r.name == w.name && r.value == w.value
    {
      var i :| 0 <= i < |rows| && rows[i] == r;
      assert inputs[i] in inputs;
    }
  }

  /** A stored row survives setVisitorSessionVariables exactly when it is not left in the working list. */
  lemma SetVariablesMember(rows: seq<SessionVariable>, session: Id, inputs: seq<VariableInput>, base: Id, x: SessionVariable)
    requires UniqueVariableIds(rows) && forall r :: r in rows ==> r.id < base
    requires x in rows
    ensures x in SetVariables(rows, session, inputs, base)
      <==> x !in PlanVariables(VariablesOf(rows, session), inputs).remaining
  {
    var p := PlanVariables(VariablesOf(rows, session), inputs);
    PlanVariablesFromExisting(VariablesOf(rows, session), inputs);
    NewVariablesFacts(base, session, p.created);
    if x !in p.remaining && x.id in VariableIds(p.remaining) {
      var y :| y in p.remaining && y.id == x.id;
      var i :| 0 <= i < |rows| && rows[i] == x;
      assert false;
    }
  }

  /**
   * For unique names, a row of the session survives exactly when some
   * input names it with a non-blank value (whatever that value is); the
   * other sessions' rows all survive.
   */
  lemma VariableRowFate(rows: seq<SessionVariable>, session: Id, inputs: seq<VariableInput>, base: Id, x: SessionVariable)
    requires UniqueVariableIds(rows) && forall r :: r in rows ==> r.id < base
    requires UniqueNames(VariablesOf(rows, session)) && UniqueInputNames(inputs)
    requires x in rows
    ensures x in SetVariables(rows, session, inputs, base) <==> x.session != session || Settled(inputs, x)
  {
    PlanVariablesOutcome(VariablesOf(rows, session), inputs);
    SetVariablesMember(rows, session, inputs, base, x);
  }

  /** An input whose name no row of the session has is stored with its value, and the flag is set. */
  lemma VariableCreated(rows: seq<SessionVariable>, session: Id, inputs: seq<VariableInput>, base: Id, v: VariableInput)
    requires v in inputs && forall x :: x in rows && x.session == session ==> x.name != v.name
    ensures exists r :: (r in SetVariables(rows, session, inputs, base)
      && r.session == session && r.name == v.name && r.value == v.value && base <= r.id)
    ensures VariablesChanged(PlanVariables(VariablesOf(rows, session), inputs))
  {
    var p := PlanVariables(VariablesOf(rows, session), inputs);
    NewNameCreated(VariablesOf(rows, session), inputs, v);
    assert v in p.created;
    var i :| 0 <= i < |p.created| && p.created[i] == v;
    var w, n := WithoutVariables(rows, VariableIds(p.remaining)), NewVariables(base, session, p.created);
    assert (w + n)[|w| + i] == n[i];
  }

  /**
   * An input whose name no stored row carries is planned for creation,
   * whatever the other inputs are: the working list only ever holds
   * stored rows, so its lookup finds nothing.
   */
  lemma {:induction false} NewNameCreated(existing: seq<SessionVariable>, inputs: seq<VariableInput>, v: VariableInput)
    requires v in inputs && forall x :: x in existing ==> x.name != v.name
    ensures v in PlanVariables(existing, inputs).created
    decreases |inputs|
  {
    var front := inputs[..|inputs| - 1];
    var p := PlanVariables(existing, front);
    var last := inputs[|inputs| - 1];
    assert inputs == front + [last];
    if v == last {
      PlanVariablesFromExisting(existing, front);
      assert FindName(p.remaining, v.name).None? by {
        forall j | 0 <= j < |p.remaining| ensures p.remaining[j].name != v.name {
          assert p.remaining[j] in existing;
        }
      }
    } else {
      assert v in front;
      NewNameCreated(existing, front, v);
    }
  }

  /**
   * The session's rows named `name` after setVisitorSessionVariables: a
   * surviving stored row, or a row created for an input of that name when
   * no stored row had it.
   */
  lemma NamedAfter(rows: seq<SessionVariable>, session: Id, inputs: seq<VariableInput>, base: Id, x: SessionVariable)
    requires UniqueNames(VariablesOf(rows, session)) && UniqueInputNames(inputs)
    requires x in rows && x.session == session
    ensures forall r :: r in SetVariables(rows, session, inputs, base) && r.session == session && r.name == x.name ==> r == x
  {
    var e := VariablesOf(rows, session);
    var p := PlanVariables(e, inputs);
    PlanVariablesOutcome(e, inputs);
    NewVariablesMember(base, session, p.created);
    forall r | r in SetVariables(rows, session, inputs, base) && r.session == session && r.name == x.name
      ensures r == x
    {
      if r in NewVariables(base, session, p.created) {
        assert false;
      } else {
        var i :| 0 <= i < |e| && e[i] == r;
        var j :| 0 <= j < |e| && e[j] == x;
      }
    }
  }

  /**
   * As written, a non-blank value that differs from the stored one is never
   * written: the stored row stays as it was and is the only row of that
   * name, and the input does not on its own set the flag.
   */
  lemma DifferingValueIgnored(rows: seq<SessionVariable>, session: Id, inputs: seq<VariableInput>, base: Id,
                              x: SessionVariable, v: VariableInput)
    requires UniqueVariableIds(rows) && forall r :: r in rows ==> r.id < base
    requires UniqueNames(VariablesOf(rows, session)) && UniqueInputNames(inputs)
    requires x in rows && x.session == session
    requires v in inputs && v.name == x.name && !IsBlank(v.value) && v.value != x.value
    ensures x in SetVariables(rows, session, inputs, base)
    ensures forall r :: r in SetVariables(rows, session, inputs, base) && r.session == session && r.name == x.name ==> r == x
    ensures x !in PlanVariables(VariablesOf(rows, session), inputs).updated
  {
    VariableRowFate(rows, session, inputs, base, x);
    NamedAfter(rows, session, inputs, base, x);
    UniqueInputName(inputs, v);
    assert Settled(inputs, x);
    assert !Resubmitted(inputs, x);
    PlanVariablesOutcome(VariablesOf(rows, session), inputs);
  }

  /**
   * As written, a blank value for a stored name leaves the row in the
   * working list, so the variable is deleted and no row of that name
   * remains.
   */
  lemma BlankValueDeletes(rows: seq<SessionVariable>, session: Id, inputs: seq<VariableInput>, base: Id,
                          x: SessionVariable, v: VariableInput)
    requires UniqueVariableIds(rows) && forall r :: r in rows ==> r.id < base
    requires UniqueNames(VariablesOf(rows, session)) && UniqueInputNames(inputs)
    requires x in rows && x.session == session
    requires v in inputs && v.name == x.name && IsBlank(v.value)
    ensures forall r :: r in SetVariables(rows, session, inputs, base) && r.session == session ==> r.name != x.name
    ensures VariablesChanged(PlanVariables(VariablesOf(rows, session), inputs))
  {
    var p := PlanVariables(VariablesOf(rows, session), inputs);
    UniqueInputName(inputs, v);
    VariableRowFate(rows, session, inputs, base, x);
    NamedAfter(rows, session, inputs, base, x);
    PlanVariablesOutcome(VariablesOf(rows, session), inputs);
    assert x in p.remaining;
  }

  /**
   * As written, resubmitting the stored value runs updateValue: the row
   * stays as it was, yet the flag reports a change.
   */
  lemma ResubmitReportsChange(rows: seq<SessionVariable>, session: Id, inputs: seq<VariableInput>, base: Id,
                              x: SessionVariable, v: VariableInput)
    requires UniqueVariableIds(rows) && forall r :: r in rows ==> r.id < base
    requires UniqueNames(VariablesOf(rows, session)) && UniqueInputNames(inputs)
    requires x in rows && x.session == session
    requires v in inputs && v.name == x.name && !IsBlank(v.value) && v.value == x.value
    ensures x in SetVariables(rows, session, inputs, base)
    ensures x in PlanVariables(VariablesOf(rows, session), inputs).updated
    ensures VariablesChanged(PlanVariables(VariablesOf(rows, session), inputs))
  {
    VariableRowFate(rows, session, inputs, base, x);
    PlanVariablesOutcome(VariablesOf(rows, session), inputs);
  }

  /** With unique names, the input naming a row is the only one. */
  lemma UniqueInputName(inputs: seq<VariableInput>, v: VariableInput)
    requires UniqueInputNames(inputs) && v in inputs
    ensures forall w :: w in inputs && w.name == v.name ==> w == v
  {
    forall w | w in inputs && w.name == v.name ensures w == v {
      var i :| 0 <= i < |inputs| && inputs[i] == w;
      var j :| 0 <= j < |inputs| && inputs[j] == v;
    }
  }

  /**
   * The flag of setVisitorSessionVariables, for unique names: true exactly
   * when an input is created, a row is deleted, or a stored value is
   * resubmitted.
   */
  lemma VariablesChangedMeans(existing: seq<SessionVariable>, inputs: seq<VariableInput>)
    requires UniqueNames(existing) && UniqueInputNames(inputs)
    ensures VariablesChanged(PlanVariables(existing, inputs)) <==>
      || (exists v :: v in inputs && forall x :: x in existing ==> x.name != v.name)
      || (exists x :: x in existing && !Settled(inputs, x))
      || (exists x :: x in existing && Resubmitted(inputs, x))
  {
    var p := PlanVariables(existing, inputs);
    PlanVariablesOutcome(existing, inputs);
    if p.created != [] {
      assert p.created[0] in p.created;
    }
    if p.remaining != [] {
      assert p.remaining[0] in p.remaining;
    }
    if p.updated != [] {
      assert p.updated[0] in p.updated;
    }
  }

  /** Removing a row from a list with unique names removes exactly the rows of that name. */
  lemma RemoveAtNamed(rows: seq<SessionVariable>, k: nat)
    requires UniqueNames(rows) && k < |rows|
    ensures UniqueNames(RemoveAt(rows, k))
    ensures forall x :: x in RemoveAt(rows, k) <==> x in rows && x.name != rows[k].name
  {
    var r := RemoveAt(rows, k);
    assert forall i :: 0 <= i < |r| ==> r[i] == if i < k then rows[i] else rows[i + 1];
    forall x | x in rows && x.name != rows[k].name ensures x in r {
      var i :| 0 <= i < |rows| && rows[i] == x;
      if i < k {
        assert r[i] == x;
      } else {
        assert r[i - 1] == x;
      }
    }
  }

  /**
   * Creating the new variables first and deleting the leftover rows
   * afterwards, as the controller does, yields SetVariables.
   */
  lemma SetVariablesByDeletes(table: seq<SessionVariable>, session: Id, inputs: seq<VariableInput>, base: Id)
    requires forall r :: r in table ==> r.id < base
    ensures var p := PlanVariables(VariablesOf(table, session), inputs);
      WithoutVariables(table + NewVariables(base, session, p.created), VariableIds(p.remaining))
        == SetVariables(table, session, inputs, base)
  {
    var p := PlanVariables(VariablesOf(table, session), inputs);
    PlanVariablesFromExisting(VariablesOf(table, session), inputs);
    WithoutVariablesAppend(table, NewVariables(base, session, p.created), VariableIds(p.remaining));
    WithoutVariablesFresh(base, session, p.created, VariableIds(p.remaining));
  }

  /**
   * updateValue on a row of the working list, with the value it already
   * holds, leaves the table as it is.
   */
  lemma UpdateSameValue(table: seq<SessionVariable>, base: Id, session: Id, done: seq<VariableInput>, k: nat)
    requires UniqueVariableIds(table) && forall r :: r in table ==> r.id < base
    requires k < |PlanVariables(VariablesOf(table, session), done).remaining|
    ensures var p := PlanVariables(VariablesOf(table, session), done);
      var rows := table + NewVariables(base, session, p.created);
      SetValue(rows, p.remaining[k].id, p.remaining[k].value) == rows
  {
    var p := PlanVariables(VariablesOf(table, session), done);
    PlanVariablesFromExisting(VariablesOf(table, session), done);
    GrownUnique(table, base, session, p.created);
    assert p.remaining[k] in p.remaining;
    SetValueSame(table + NewVariables(base, session, p.created), p.remaining[k], p.remaining[k].value);
  }

  /** Rows created from `base` on never share an id with an older row. */
  lemma GrownUnique(table: seq<SessionVariable>, base: Id, session: Id, created: seq<VariableInput>)
    requires UniqueVariableIds(table)
    requires forall r :: r in table ==> r.id < base
    ensures var rows := table + NewVariables(base, session, created);
      forall i, j :: 0 <= i < |rows| && 0 <= j < |rows| && rows[i].id == rows[j].id ==> i == j
  {
  }

  /** updateValue with the value the row already holds writes nothing new. */
  lemma SetValueSame(rows: seq<SessionVariable>, row: SessionVariable, value: string)
    requires row in rows && row.value == value
    requires forall i, j :: 0 <= i < |rows| && 0 <= j < |rows| && rows[i].id == rows[j].id ==> i == j
    ensures SetValue(rows, row.id, value) == rows
  {
    var k :| 0 <= k < |rows| && rows[k] == row;
  }


  /** Replacing a stored session by one with the same id keeps the ids and makes it findable. */
  lemma ReplaceSessionValid(sessions: seq<VisitorSession>, bound: Id, s: VisitorSession)
    requires SessionsValid(sessions, bound) && s.id in SessionIds(sessions)
    ensures SessionIds(ReplaceSession(sessions, s)) == SessionIds(sessions)
    ensures SessionsValid(ReplaceSession(sessions, s), bound)
    ensures FindSession(ReplaceSession(sessions, s), s.id) == Some(s)
  {
    var after := ReplaceSession(sessions, s);
    var k :| 0 <= k < |sessions| && sessions[k].id == s.id;
    ReplaceSessionIds(sessions, s);
    assert after[k] == s;
    FindUnique(after, k);
  }

  lemma ReplaceSessionIds(sessions: seq<VisitorSession>, s: VisitorSession)
    ensures forall i :: 0 <= i < |sessions| ==> ReplaceSession(sessions, s)[i].id == sessions[i].id
    ensures SessionIds(ReplaceSession(sessions, s)) == SessionIds(sessions)
  {
    var after := ReplaceSession(sessions, s);
    forall x | x in SessionIds(sessions) ensures x in SessionIds(after) {
      var i :| 0 <= i < |sessions| && sessions[i].id == x;
      assert after[i].id == x;
    }
  }

  lemma FindUnique(sessions: seq<VisitorSession>, k: nat)
    requires k < |sessions|
    requires forall i, j :: 0 <= i < j < |sessions| ==> sessions[i].id != sessions[j].id
    ensures FindSession(sessions, sessions[k].id) == Some(sessions[k])
  {
    if k > 0 {
      FindUnique(sessions[1..], k - 1);
    }
  }

  lemma {:induction false} WithoutSessionUnique(sessions: seq<VisitorSession>, id: Id)
    requires UniqueSessionIds(sessions)
    ensures UniqueSessionIds(WithoutSession(sessions, id))
    decreases |sessions|
  {
    if sessions != [] {
      var tail := sessions[1..];
      SessionsUniqueTail(sessions);
      WithoutSessionUnique(tail, id);
      var rest := WithoutSession(tail, id);
      if sessions[0].id != id {
        forall x | x in rest ensures x.id != sessions[0].id {
          var i :| 0 <= i < |tail| && tail[i] == x;
          assert sessions[i + 1] == x;
        }
        SessionsUniqueCons(sessions[0], rest);
      }
    }
  }

  lemma SessionsUniqueTail(sessions: seq<VisitorSession>)
    requires UniqueSessionIds(sessions) && sessions != []
    ensures UniqueSessionIds(sessions[1..])
  {
    var tail := sessions[1..];
    forall i, j | 0 <= i < j < |tail| ensures tail[i].id != tail[j].id {
      assert tail[i] == sessions[i + 1] && tail[j] == sessions[j + 1];
    }
  }

  /** Prepending a session whose id is new keeps the ids unique. */
  lemma SessionsUniqueCons(s: VisitorSession, rest: seq<VisitorSession>)
    requires UniqueSessionIds(rest) && forall x :: x in rest ==> x.id != s.id
    ensures UniqueSessionIds([s] + rest)
  {
    var r := [s] + rest;
    forall i, j | 0 <= i < j < |r| ensures r[i].id != r[j].id {
      if i == 0 {
        assert r[j] == rest[j - 1];
        assert r[j] in rest;
      } else {
        assert r[i] == rest[i - 1] && r[j] == rest[j - 1];
      }
    }
  }

  lemma {:induction false} WithoutVariablesAppend(a: seq<SessionVariable>, b: seq<SessionVariable>, gone: set<Id>)
    ensures WithoutVariables(a + b, gone) == WithoutVariables(a, gone) + WithoutVariables(b, gone)
    decreases |b|
  {
    if b != [] {
      var n := |b| - 1;
      assert (a + b)[..|a + b| - 1] == a + b[..n];
      WithoutVariablesAppend(a, b[..n], gone);
    } else {
      assert a + b == a;
    }
  }

  lemma {:induction false} WithoutVariablesTwice(rows: seq<SessionVariable>, a: set<Id>, b: set<Id>)
    ensures WithoutVariables(WithoutVariables(rows, a), b) == WithoutVariables(rows, a + b)
    decreases |rows|
  {
    if rows != [] {
      var n := |rows| - 1;
      WithoutVariablesTwice(rows[..n], a, b);
      if rows[n].id !in a {
        var init := WithoutVariables(rows[..n], a);
        assert (init + [rows[n]])[..|init + [rows[n]]| - 1] == init;
      }
    }
  }

  lemma {:induction false} WithoutVariablesUnique(rows: seq<SessionVariable>, gone: set<Id>)
    requires UniqueVariableIds(rows)
    ensures UniqueVariableIds(WithoutVariables(rows, gone))
    decreases |rows|
  {
    if rows != [] {
      var n := |rows| - 1;
      VariablesUniquePrefix(rows, n);
      WithoutVariablesUnique(rows[..n], gone);
      var rest := WithoutVariables(rows[..n], gone);
      forall x | x in rest ensures x.id != rows[n].id {
        var i :| 0 <= i < n && rows[i] == x;
      }
      if rows[n].id !in gone {
        VariablesUniqueSnoc(rest, rows[n]);
      }
    }
  }

  lemma VariablesUniquePrefix(rows: seq<SessionVariable>, n: nat)
    requires UniqueVariableIds(rows) && n <= |rows|
    ensures UniqueVariableIds(rows[..n])
  {
  }

  /** Appending a variable whose id is new keeps the ids unique. */
  lemma VariablesUniqueSnoc(rows: seq<SessionVariable>, x: SessionVariable)
    requires UniqueVariableIds(rows) && forall y :: y in rows ==> y.id != x.id
    ensures UniqueVariableIds(rows + [x])
  {
    var r := rows + [x];
    forall i, j | 0 <= i < j < |r| ensures r[i].id != r[j].id {
      if j == |rows| {
        assert r[i] in rows;
      } else {
        assert r[i] == rows[i] && r[j] == rows[j];
      }
    }
  }

  lemma {:induction false} WithoutVariablesKeep(rows: seq<SessionVariable>, gone: set<Id>)
    requires forall x :: x in rows ==> x.id !in gone
    ensures WithoutVariables(rows, gone) == rows
    decreases |rows|
  {
    if rows != [] {
      WithoutVariablesKeep(rows[..|rows| - 1], gone);
      assert rows == rows[..|rows| - 1] + [rows[|rows| - 1]];
    }
  }

  lemma WithoutVariablesFresh(base: Id, session: Id, inputs: seq<VariableInput>, gone: set<Id>)
    requires forall g :: g in gone ==> g < base
    ensures WithoutVariables(NewVariables(base, session, inputs), gone) == NewVariables(base, session, inputs)
  {
    WithoutVariablesKeep(NewVariables(base, session, inputs), gone);
  }
}
