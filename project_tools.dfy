/**
 * The project tools offered to the assistant: list, get, create, update and
 * delete over the `projects` table. The table is held in memory as a map from
 * id to row; a database session with its commit is one atomic update of that
 * map. The pydantic response of a row is the row itself.
 *
 * Arguments follow Python: an optional argument is `None` when omitted, and
 * the tools test them by truthiness, so an id of 0, an empty uuid and an empty
 * list count as not provided. A path on which the tool raises instead of
 * returning gives `Fails`.
 */
module ProjectTools {
  import opened Wrappers

  /** A row of the `projects` table. Timestamps are clock readings passed in by the caller. */
  datatype Project = Project(
    id: int,
    uuid: string,
    name: string,
    description: string,
    createdAt: int,
    updatedAt: int)

  /** The rows of the table by id. */
  type Table = map<int, Project>

  /** What a tool hands back: a value, a message string, or an exception. */
  datatype Reply<T> = Value(value: T) | Text(message: string) | Fails

  const NoIdMessage: string := "No project id or uuid provided"
  const NoIdsMessage: string := "No project ids or uuids provided"

  /** Python truthiness of the optional arguments. */
  predicate IdGiven(id: Option<int>) { id.Some? && id.value != 0 }
  predicate UuidGiven(uuid: Option<string>) { uuid.Some? && uuid.value != "" }
  predicate ListGiven<T>(xs: Option<seq<T>>) { xs.Some? && |xs.value| > 0 }

  /** Every row is stored under its own id, and no two rows share a uuid (the column is unique). */
  predicate WellFormed(rows: Table)
  {
    && (forall k :: k in rows ==> rows[k].id == k)
    && (forall j, k :: j in rows && k in rows && rows[j].uuid == rows[k].uuid ==> j == k)
  }

  predicate UuidInUse(rows: Table, uuid: string)
  {
    exists k :: k in rows && rows[k].uuid == uuid
  }

  /** The row with the given uuid, if any (the `.first()` of a uuid query). */
  function RowWithUuid(rows: Table, uuid: string): (r: Option<Project>)
    requires WellFormed(rows)
    ensures r.Some? <==> UuidInUse(rows, uuid)
    ensures r.Some? ==> r.value.uuid == uuid && r.value.id in rows && rows[r.value.id] == r.value
  {
    if UuidInUse(rows, uuid) then
      var k :| k in rows && rows[k].uuid == uuid;
      Some(rows[k])
    else None
  }

  /** Python's `str` of an int: the decimal digits of `n`, led by '-' when negative. */
  function DecimalText(n: int): (s: string)
    ensures |s| > 0
    ensures n >= 0 ==> IsDigits(s) && DigitsValue(s) == n && (n > 0 ==> s[0] != '0')
    ensures n < 0 ==> |s| > 1 && s[0] == '-' && IsDigits(s[1..]) && DigitsValue(s[1..]) == -n && s[1] != '0'
  {
    if n < 0 then "-" + NatText(-n) else NatText(n)
  }

  predicate IsDigits(s: string)
  {
    forall i :: 0 <= i < |s| ==> '0' <= s[i] <= '9'
  }

  /** The number a string of decimal digits denotes. */
  function DigitsValue(s: string): nat
    requires IsDigits(s)
  {
    if s == [] then 0
    else 10 * DigitsValue(s[..|s| - 1]) + ((s[|s| - 1] as int) - ('0' as int))
  }

  /** The decimal digits of a natural number, without leading zeros. */
  function NatText(n: nat): (s: string)
    ensures |s| > 0 && IsDigits(s)
    ensures DigitsValue(s) == n
    ensures n > 0 ==> s[0] != '0'
  {
    var d := (('0' as int) + n % 10) as char;
    if n < 10 then [d]
    else
      var prefix := NatText(n / 10);
      assert (prefix + [d])[..|prefix|] == prefix;
      prefix + [d]
  }

  /** The least element of a non-empty set of ids. */
  function MinId(ids: set<int>): (k: int)
    requires ids != {}
    ensures k in ids && forall j :: j in ids ==> k <= j
  {
    MinExists(ids);
    var k :| k in ids && forall j :: j in ids ==> k <= j;
    k
  }

  lemma {:induction false} MinExists(ids: set<int>)
    requires ids != {}
    ensures exists k :: k in ids && forall j :: j in ids ==> k <= j
  {
    var x := PickId(ids);
    if ids != {x} {
      MinExists(ids - {x});
      var m :| m in ids - {x} && forall j :: j in ids - {x} ==> m <= j;
      var least := if x < m then x else m;
      forall j | j in ids
        ensures least <= j
      {
        if j != x {
          assert j in ids - {x};
        }
      }
    }
  }

  /** Some element of a non-empty set of ids. */
  lemma PickId(ids: set<int>) returns (x: int)
    requires ids != {}
    ensures x in ids
  {
    if forall y :: y !in ids {
      assert false;
    }
    x :| x in ids;
  }

  /** The ids of a set in ascending order: the least first, then the rest. */
  function SortedIds(ids: set<int>): seq<int>
    decreases ids
  {
    if ids == {} then [] else [MinId(ids)] + SortedIds(ids - {MinId(ids)})
  }

  /** The sorted ids are exactly the ids of the set, one per element. */
  lemma {:induction false} SortedIdsMembers(ids: set<int>)
    ensures |SortedIds(ids)| == |ids|
    ensures forall x :: x in SortedIds(ids) <==> x in ids
    decreases ids
  {
    if ids != {} {
      SortedIdsMembers(ids - {MinId(ids)});
    }
  }

  /** The sorted ids ascend strictly. */
  lemma {:induction false} SortedIdsAscend(ids: set<int>)
    ensures forall i, j :: 0 <= i < j < |SortedIds(ids)| ==> SortedIds(ids)[i] < SortedIds(ids)[j]
    decreases ids
  {
    if ids != {} {
      var k := MinId(ids);
      var rest := SortedIds(ids - {k});
      SortedIdsAscend(ids - {k});
      SortedIdsMembers(ids - {k});
      assert SortedIds(ids) == [k] + rest;
      forall j | 0 <= j < |rest|
        ensures k < rest[j]
      {
        assert rest[j] in rest;
      }
    }
  }

  /**
   * The rows of a table in ascending id order: the order in which the
   * queries of this module list rows.
   */
  function InIdOrder(rows: Table): (r: seq<Project>)
    requires WellFormed(rows)
    ensures |r| == |rows|
    ensures forall i :: 0 <= i < |r| ==> r[i].id in rows && rows[r[i].id] == r[i]
    ensures forall k :: k in rows ==> rows[k] in r
    ensures forall i, j :: 0 <= i < j < |r| ==> r[i].id < r[j].id
  {
    var ids := SortedIds(rows.Keys);
    SortedIdsMembers(rows.Keys);
    SortedIdsAscend(rows.Keys);
    ListingFacts(rows, ids);
    RowsAt(rows, ids)
  }

  /** The rows at ascending ids that are exactly the keys form a listing in id order. */
  lemma ListingFacts(rows: Table, ids: seq<int>)
    requires WellFormed(rows)
    requires |ids| == |rows.Keys|
    requires forall x :: x in ids <==> x in rows
    requires forall i, j :: 0 <= i < j < |ids| ==> ids[i] < ids[j]
    ensures forall i :: 0 <= i < |ids| ==> ids[i] in rows
    ensures var r := RowsAt(rows, ids);
      && |r| == |rows|
      && (forall i :: 0 <= i < |r| ==> r[i].id in rows && rows[r[i].id] == r[i])
      && (forall k :: k in rows ==> rows[k] in r)
      && (forall i, j :: 0 <= i < j < |r| ==> r[i].id < r[j].id)
  {
    forall i | 0 <= i < |ids|
      ensures ids[i] in rows
    {
      assert ids[i] in ids;
    }
    RowsAtListsAll(rows, ids);
  }

  lemma RowsAtListsAll(rows: Table, ids: seq<int>)
    requires WellFormed(rows)
    requires forall i :: 0 <= i < |ids| ==> ids[i] in rows
    requires forall k :: k in rows ==> k in ids
    ensures forall k :: k in rows ==> rows[k] in RowsAt(rows, ids)
  {
    var r := RowsAt(rows, ids);
    forall k | k in rows
      ensures rows[k] in r
    {
      var i :| 0 <= i < |ids| && ids[i] == k;
      assert r[i] == rows[k];
    }
  }

  /** The rows stored under the given ids, in the order of the ids. */
  function RowsAt(rows: Table, ids: seq<int>): (r: seq<Project>)
    requires WellFormed(rows)
    requires forall i :: 0 <= i < |ids| ==> ids[i] in rows
    ensures |r| == |ids|
    ensures forall i :: 0 <= i < |r| ==> r[i] == rows[ids[i]] && r[i].id == ids[i]
  {
    if ids == [] then [] else [rows[ids[0]]] + RowsAt(rows, ids[1..])
  }

  /** Does a row match the keys `delete_projects` filters on (ids when given, uuids otherwise)? */
  predicate Matches(p: Project, ids: Option<seq<int>>, uuids: Option<seq<string>>)
  {
    if ListGiven(ids) then p.id in ids.value
    else ListGiven(uuids) && p.uuid in uuids.value
  }

  /** The rows a `delete_projects` query selects. */
  function Selected(rows: Table, ids: Option<seq<int>>, uuids: Option<seq<string>>): (sel: Table)
    ensures ListGiven(ids) ==> sel.Keys == set k | k in rows && rows[k].id in ids.value
    ensures !ListGiven(ids) && ListGiven(uuids) ==> sel.Keys == set k | k in rows && rows[k].uuid in uuids.value
    ensures !ListGiven(ids) && !ListGiven(uuids) ==> sel == map[]
    ensures forall k :: k in sel ==> k in rows && sel[k] == rows[k]
  {
    map k | k in rows && Matches(rows[k], ids, uuids) :: rows[k]
  }

  /**
   * The reply of `update_project` as written. When a row is found the tool
   * calls `model_dump` on the database row, which has no such method, so it
   * raises before anything is written; the name and description arguments
   * never matter.
   */
  function UpdateReply(rows: Table, id: Option<int>, uuid: Option<string>): (r: Reply<Project>)
    requires WellFormed(rows)
    ensures !IdGiven(id) && !UuidGiven(uuid) ==> r == Text(NoIdMessage)
    ensures IdGiven(id) ==>
      r == (if id.value in rows then Fails else Text("Project with id " + DecimalText(id.value) + " not found"))
    ensures !IdGiven(id) && UuidGiven(uuid) ==>
      r == (if UuidInUse(rows, uuid.value) then Fails else Text("Project with uuid " + uuid.value + " not found"))
    ensures !r.Value?
  {
    if IdGiven(id) then
      if id.value !in rows then Text("Project with id " + DecimalText(id.value) + " not found") else Fails
    else if UuidGiven(uuid) then
      match RowWithUuid(rows, uuid.value)
      case None => Text("Project with uuid " + uuid.value + " not found")
      case Some(_) => Fails
    else Text(NoIdMessage)
  }

  /** The project table of one database, with the id the next inserted row receives. */
  class ProjectTable {
    var rows: Table
    var nextId: int

    ghost predicate Valid()
      reads this
    {
      && WellFormed(rows)
      && nextId > 0
      && forall k :: k in rows ==> k < nextId
    }

    constructor ()
      ensures Valid() && rows == map[] && nextId == 1
    {
      rows := map[];
      nextId := 1;
    }

    /** `get_projects`: every row of the table, each once, in id order. */
    function GetProjects(): (r: seq<Project>)
      reads this
      requires Valid()
      ensures |r| == |rows|
      ensures forall p :: p in r <==> p in rows.Values
      ensures forall i, j :: 0 <= i < j < |r| ==> r[i].id < r[j].id
    {
      InIdOrder(rows)
    }

    /**
     * `get_project`: looks the row up by id when the id is truthy, by uuid
     * otherwise; a key that matches no row makes the response validation
     * raise.
     */
    function GetProject(id: Option<int>, uuid: Option<string>): (r: Reply<Project>)
      reads this
      requires Valid()
      ensures r == Text(NoIdMessage) <==> !IdGiven(id) && !UuidGiven(uuid)
      ensures r.Value? ==> r.value.id in rows && rows[r.value.id] == r.value
      ensures IdGiven(id) ==> (r.Value? <==> id.value in rows) && (r.Value? ==> r.value.id == id.value)
      ensures !IdGiven(id) && UuidGiven(uuid) ==>
        (r.Value? <==> UuidInUse(rows, uuid.value)) && (r.Value? ==> r.value.uuid == uuid.value)
      ensures r.Value? || r.Fails? || r == Text(NoIdMessage)
    {
      if IdGiven(id) then
        if id.value in rows then Value(rows[id.value]) else Fails
      else if UuidGiven(uuid) then
        match RowWithUuid(rows, uuid.value)
        case Some(p) => Value(p)
        case None => Fails
      else Text(NoIdMessage)
    }

    /**
     * `create_project`: inserts one row with the given name and description,
     * a fresh id and the uuid drawn for it; a uuid already in use violates
     * the unique column and the commit raises.
     */
    method CreateProject(name: string, description: string, uuid: string, now: int) returns (r: Reply<Project>)
      requires Valid()
      modifies this
      ensures Valid()
      ensures UuidInUse(old(rows), uuid) ==> r == Fails && rows == old(rows) && nextId == old(nextId)
      ensures !UuidInUse(old(rows), uuid) ==>
        var p := Project(old(nextId), uuid, name, description, now, now);
        && p.id !in old(rows)
        && r == Value(p)
        && rows == old(rows)[p.id := p]
        && nextId == old(nextId) + 1
    {
      if UuidInUse(rows, uuid) {
        r := Fails;
      } else {
        var p := Project(nextId, uuid, name, description, now, now);
        rows := rows[p.id := p];
        nextId := nextId + 1;
        r := Value(p);
      }
    }

    /**
     * `update_project`: dispatches on the id, then the uuid; reports a key
     * that matches no row; on a match it raises before writing anything.
     * `name` and `description` are never read.
     */
    method UpdateProject(id: Option<int>, uuid: Option<string>, name: Option<string>, description: Option<string>)
      returns (r: Reply<Project>)
      requires Valid()
      ensures r == UpdateReply(rows, id, uuid)
    {
      r := UpdateReply(rows, id, uuid);
    }

    /**
     * `update_project` as its signature intends: the row found by id (or,
     * failing that, uuid) takes each of `name` and `description` that is
     * given and the update time `now`; nothing else changes.
     */
    method UpdateProjectIntended(id: Option<int>, uuid: Option<string>, name: Option<string>, description: Option<string>, now: int)
      returns (r: Reply<Project>)
      requires Valid()
      modifies this
      ensures Valid() && nextId == old(nextId)
      ensures !IdGiven(id) && !UuidGiven(uuid) ==> r == Text(NoIdMessage) && rows == old(rows)
      ensures r.Text? ==> rows == old(rows) && r == UpdateReply(old(rows), id, uuid)
      ensures r.Value? ==> r.value.id in old(rows)
      ensures r.Value? ==>
        var k := r.value.id;
        var before := old(rows)[k];
        && (if IdGiven(id) then k == id.value else before.uuid == uuid.value)
        && r.value == before.(
             name := if name.Some? then name.value else before.name,
             description := if description.Some? then description.value else before.description,
             updatedAt := now)
        && rows == old(rows)[k := r.value]
      ensures r.Value? || r.Text?
    {
      var found: Option<Project>;
      if IdGiven(id) {
        if id.value !in rows {
          return Text("Project with id " + DecimalText(id.value) + " not found");
        }
        found := Some(rows[id.value]);
      } else if UuidGiven(uuid) {
        found := RowWithUuid(rows, uuid.value);
        if found.None? {
          return Text("Project with uuid " + uuid.value + " not found");
        }
      } else {
        return Text(NoIdMessage);
      }
      var p := found.value;
      if name.Some? {
        p := p.(name := name.value);
      }
      if description.Some? {
        p := p.(description := description.value);
      }
      p := p.(updatedAt := now);
      rows := rows[p.id := p];
      r := Value(p);
    }

    /** The deletion loop of `delete_projects`: deletes the listed rows one at a time. */
    method DeleteEach(doomed: seq<Project>)
      modifies this
      ensures rows == old(rows) - IdsOf(doomed) && nextId == old(nextId)
    {
      var i := 0;
      while i < |doomed|
        invariant 0 <= i <= |doomed|
        invariant rows == old(rows) - IdsOf(doomed[..i])
        invariant nextId == old(nextId)
      {
        IdsOfSnoc(doomed[..i], doomed[i]);
        assert doomed[..i + 1] == doomed[..i] + [doomed[i]];
        rows := rows - {doomed[i].id};
        i := i + 1;
      }
      assert doomed[..i] == doomed;
    }

    /**
     * `delete_projects`: selects the rows whose id is listed (or, when no id
     * list is given, whose uuid is), deletes them one by one and returns
     * them. Listed keys that match no row are skipped.
     */
    method DeleteProjects(ids: Option<seq<int>>, uuids: Option<seq<string>>) returns (r: Reply<seq<Project>>)
      requires Valid()
      modifies this
      ensures Valid() && nextId == old(nextId)
      ensures !ListGiven(ids) && !ListGiven(uuids) ==> r == Text(NoIdsMessage) && rows == old(rows)
      ensures ListGiven(ids) || ListGiven(uuids) ==>
        var sel := Selected(old(rows), ids, uuids);
        r == Value(InIdOrder(sel)) && rows == old(rows) - sel.Keys
    {
      if !ListGiven(ids) && !ListGiven(uuids) {
        return Text(NoIdsMessage);
      }
      var sel := Selected(rows, ids, uuids);
      assert WellFormed(sel);
      var removed := InIdOrder(sel);
      DeleteEach(removed);
      ListedCoversSelection(sel);
      WellFormedWithout(old(rows), sel.Keys);
      r := Value(removed);
    }
  }

  /** Removing rows keeps a table well formed. */
  lemma WellFormedWithout(rows: Table, gone: set<int>)
    requires WellFormed(rows)
    ensures WellFormed(rows - gone)
  {
  }

  /** The ids of some rows. */
  function IdsOf(ps: seq<Project>): set<int>
  {
    set p | p in ps :: p.id
  }

  /** One more row adds its id. */
  lemma IdsOfSnoc(ps: seq<Project>, p: Project)
    ensures IdsOf(ps + [p]) == IdsOf(ps) + {p.id}
  {
    forall k | k in IdsOf(ps + [p])
      ensures k in IdsOf(ps) + {p.id}
    {
      var q :| q in ps + [p] && q.id == k;
      if q != p {
        assert q in ps;
      }
    }
    forall k | k in IdsOf(ps)
      ensures k in IdsOf(ps + [p])
    {
      var q :| q in ps && q.id == k;
      assert q in ps + [p];
    }
    assert p in ps + [p];
  }

  /** The ids of the listed rows of a table are exactly its keys. */
  lemma ListedCoversSelection(sel: Table)
    requires WellFormed(sel)
    ensures IdsOf(InIdOrder(sel)) == sel.Keys
  {
    var listed := InIdOrder(sel);
    forall k | k in sel
      ensures k in IdsOf(listed)
    {
      assert sel[k] in listed;
    }
    forall k | k in IdsOf(listed)
      ensures k in sel
    {
      var p :| p in listed && p.id == k;
      var j :| 0 <= j < |listed| && listed[j] == p;
    }
  }

  /** When both are given, `get_project` uses the id and ignores the uuid. */
  lemma GetProjectPrefersId(t: ProjectTable, i: int, uuid: Option<string>)
    requires t.Valid() && i != 0
    ensures t.GetProject(Some(i), uuid) == t.GetProject(Some(i), None)
  {
  }

  /**
   * As written, `update_project` never updates: every call that finds its
   * row raises, whatever name and description it is given.
   */
  lemma UpdateOfExistingRowRaises(rows: Table, i: int, uuid: Option<string>)
    requires WellFormed(rows) && i != 0 && i in rows
    ensures UpdateReply(rows, Some(i), uuid) == Fails
  {
  }

  /** When both are given, `update_project` uses the id and ignores the uuid. */
  lemma UpdatePrefersId(rows: Table, i: int, uuid: Option<string>)
    requires WellFormed(rows) && i != 0
    ensures UpdateReply(rows, Some(i), uuid) == UpdateReply(rows, Some(i), None)
  {
  }

  /** When both lists are given, `delete_projects` selects by id and ignores the uuids. */
  lemma DeletePrefersIds(rows: Table, ids: seq<int>, uuids: Option<seq<string>>)
    requires |ids| > 0
    ensures Selected(rows, Some(ids), uuids) == Selected(rows, Some(ids), None)
  {
  }

  /**
   * A row stored under id 0 cannot be reached by id: 0 is falsy, so both
   * `get_project` and `update_project` answer as if no key were given.
   */
  lemma ZeroIdRowUnreachable(t: ProjectTable)
    requires t.Valid() && 0 in t.rows
    ensures t.GetProject(Some(0), None) == Text(NoIdMessage)
    ensures UpdateReply(t.rows, Some(0), None) == Text(NoIdMessage)
  {
  }

  /** An id of 0, an empty uuid and an empty list count as not given. */
  lemma FalsyArgumentsAreAbsent(t: ProjectTable, uuids: Option<seq<string>>)
    requires t.Valid()
    ensures t.GetProject(Some(0), Some("")) == Text(NoIdMessage)
    ensures UpdateReply(t.rows, Some(0), Some("")) == Text(NoIdMessage)
    ensures !ListGiven<int>(Some([])) && !ListGiven<string>(Some([]))
  {
  }

  /**
   * Deleting keeps exactly the rows that do not match, unchanged, and the
   * returned rows are exactly the ones that do.
   */
  lemma DeleteRemovesExactlyMatches(rows: Table, ids: Option<seq<int>>, uuids: Option<seq<string>>)
    requires WellFormed(rows)
    ensures var sel := Selected(rows, ids, uuids);
      var left := rows - sel.Keys;
      && (forall k :: k in left <==> k in rows && !Matches(rows[k], ids, uuids))
      && (forall k :: k in left ==> left[k] == rows[k])
      && (forall k :: k in rows && Matches(rows[k], ids, uuids) ==> rows[k] in InIdOrder(sel))
      && (forall p :: p in InIdOrder(sel) ==> p.id in rows && rows[p.id] == p && Matches(p, ids, uuids))
  {
    var sel := Selected(rows, ids, uuids);
    assert WellFormed(sel);
  }
}
