/** `insert_merit_badge_requirements_recursively` and `add_merit_badges_by_dpmt`
    (merit-badge-initializer.py): the curriculum is flattened into rows, parents first, each
    row tagged with its badge id and, below the top level, with the id its parent's insert
    returned. The database is an abstract answer per insert attempt. */
module Insertion {

  import opened Wrappers
  import opened JsonData
  import opened Curriculum

  /** A row handed to `insert`: a `merit_badge` row or a `merit_badge_rqmt` row (the latter
      has no parent field at the top level). */
  datatype Row =
    | BadgeRow(name: Json, desc: Json, eagle: Json, dpmtId: Id)
    | RqmtRow(badgeId: Id, desc: Json, idnf: Json, parent: Option<Id>)

  /** One insert attempt and its answer: the new row's id, or `None` when the call raised,
      returned no data, or returned an empty list. */
  datatype Attempt = Attempt(row: Row, result: Option<Id>)

  /** The database as seen by the initializer: the answer to the k-th insert attempt. */
  type Store = nat -> Option<Id>

  /** What a pass over a requirement list leaves behind: the objects with their ids
      written, the insert attempts in order, and the index of the next attempt. */
  datatype Inserted = Inserted(forest: Forest, log: seq<Attempt>, next: nat)

  /** What one turn of the loop leaves behind for one requirement object. */
  datatype NodeInserted = NodeInserted(node: Requirement, log: seq<Attempt>, next: nat)

  /** Attempt k of a log got the store's answer for attempt index `from + k`. */
  predicate Answered(log: seq<Attempt>, store: Store, from: nat)
  {
    forall k :: 0 <= k < |log| ==> log[k].result == store(from + k)
  }

  /** Every attempt of a log inserts a requirement row of the given badge. */
  predicate OfBadge(log: seq<Attempt>, badgeId: Id)
  {
    forall k :: 0 <= k < |log| ==> log[k].row.RqmtRow? && log[k].row.badgeId == badgeId
  }

  lemma AnsweredAppend(a: seq<Attempt>, b: seq<Attempt>, store: Store, from: nat, mid: nat)
    requires mid == from + |a|
    requires Answered(a, store, from) && Answered(b, store, mid)
    ensures Answered(a + b, store, from)
  {
    forall k | 0 <= k < |a + b| ensures (a + b)[k].result == store(from + k) {
      if k >= |a| { assert (a + b)[k] == b[k - |a|]; }
    }
  }

  /** `insert_merit_badge_requirements_recursively`: the loop over one requirement list. */
  function InsertRequirements(badgeId: Id, f: Forest, parent: Option<Id>, store: Store, next: nat): (r: Inserted)
    decreases ForestSize(f), |f|
    ensures r.next == next + |r.log|
    ensures |r.log| <= ForestSize(f)
    ensures Answered(r.log, store, next)
    ensures OfBadge(r.log, badgeId)
    ensures |r.forest| == |f|
  {
    if |f| == 0 then Inserted([], [], next)
    else
      ForestSizeSplit(f);
      match f[0]
      case None =>
        // writing badge_id on None raises; the handler logs it and the loop goes on
        var rest := InsertRequirements(badgeId, f[1..], parent, store, next);
        Inserted([None] + rest.forest, rest.log, rest.next)
      case Some(req) =>
        var head := InsertRequirement(badgeId, req, parent, store, next);
        var rest := InsertRequirements(badgeId, f[1..], parent, store, head.next);
        AnsweredAppend(head.log, rest.log, store, next, head.next);
        Inserted([Some(head.node)] + rest.forest, head.log + rest.log, rest.next)
  }

  /** One turn of that loop: write the badge id, insert the row (with a parent field only
      below the top level), and only if the insert returns data, write the returned id and
      insert the children under it. */
  function InsertRequirement(badgeId: Id, req: Requirement, parent: Option<Id>, store: Store, next: nat): (r: NodeInserted)
    decreases 1 + ForestSize(req.children), 0
    ensures r.next == next + |r.log|
    ensures 1 <= |r.log| <= 1 + ForestSize(req.children)
    ensures r.log[0] == Attempt(RqmtRow(badgeId, req.desc, req.idnf, parent), store(next))
    ensures store(next).None? ==> |r.log| == 1
    ensures Answered(r.log, store, next)
    ensures OfBadge(r.log, badgeId)
  {
    var stamped := req.(badgeId := Some(badgeId));
    var attempt := Attempt(RqmtRow(badgeId, req.desc, req.idnf, parent), store(next));
    match store(next)
    case None => NodeInserted(stamped, [attempt], next + 1)
    case Some(id) =>
      if |req.children| > 0 then
        var below := InsertRequirements(badgeId, req.children, Some(id), store, next + 1);
        NodeInserted(stamped.(rqmtId := Some(id), children := below.forest), [attempt] + below.log, below.next)
      else
        NodeInserted(stamped.(rqmtId := Some(id)), [attempt], next + 1)
  }

  /** How one slot looks after the pass, given how it looked before: every requirement
      object reached has its badge id written and nothing but its ids changed, its parent id
      is never written, and the subtree of a node whose row id was not written is left
      untouched. */
  predicate Stamped(before: Option<Requirement>, after: Option<Requirement>, badgeId: Id)
    decreases before
  {
    match before
    case None => after.None?
    case Some(r) =>
      && after.Some?
      && after.value.idnf == r.idnf
      && after.value.desc == r.desc
      && after.value.parentRqmtId == r.parentRqmtId
      && after.value.badgeId == Some(badgeId)
      && |after.value.children| == |r.children|
      && ((after.value.rqmtId == r.rqmtId && after.value.children == r.children)
          || (&& after.value.rqmtId.Some?
              && forall i :: 0 <= i < |r.children| ==>
                   Stamped(r.children[i], after.value.children[i], badgeId)))
  }

  /** Every object the pass reaches gets the badge id and keeps everything but its ids;
      a node whose insert failed keeps its subtree untouched. */
  lemma {:induction false} InsertStamps(badgeId: Id, f: Forest, parent: Option<Id>, store: Store, next: nat)
    ensures var r := InsertRequirements(badgeId, f, parent, store, next);
              forall i :: 0 <= i < |f| ==> Stamped(f[i], r.forest[i], badgeId)
    decreases ForestSize(f), |f|
  {
    if |f| > 0 {
      ForestSizeSplit(f);
      var r := InsertRequirements(badgeId, f, parent, store, next);
      var n := if f[0].Some? then InsertRequirement(badgeId, f[0].value, parent, store, next).next else next;
      if f[0].Some? {
        NodeStamps(badgeId, f[0].value, parent, store, next);
      }
      InsertStamps(badgeId, f[1..], parent, store, n);
      var rest := InsertRequirements(badgeId, f[1..], parent, store, n);
      assert r.forest[1..] == rest.forest;
      forall i | 1 <= i < |f| ensures Stamped(f[i], r.forest[i], badgeId) {
        assert f[i] == f[1..][i - 1] && r.forest[i] == rest.forest[i - 1];
      }
    }
  }

  lemma {:induction false} NodeStamps(badgeId: Id, req: Requirement, parent: Option<Id>, store: Store, next: nat)
    ensures Stamped(Some(req), Some(InsertRequirement(badgeId, req, parent, store, next).node), badgeId)
    decreases 1 + ForestSize(req.children), 0
  {
    if store(next).Some? && |req.children| > 0 {
      InsertStamps(badgeId, req.children, store(next), store, next + 1);
    }
  }

  /** Every requirement row below the top level names a parent that an earlier row of the
      same badge got back from its own insert, so a parent is always inserted before its
      descendants and always belongs to the same badge. */
  predicate ParentsPrecede(log: seq<Attempt>, parent: Option<Id>)
  {
    forall j :: 0 <= j < |log| && log[j].row.RqmtRow? && log[j].row.parent != parent ==>
      exists i :: 0 <= i < j && IsParentRow(log[i], log[j])
  }

  predicate IsParentRow(a: Attempt, b: Attempt)
  {
    && a.row.RqmtRow? && b.row.RqmtRow?
    && a.row.badgeId == b.row.badgeId
    && a.result.Some? && a.result == b.row.parent
  }

  lemma ParentsPrecedeNode(a: Attempt, below: seq<Attempt>, parent: Option<Id>)
    requires a.row.RqmtRow? && a.row.parent == parent
    requires |below| > 0 ==> a.result.Some? && ParentsPrecede(below, a.result)
    requires OfBadge(below, a.row.badgeId)
    ensures ParentsPrecede([a] + below, parent)
  {
    var log := [a] + below;
    forall j | 0 <= j < |log| && log[j].row.RqmtRow? && log[j].row.parent != parent
      ensures exists i :: 0 <= i < j && IsParentRow(log[i], log[j])
    {
      if j == 0 {
        assert false;
      } else {
        var k := j - 1;
        assert log[j] == below[k];
        assert below[k].row.RqmtRow? && below[k].row.badgeId == a.row.badgeId;
        if below[k].row.parent == a.result {
          assert IsParentRow(log[0], log[j]);
        } else {
          assert exists i :: 0 <= i < k && IsParentRow(below[i], below[k]);
          var i :| 0 <= i < k && IsParentRow(below[i], below[k]);
          assert log[i + 1] == below[i];
          assert IsParentRow(log[i + 1], log[j]);
        }
      }
    }
  }

  lemma ParentsPrecedeAppend(x: seq<Attempt>, y: seq<Attempt>, parent: Option<Id>)
    requires ParentsPrecede(x, parent) && ParentsPrecede(y, parent)
    ensures ParentsPrecede(x + y, parent)
  {
    var log := x + y;
    forall j | 0 <= j < |log| && log[j].row.RqmtRow? && log[j].row.parent != parent
      ensures exists i :: 0 <= i < j && IsParentRow(log[i], log[j])
    {
      if j < |x| {
        assert log[j] == x[j];
        var i :| 0 <= i < j && IsParentRow(x[i], x[j]);
        assert log[i] == x[i];
      } else {
        assert log[j] == y[j - |x|];
        var i :| 0 <= i < j - |x| && IsParentRow(y[i], y[j - |x|]);
        assert log[i + |x|] == y[i];
        assert IsParentRow(log[i + |x|], log[j]);
      }
    }
  }

  lemma {:induction false} InsertParentsPrecede(badgeId: Id, f: Forest, parent: Option<Id>, store: Store, next: nat)
    ensures ParentsPrecede(InsertRequirements(badgeId, f, parent, store, next).log, parent)
    decreases ForestSize(f), |f|
  {
    if |f| > 0 {
      ForestSizeSplit(f);
      match f[0]
      case None =>
        InsertParentsPrecede(badgeId, f[1..], parent, store, next);
      case Some(req) =>
        var head := InsertRequirement(badgeId, req, parent, store, next);
        NodeParentsPrecede(badgeId, req, parent, store, next);
        InsertParentsPrecede(badgeId, f[1..], parent, store, head.next);
        ParentsPrecedeAppend(head.log, InsertRequirements(badgeId, f[1..], parent, store, head.next).log, parent);
    }
  }

  lemma {:induction false} NodeParentsPrecede(badgeId: Id, req: Requirement, parent: Option<Id>, store: Store, next: nat)
    ensures ParentsPrecede(InsertRequirement(badgeId, req, parent, store, next).log, parent)
    decreases 1 + ForestSize(req.children), 0
  {
    var attempt := Attempt(RqmtRow(badgeId, req.desc, req.idnf, parent), store(next));
    if store(next).Some? && |req.children| > 0 {
      var below := InsertRequirements(badgeId, req.children, store(next), store, next + 1);
      InsertParentsPrecede(badgeId, req.children, store(next), store, next + 1);
      ParentsPrecedeNode(attempt, below.log, parent);
    } else {
      ParentsPrecedeNode(attempt, [], parent);
    }
  }

  /** The insert log read back from the objects after the pass: each reached node gives
      one row under its parent's written id and, if its own id was written, the rows of its
      children under that id. */
  function Replay(badgeId: Id, f: Forest, parent: Option<Id>): seq<Attempt>
  {
    if |f| == 0 then [] else ReplaySlot(badgeId, f[0], parent) + Replay(badgeId, f[1..], parent)
  }

  function ReplaySlot(badgeId: Id, o: Option<Requirement>, parent: Option<Id>): seq<Attempt>
  {
    match o
    case None => []
    case Some(n) =>
      [Attempt(RqmtRow(badgeId, n.desc, n.idnf, parent), n.rqmtId)]
      + (if n.rqmtId.Some? then Replay(badgeId, n.children, n.rqmtId) else [])
  }

  lemma FreshTail(f: Forest)
    requires |f| > 0 && Fresh(f)
    ensures Fresh(f[1..]) && FreshSlot(f[0])
  {
    assert forall i :: 0 <= i < |f[1..]| ==> f[1..][i] == f[i + 1];
  }

  /** Starting from freshly converted objects, every successful insert writes the returned
      id into its node, and each row's parent is the id written into its parent node: the
      insert log is exactly what the updated tree describes. */
  lemma {:induction false} InsertionReplays(badgeId: Id, f: Forest, parent: Option<Id>, store: Store, next: nat)
    requires Fresh(f)
    ensures var r := InsertRequirements(badgeId, f, parent, store, next);
              r.log == Replay(badgeId, r.forest, parent)
    decreases ForestSize(f), |f|
  {
    var r := InsertRequirements(badgeId, f, parent, store, next);
    if |f| > 0 {
      ForestSizeSplit(f);
      FreshTail(f);
      match f[0]
      case None =>
        InsertionReplays(badgeId, f[1..], parent, store, next);
        assert r.forest[1..] == InsertRequirements(badgeId, f[1..], parent, store, next).forest;
      case Some(req) =>
        var head := InsertRequirement(badgeId, req, parent, store, next);
        NodeReplays(badgeId, req, parent, store, next);
        InsertionReplays(badgeId, f[1..], parent, store, head.next);
        var rest := InsertRequirements(badgeId, f[1..], parent, store, head.next);
        assert r.forest[1..] == rest.forest;
        assert r.log == ReplaySlot(badgeId, r.forest[0], parent) + rest.log;
    }
  }

  lemma {:induction false} NodeReplays(badgeId: Id, req: Requirement, parent: Option<Id>, store: Store, next: nat)
    requires FreshNode(req)
    ensures var r := InsertRequirement(badgeId, req, parent, store, next);
              r.log == ReplaySlot(badgeId, Some(r.node), parent)
    decreases 1 + ForestSize(req.children), 0
  {
    if store(next).Some? && |req.children| > 0 {
      InsertionReplays(badgeId, req.children, store(next), store, next + 1);
    }
  }

  /** Attempt `a` is the row of pre-order entry `e` of a list walked at nesting `depth`
      under `parent`: same identifier and description, the caller's parent at the top
      level, and some parent id below it (that an earlier row returned it is
      `InsertParentsPrecede`). */
  predicate RowOfEntry(a: Attempt, e: Entry, depth: nat, parent: Option<Id>)
  {
    && a.row.RqmtRow?
    && a.row.idnf == e.node.idnf
    && a.row.desc == e.node.desc
    && e.depth >= depth
    && (e.depth == depth ==> a.row.parent == parent)
    && (e.depth > depth ==> a.row.parent.Some?)
  }

  predicate RowsOfEntries(log: seq<Attempt>, es: seq<Entry>, depth: nat, parent: Option<Id>)
  {
    |log| == |es| && forall k :: 0 <= k < |log| ==> RowOfEntry(log[k], es[k], depth, parent)
  }

  lemma RowsOfEntriesAppend(x: seq<Attempt>, xs: seq<Entry>, y: seq<Attempt>, ys: seq<Entry>, depth: nat, parent: Option<Id>)
    requires RowsOfEntries(x, xs, depth, parent) && RowsOfEntries(y, ys, depth, parent)
    ensures RowsOfEntries(x + y, xs + ys, depth, parent)
  {
    forall k | 0 <= k < |x + y| ensures RowOfEntry((x + y)[k], (xs + ys)[k], depth, parent) {
      if k >= |x| {
        assert (x + y)[k] == y[k - |x|] && (xs + ys)[k] == ys[k - |x|];
      }
    }
  }

  lemma RowsOfEntriesNode(a: Attempt, e: Entry, below: seq<Attempt>, belowEs: seq<Entry>,
                          depth: nat, parent: Option<Id>, id: Id)
    requires RowOfEntry(a, e, depth, parent)
    requires RowsOfEntries(below, belowEs, depth + 1, Some(id))
    ensures RowsOfEntries([a] + below, [e] + belowEs, depth, parent)
  {
    forall k | 1 <= k < |below| + 1 ensures RowOfEntry(([a] + below)[k], ([e] + belowEs)[k], depth, parent) {
      assert ([a] + below)[k] == below[k - 1] && ([e] + belowEs)[k] == belowEs[k - 1];
    }
  }

  /** When every insert succeeds, every requirement object yields exactly one row, in
      pre-order: a parent's row, then its subtree's rows, then its later siblings' rows;
      rows of the top-level list carry the caller's parent and deeper rows a parent id. */
  lemma {:induction false} AllInsertsSucceed(badgeId: Id, f: Forest, parent: Option<Id>, store: Store, next: nat, depth: nat)
    requires forall k :: next <= k ==> store(k).Some?
    ensures RowsOfEntries(InsertRequirements(badgeId, f, parent, store, next).log, Flatten(f, depth), depth, parent)
    ensures |InsertRequirements(badgeId, f, parent, store, next).log| == ForestSize(f)
    decreases ForestSize(f), |f|
  {
    FlattenSize(f, depth);
    if |f| > 0 {
      ForestSizeSplit(f);
      match f[0]
      case None =>
        AllInsertsSucceed(badgeId, f[1..], parent, store, next, depth);
      case Some(req) =>
        var head := InsertRequirement(badgeId, req, parent, store, next);
        NodeAllSucceed(badgeId, req, parent, store, next, depth);
        AllInsertsSucceed(badgeId, f[1..], parent, store, head.next, depth);
        RowsOfEntriesAppend(head.log, FlattenNode(f[0], depth),
                            InsertRequirements(badgeId, f[1..], parent, store, head.next).log, Flatten(f[1..], depth),
                            depth, parent);
    }
  }

  lemma {:induction false} NodeAllSucceed(badgeId: Id, req: Requirement, parent: Option<Id>, store: Store, next: nat, depth: nat)
    requires forall k :: next <= k ==> store(k).Some?
    ensures RowsOfEntries(InsertRequirement(badgeId, req, parent, store, next).log, FlattenNode(Some(req), depth), depth, parent)
    ensures |InsertRequirement(badgeId, req, parent, store, next).log| == NodeSize(Some(req))
    decreases 1 + ForestSize(req.children), 0
  {
    var id := store(next).value;
    var attempt := Attempt(RqmtRow(badgeId, req.desc, req.idnf, parent), store(next));
    FlattenSize(req.children, depth + 1);
    if |req.children| > 0 {
      AllInsertsSucceed(badgeId, req.children, Some(id), store, next + 1, depth + 1);
      RowsOfEntriesNode(attempt, Entry(depth, req), InsertRequirements(badgeId, req.children, Some(id), store, next + 1).log,
                        Flatten(req.children, depth + 1), depth, parent, id);
    } else {
      RowsOfEntriesNode(attempt, Entry(depth, req), [], [], depth, parent, id);
    }
  }

  /** What inserting one badge leaves behind: the badge object, the attempts, the next
      attempt index. */
  datatype BadgeInserted = BadgeInserted(badge: MeritBadge, log: seq<Attempt>, next: nat)

  /** How a badge looks after its pass, given how it looked before: its four values are
      kept, and either it is untouched (its insert failed) or it carries a badge id and every
      requirement slot was stamped with that id. */
  predicate BadgeStamped(before: MeritBadge, after: MeritBadge)
  {
    && after.name == before.name
    && after.desc == before.desc
    && after.eagle == before.eagle
    && after.dpmtName == before.dpmtName
    && |after.requirements| == |before.requirements|
    && (after == before
        || (&& after.badgeId.Some?
            && forall i :: 0 <= i < |before.requirements| ==>
                 Stamped(before.requirements[i], after.requirements[i], after.badgeId.value)))
  }

  /** The `merit_badge` rows of a log, in order. */
  function BadgeRowsOf(log: seq<Attempt>): seq<Row>
  {
    if |log| == 0 then []
    else (if log[0].row.BadgeRow? then [log[0].row] else []) + BadgeRowsOf(log[1..])
  }

  lemma {:induction false} BadgeRowsOfAppend(a: seq<Attempt>, b: seq<Attempt>)
    ensures BadgeRowsOf(a + b) == BadgeRowsOf(a) + BadgeRowsOf(b)
    decreases |a|
  {
    if |a| == 0 {
      assert a + b == b;
    } else {
      assert (a + b)[1..] == a[1..] + b;
      BadgeRowsOfAppend(a[1..], b);
    }
  }

  lemma {:induction false} NoBadgeRows(log: seq<Attempt>)
    requires forall k :: 0 <= k < |log| ==> log[k].row.RqmtRow?
    ensures BadgeRowsOf(log) == []
    decreases |log|
  {
    if |log| > 0 {
      NoBadgeRows(log[1..]);
    }
  }

  /** The `merit_badge` row built for a badge of a department. */
  function BadgeRowFor(b: MeritBadge, dpmtId: Id): Row
  {
    BadgeRow(b.name, b.desc, b.eagle, dpmtId)
  }

  /** The body of the inner loop of `add_merit_badges_by_dpmt`: insert the badge row, and
      only if that returns data, write the returned id into the badge and insert its
      requirements, top level without a parent, under that id. */
  function InsertMeritBadge(b: MeritBadge, dpmtId: Id, store: Store, next: nat): (r: BadgeInserted)
    ensures |r.log| >= 1 && r.log[0] == Attempt(BadgeRowFor(b, dpmtId), store(next))
    ensures r.next == next + |r.log|
    ensures Answered(r.log, store, next)
    ensures BadgeRowsOf(r.log) == [BadgeRowFor(b, dpmtId)]
    ensures store(next).None? ==> |r.log| == 1 && r.badge == b
    ensures store(next).Some? ==> r.badge.badgeId == store(next)
    ensures forall k :: 1 <= k < |r.log| ==>
              r.log[k].row.RqmtRow? && Some(r.log[k].row.badgeId) == store(next)
    ensures BadgeStamped(b, r.badge)
  {
    var attempt := Attempt(BadgeRowFor(b, dpmtId), store(next));
    match store(next)
    case None => BadgeInserted(b, [attempt], next + 1)
    case Some(id) =>
      var rows := InsertRequirements(id, b.requirements, None, store, next + 1);
      InsertStamps(id, b.requirements, None, store, next + 1);
      NoBadgeRows(rows.log);
      AnsweredAppend([attempt], rows.log, store, next, next + 1);
      assert ([attempt] + rows.log)[1..] == rows.log;
      BadgeInserted(b.(badgeId := Some(id), requirements := rows.forest), [attempt] + rows.log, rows.next)
  }

  /** The log of one badge's pass read back from the badge after it: the badge row answered
      by the id written into the badge, then, if one was written, the requirement rows the
      updated requirement tree describes under that id. */
  function BadgeReplay(b: MeritBadge, dpmtId: Id): seq<Attempt>
  {
    [Attempt(BadgeRowFor(b, dpmtId), b.badgeId)]
    + (if b.badgeId.Some? then Replay(b.badgeId.value, b.requirements, None) else [])
  }

  /** Starting from a freshly converted badge, the pass inserts exactly the rows the updated
      badge describes: after a successful badge insert, the whole requirement tree under
      the returned id; after a failed one, nothing more. */
  lemma MeritBadgeReplays(b: MeritBadge, dpmtId: Id, store: Store, next: nat)
    requires FreshBadge(b)
    ensures var r := InsertMeritBadge(b, dpmtId, store, next);
              r.log == BadgeReplay(r.badge, dpmtId)
  {
    if store(next).Some? {
      InsertionReplays(store(next).value, b.requirements, None, store, next + 1);
    }
  }

  /** Row `j` is a requirement row and row `i` is the nearest badge row before it, whose
      insert returned the badge id row `j` carries. */
  predicate OwnedBy(log: seq<Attempt>, i: int, j: int)
    requires 0 <= i < j < |log|
  {
    && log[i].row.BadgeRow?
    && log[j].row.RqmtRow?
    && log[i].result == Some(log[j].row.badgeId)
    && forall k :: i < k < j ==> log[k].row.RqmtRow?
  }

  /** Requirement rows are only ever inserted after their badge's insert returned data, and
      under the id it returned. */
  predicate RowsFollowTheirBadge(log: seq<Attempt>)
  {
    forall j :: 0 <= j < |log| && log[j].row.RqmtRow? ==> exists i :: 0 <= i < j && OwnedBy(log, i, j)
  }

  lemma RowsFollowTheirBadgeAppend(a: seq<Attempt>, b: seq<Attempt>)
    requires RowsFollowTheirBadge(a) && RowsFollowTheirBadge(b)
    ensures RowsFollowTheirBadge(a + b)
  {
    var log := a + b;
    forall j | 0 <= j < |log| && log[j].row.RqmtRow?
      ensures exists i :: 0 <= i < j && OwnedBy(log, i, j)
    {
      if j < |a| {
        assert log[j] == a[j];
        var i :| 0 <= i < j && OwnedBy(a, i, j);
        assert forall k :: i <= k <= j ==> log[k] == a[k];
        assert OwnedBy(log, i, j);
      } else {
        var jb := j - |a|;
        assert log[j] == b[jb];
        var i :| 0 <= i < jb && OwnedBy(b, i, jb);
        assert forall k :: i <= k <= jb ==> log[k + |a|] == b[k];
        assert OwnedBy(log, i + |a|, j);
      }
    }
  }

  lemma InsertMeritBadgeOwnsRows(b: MeritBadge, dpmtId: Id, store: Store, next: nat)
    ensures RowsFollowTheirBadge(InsertMeritBadge(b, dpmtId, store, next).log)
  {
    var log := InsertMeritBadge(b, dpmtId, store, next).log;
    forall j | 0 <= j < |log| && log[j].row.RqmtRow?
      ensures exists i :: 0 <= i < j && OwnedBy(log, i, j)
    {
      assert OwnedBy(log, 0, j);
    }
  }

  /** What inserting a list of badges leaves behind. */
  datatype Added = Added(badges: seq<MeritBadge>, log: seq<Attempt>, next: nat)

  /** The `merit_badge` rows a department's badges should give, one per badge, in list order. */
  function BadgeRowsFor(badges: seq<MeritBadge>, dpmtId: Id): seq<Row>
  {
    seq(|badges|, i requires 0 <= i < |badges| => BadgeRowFor(badges[i], dpmtId))
  }

  /** The inner loop of `add_merit_badges_by_dpmt` over one department's badges; a badge
      whose insert fails is skipped and the loop goes on. */
  function InsertDepartment(dpmtId: Id, badges: seq<MeritBadge>, store: Store, next: nat): (r: Added)
    decreases |badges|
    ensures |r.badges| == |badges|
    ensures forall i :: 0 <= i < |badges| ==> BadgeStamped(badges[i], r.badges[i])
    ensures r.next == next + |r.log|
    ensures Answered(r.log, store, next)
    ensures BadgeRowsOf(r.log) == BadgeRowsFor(badges, dpmtId)
    ensures RowsFollowTheirBadge(r.log)
  {
    if |badges| == 0 then Added([], [], next)
    else
      var first := InsertMeritBadge(badges[0], dpmtId, store, next);
      var rest := InsertDepartment(dpmtId, badges[1..], store, first.next);
      InsertMeritBadgeOwnsRows(badges[0], dpmtId, store, next);
      RowsFollowTheirBadgeAppend(first.log, rest.log);
      AnsweredAppend(first.log, rest.log, store, next, first.next);
      BadgeRowsOfAppend(first.log, rest.log);
      BadgeRowsForFirst(badges, dpmtId);
      StampedFirst(badges, first.badge, rest.badges);
      Added([first.badge] + rest.badges, first.log + rest.log, rest.next)
  }

  lemma BadgeRowsForFirst(badges: seq<MeritBadge>, dpmtId: Id)
    requires |badges| > 0
    ensures BadgeRowsFor(badges, dpmtId) == [BadgeRowFor(badges[0], dpmtId)] + BadgeRowsFor(badges[1..], dpmtId)
  {
  }

  lemma StampedFirst(badges: seq<MeritBadge>, head: MeritBadge, tail: seq<MeritBadge>)
    requires |badges| > 0 && |tail| == |badges| - 1
    requires BadgeStamped(badges[0], head)
    requires forall i :: 0 <= i < |tail| ==> BadgeStamped(badges[1..][i], tail[i])
    ensures forall i :: 0 <= i < |badges| ==> BadgeStamped(badges[i], ([head] + tail)[i])
  {
    forall i | 1 <= i < |badges| ensures BadgeStamped(badges[i], ([head] + tail)[i]) {
      assert badges[i] == badges[1..][i - 1] && ([head] + tail)[i] == tail[i - 1];
    }
  }

  /** A department's log read back from its badges after the pass: each badge's replay, in
      list order. */
  function DepartmentReplay(dpmtId: Id, badges: seq<MeritBadge>): seq<Attempt>
  {
    if |badges| == 0 then [] else BadgeReplay(badges[0], dpmtId) + DepartmentReplay(dpmtId, badges[1..])
  }

  /** Starting from freshly converted badges, the department pass is every badge's own pass
      in list order: a badge whose insert fails contributes its one row and the badges after
      it are still inserted. */
  lemma {:induction false} DepartmentReplays(dpmtId: Id, badges: seq<MeritBadge>, store: Store, next: nat)
    requires forall i :: 0 <= i < |badges| ==> FreshBadge(badges[i])
    ensures var r := InsertDepartment(dpmtId, badges, store, next);
              r.log == DepartmentReplay(dpmtId, r.badges)
    decreases |badges|
  {
    if |badges| > 0 {
      var first := InsertMeritBadge(badges[0], dpmtId, store, next);
      MeritBadgeReplays(badges[0], dpmtId, store, next);
      assert forall i :: 0 <= i < |badges[1..]| ==> badges[1..][i] == badges[i + 1];
      DepartmentReplays(dpmtId, badges[1..], store, first.next);
      var r := InsertDepartment(dpmtId, badges, store, next);
      assert r.badges[1..] == InsertDepartment(dpmtId, badges[1..], store, first.next).badges;
    }
  }

  /** What the whole load leaves behind: the grouped badges with their ids written. */
  datatype Loaded = Loaded(groups: map<string, seq<MeritBadge>>, log: seq<Attempt>, next: nat)

  /** No department name is listed twice. */
  predicate Distinct(order: seq<string>)
  {
    |order| == 0 || (order[0] !in order[1..] && Distinct(order[1..]))
  }

  /** A key order in which no two positions hold the same name is `Distinct`. */
  lemma {:induction false} DistinctIfNoRepeats(order: seq<string>)
    requires forall i, j :: 0 <= i < j < |order| ==> order[i] != order[j]
    ensures Distinct(order)
    decreases |order|
  {
    if |order| > 0 {
      assert forall i :: 0 <= i < |order[1..]| ==> order[1..][i] == order[i + 1];
      DistinctIfNoRepeats(order[1..]);
    }
  }

  /** Every badge of the listed departments is as the converter built it. */
  predicate FreshAlong(order: seq<string>, groups: map<string, seq<MeritBadge>>)
  {
    forall i, k :: 0 <= i < |order| && order[i] in groups && 0 <= k < |groups[order[i]]| ==>
      FreshBadge(groups[order[i]][k])
  }

  /** The badges of each department, after the pass, relate to those before it by
      `BadgeStamped`. */
  predicate GroupsStamped(before: map<string, seq<MeritBadge>>, after: map<string, seq<MeritBadge>>)
  {
    && after.Keys == before.Keys
    && forall key :: key in before ==>
         && |after[key]| == |before[key]|
         && forall i :: 0 <= i < |before[key]| ==> BadgeStamped(before[key][i], after[key][i])
  }

  /** The departments listed in `order`, each under the id the lookup gives for its name. */
  function InsertDepartments(order: seq<string>, groups: map<string, seq<MeritBadge>>,
                             dpmtIdOf: string -> Id, store: Store, next: nat): (r: Loaded)
    requires forall i :: 0 <= i < |order| ==> order[i] in groups
    requires Distinct(order)
    decreases |order|
    ensures r.groups.Keys == groups.Keys
    ensures r.next == next + |r.log|
    ensures Answered(r.log, store, next)
    ensures RowsFollowTheirBadge(r.log)
  {
    if |order| == 0 then Loaded(groups, [], next)
    else
      var key := order[0];
      var first := InsertDepartment(dpmtIdOf(key), groups[key], store, next);
      TailInGroups(order, groups);
      var rest := InsertDepartments(order[1..], groups[key := first.badges], dpmtIdOf, store, first.next);
      AnsweredAppend(first.log, rest.log, store, next, first.next);
      RowsFollowTheirBadgeAppend(first.log, rest.log);
      Loaded(rest.groups, first.log + rest.log, rest.next)
  }

  /** Every department listed is stamped and every other one is left alone. */
  lemma {:induction false} DepartmentsStamp(order: seq<string>, groups: map<string, seq<MeritBadge>>,
                                            dpmtIdOf: string -> Id, store: Store, next: nat)
    requires forall i :: 0 <= i < |order| ==> order[i] in groups
    requires Distinct(order)
    ensures var r := InsertDepartments(order, groups, dpmtIdOf, store, next);
              && GroupsStamped(groups, r.groups)
              && forall key :: key in groups && key !in order ==> r.groups[key] == groups[key]
    decreases |order|
  {
    if |order| > 0 {
      var key := order[0];
      var first := InsertDepartment(dpmtIdOf(key), groups[key], store, next);
      TailInGroups(order, groups);
      DepartmentsStamp(order[1..], groups[key := first.badges], dpmtIdOf, store, first.next);
      var rest := InsertDepartments(order[1..], groups[key := first.badges], dpmtIdOf, store, first.next);
      GroupsStampedUpdate(groups, key, first.badges, rest.groups);
    }
  }

  lemma TailInGroups(order: seq<string>, groups: map<string, seq<MeritBadge>>)
    requires |order| > 0 && forall i :: 0 <= i < |order| ==> order[i] in groups
    ensures forall i :: 0 <= i < |order[1..]| ==> order[1..][i] == order[i + 1] && order[1..][i] in groups
  {
  }

  /** Replacing one department's badges by their stamped versions before a pass that
      stamps the rest and leaves that department alone stamps every department. */
  lemma GroupsStampedUpdate(groups: map<string, seq<MeritBadge>>, key: string, badges: seq<MeritBadge>,
                            after: map<string, seq<MeritBadge>>)
    requires key in groups && |badges| == |groups[key]|
    requires forall i :: 0 <= i < |badges| ==> BadgeStamped(groups[key][i], badges[i])
    requires GroupsStamped(groups[key := badges], after)
    requires after[key] == badges
    ensures GroupsStamped(groups, after)
  {
    forall k | k in groups
      ensures |after[k]| == |groups[k]|
      ensures forall i :: 0 <= i < |groups[k]| ==> BadgeStamped(groups[k][i], after[k][i])
    {
      if k != key {
        assert groups[key := badges][k] == groups[k];
      }
    }
  }

  /** `add_merit_badges_by_dpmt`: every department of the dictionary, each once, in key
      order. */
  function InsertAllDepartments(order: seq<string>, groups: map<string, seq<MeritBadge>>,
                                dpmtIdOf: string -> Id, store: Store, next: nat): (r: Loaded)
    requires forall i :: 0 <= i < |order| ==> order[i] in groups
    requires forall key :: key in groups ==> key in order
    requires Distinct(order)
    ensures GroupsStamped(groups, r.groups)
    ensures r.next == next + |r.log|
    ensures Answered(r.log, store, next)
    ensures RowsFollowTheirBadge(r.log)
    ensures FreshAlong(order, groups) ==> r.log == LoadReplay(order, r.groups, dpmtIdOf)
  {
    DepartmentsStamp(order, groups, dpmtIdOf, store, next);
    var r := InsertDepartments(order, groups, dpmtIdOf, store, next);
    if FreshAlong(order, groups) then
      DepartmentsReplay(order, groups, dpmtIdOf, store, next);
      r
    else
      r
  }


  /** The whole log read back from the departments after the pass: each department's
      replay under its looked-up id, in key order. */
  function LoadReplay(order: seq<string>, groups: map<string, seq<MeritBadge>>, dpmtIdOf: string -> Id): seq<Attempt>
    requires forall i :: 0 <= i < |order| ==> order[i] in groups
  {
    if |order| == 0 then []
    else DepartmentReplay(dpmtIdOf(order[0]), groups[order[0]]) + LoadReplay(order[1..], groups, dpmtIdOf)
  }

  /** Starting from freshly converted badges, the load inserts each department exactly
      once, in key order, as that department's own pass under the id looked up for it. */
  lemma {:induction false} DepartmentsReplay(order: seq<string>, groups: map<string, seq<MeritBadge>>,
                                             dpmtIdOf: string -> Id, store: Store, next: nat)
    requires forall i :: 0 <= i < |order| ==> order[i] in groups
    requires Distinct(order)
    requires FreshAlong(order, groups)
    ensures var r := InsertDepartments(order, groups, dpmtIdOf, store, next);
              r.log == LoadReplay(order, r.groups, dpmtIdOf)
    decreases |order|
  {
    if |order| > 0 {
      var key := order[0];
      var first := InsertDepartment(dpmtIdOf(key), groups[key], store, next);
      DepartmentReplays(dpmtIdOf(key), groups[key], store, next);
      TailInGroups(order, groups);
      var groups' := groups[key := first.badges];
      assert FreshAlong(order[1..], groups') by {
        forall i, k | 0 <= i < |order[1..]| && order[1..][i] in groups' && 0 <= k < |groups'[order[1..][i]]|
          ensures FreshBadge(groups'[order[1..][i]][k])
        {
          assert order[1..][i] == order[i + 1] && order[i + 1] != key;
        }
      }
      DepartmentsReplay(order[1..], groups', dpmtIdOf, store, first.next);
      DepartmentsStamp(order[1..], groups', dpmtIdOf, store, first.next);
      var rest := InsertDepartments(order[1..], groups', dpmtIdOf, store, first.next);
      assert rest.groups[key] == first.badges;
    }
  }
}
