/**
 * Properties of the whole store that the handlers keep, and the one they
 * do not: request ids stay unique within a month only under the corrected
 * id rule.
 */
module Invariants {
  import opened Outcomes
  import opened Text
  import opened Selection
  import opened Records
  import opened Intake
  import opened Ledger
  import opened Query

  /** The ids of the clients in the directory. */
  function ClientIds(clients: seq<Client>): set<string> {
    set c | c in clients :: c.id
  }

  /** Every stored request refers to a client in the directory. */
  ghost predicate RefsResolve(store: Store) {
    forall k, x :: x in LoadMonth(store, k) ==> x.clientId in ClientIds(store.clients)
  }

  /** Every stored request has one of the three recognised statuses. */
  ghost predicate StatusesValid(store: Store) {
    forall k, x :: x in LoadMonth(store, k) ==> ValidStatus(x.status)
  }

  /** No two requests of a partition share an id. */
  ghost predicate IdsUnique(p: seq<Request>) {
    forall i, j :: 0 <= i < j < |p| ==> p[i].id != p[j].id
  }

  ghost predicate PartitionIdsUnique(store: Store) {
    forall k :: IdsUnique(LoadMonth(store, k))
  }

  /** The ids of a partition are 1, 2, ..., n in order, as they are while
      nothing has been deleted. */
  ghost predicate Consecutive(p: seq<Request>) {
    forall i :: 0 <= i < |p| ==> p[i].id == i + 1
  }

  /** An upsert never loses a client id. */
  lemma UpsertKeepsIds(clients: seq<Client>, s: Submission, freshId: string, stamp: string)
    ensures ClientIds(clients) <= ClientIds(Upsert(clients, s, freshId, stamp).clients)
  {
    var r := Upsert(clients, s, freshId, stamp).clients;
    UpsertSpec(clients, s, freshId, stamp);
    forall id | id in ClientIds(clients) ensures id in ClientIds(r) {
      var c :| c in clients && c.id == id;
      var j :| 0 <= j < |clients| && clients[j] == c;
      assert r[j].id == id;
      assert r[j] in r;
    }
  }

  /** A successful submission's directory is the upsert of the old one. */
  lemma SubmitDirectory(store: Store, form: Form, clock: Clock, freshId: string)
    requires !HasBlankRequired(form)
    ensures ClientIds(store.clients) <= ClientIds(Submit(store, form, clock, freshId).value.clients)
  {
    var s := ReadSubmission(form).value;
    UpsertKeepsIds(store.clients, s, freshId, clock.clientStamp);
  }

  /** Appending one request whose client is in the directory, and whose
      status is valid, to one month keeps both invariants. */
  lemma AppendKeepsInvariants(store: Store, after: Store, k: MonthKey, added: Request)
    requires ClientIds(store.clients) <= ClientIds(after.clients)
    requires LoadMonth(after, k) == LoadMonth(store, k) + [added]
    requires forall k' :: k' != k ==> LoadMonth(after, k') == LoadMonth(store, k')
    requires added.clientId in ClientIds(after.clients) && ValidStatus(added.status)
    ensures RefsResolve(store) ==> RefsResolve(after)
    ensures StatusesValid(store) ==> StatusesValid(after)
  {
    forall k', x | x in LoadMonth(after, k')
      ensures x in LoadMonth(store, k') || x == added
    {
      if k' == k {
        assert x in LoadMonth(store, k) + [added];
      }
    }
  }

  /** A submission keeps client references resolvable and statuses valid. */
  lemma SubmitKeepsInvariants(store: Store, form: Form, clock: Clock, freshId: string)
    requires !HasBlankRequired(form)
    ensures var after := Submit(store, form, clock, freshId).value;
      && (RefsResolve(store) ==> RefsResolve(after))
      && (StatusesValid(store) ==> StatusesValid(after))
  {
    var after := Submit(store, form, clock, freshId).value;
    SubmitDirectory(store, form, clock, freshId);
    var p := LoadMonth(store, clock.today);
    var q := LoadMonth(after, clock.today);
    assert q == p + [q[|p|]] by {
      assert q == q[..|p|] + [q[|p|]];
    }
    var c :| c in after.clients && c.id == q[|p|].clientId && c.email == q[|p|].email;
    AppendKeepsInvariants(store, after, clock.today, q[|p|]);
  }

  /** A request whose id no request of `t` carries can go in front of `t`
      without breaking uniqueness. */
  lemma ConsUnique(x: Request, t: seq<Request>)
    requires IdsUnique(t)
    requires forall y :: y in t ==> y.id != x.id
    ensures IdsUnique([x] + t)
  {
    var u := [x] + t;
    forall i, j | 0 <= i < j < |u| ensures u[i].id != u[j].id {
      assert u[j] == t[j - 1];
      if i > 0 {
        assert u[i] == t[i - 1];
      } else {
        assert t[j - 1] in t;
      }
    }
  }

  /** The tail of a partition with unique ids has unique ids, none of them the head's. */
  lemma TailUnique(p: seq<Request>)
    requires IdsUnique(p) && |p| > 0
    ensures IdsUnique(p[1..])
    ensures forall y :: y in p[1..] ==> y.id != p[0].id
  {
    var t := p[1..];
    forall i, j | 0 <= i < j < |t| ensures t[i].id != t[j].id {
      assert t[i] == p[i + 1] && t[j] == p[j + 1];
    }
    forall y | y in t ensures y.id != p[0].id {
      var j :| 0 <= j < |t| && t[j] == y;
      assert p[j + 1] == y;
    }
  }

  /** Deleting keeps the ids of a partition unique. */
  lemma {:induction false} DeleteKeepsIdsUnique(p: seq<Request>, id: int)
    requires IdsUnique(p)
    ensures IdsUnique(Delete(p, id))
    decreases |p|
  {
    if |p| > 0 {
      var t := p[1..];
      TailUnique(p);
      DeleteKeepsIdsUnique(t, id);
      DeleteHead(p, id);
      if p[0].id != id {
        DeleteContents(t, id);
        ConsUnique(p[0], Delete(t, id));
      }
    }
  }

  /** `add_note` changes no request's id, client or status. */
  lemma NotesKeepIdentity(p: seq<Request>, id: int, note: string)
    ensures var n := SetNotes(p, id, note);
      |n| == |p| && forall j :: 0 <= j < |p| ==>
        n[j].id == p[j].id && n[j].clientId == p[j].clientId && n[j].status == p[j].status
  {
    var n := SetNotes(p, id, note);
    if !Absent(p, id) {
      var i :| 0 <= i < |p| && p[i].id == id;
      var k := FirstIndex(p, id, i);
      assert n[k].(notes := p[k].notes) == p[k];
    }
  }

  /** `assign_request` changes no request's id, client or status. */
  lemma AssigneeKeepsIdentity(p: seq<Request>, id: int, who: string)
    ensures var a := SetAssignee(p, id, who);
      |a| == |p| && forall j :: 0 <= j < |p| ==>
        a[j].id == p[j].id && a[j].clientId == p[j].clientId && a[j].status == p[j].status
  {
    var a := SetAssignee(p, id, who);
    if !Absent(p, id) {
      var i :| 0 <= i < |p| && p[i].id == id;
      var k := FirstIndex(p, id, i);
      assert a[k].(assignedTo := p[k].assignedTo) == p[k];
    }
  }

  /** An accepted `update_status` changes no request's id or client, and
      sets a status only to the new one. */
  lemma StatusKeepsIdentity(p: seq<Request>, id: int, status: string)
    requires ValidStatus(status)
    ensures var u := SetStatus(p, id, status).value;
      |u| == |p| && forall j :: 0 <= j < |p| ==>
        u[j].id == p[j].id && u[j].clientId == p[j].clientId && (u[j].status == p[j].status || u[j].status == status)
  {
    var u := SetStatus(p, id, status).value;
    if !Absent(p, id) {
      var i :| 0 <= i < |p| && p[i].id == id;
      var k := FirstIndex(p, id, i);
      assert u[k].(status := p[k].status) == p[k];
    }
  }

  /** `delete_request` keeps client references resolvable, statuses
      valid and ids unique in every month. */
  lemma DeleteKeepsInvariants(store: Store, year: Option<int>, month: Option<int>, today: MonthKey, id: int)
    requires RefsResolve(store) && StatusesValid(store) && PartitionIdsUnique(store)
    ensures var r := HandleDelete(store, year, month, today, id);
      RefsResolve(r) && StatusesValid(r) && PartitionIdsUnique(r)
  {
    var k := ResolveMonth(year, month, today);
    var p := LoadMonth(store, k);
    var q := Delete(p, id);
    DeleteContents(p, id);
    DeleteKeepsIdsUnique(p, id);
    var r := SaveMonth(store, k, q);
    forall k', x | x in LoadMonth(r, k') ensures x in LoadMonth(store, k') {
    }
    assert forall k' :: IdsUnique(LoadMonth(r, k')) by {
      forall k' ensures IdsUnique(LoadMonth(r, k')) {
        if k' != k {
          assert LoadMonth(r, k') == LoadMonth(store, k');
        }
      }
    }
  }

  /** `add_note` keeps client references resolvable, statuses valid and
      ids unique in every month. */
  lemma AddNoteKeepsInvariants(store: Store, year: Option<int>, month: Option<int>, today: MonthKey,
                               id: int, form: Form)
    requires RefsResolve(store) && StatusesValid(store) && PartitionIdsUnique(store)
    ensures var r := HandleAddNote(store, year, month, today, id, form);
      RefsResolve(r) && StatusesValid(r) && PartitionIdsUnique(r)
  {
    var k := ResolveMonth(year, month, today);
    var p := LoadMonth(store, k);
    var note := Strip(FormGet(form, "note", ""));
    NotesKeepIdentity(p, id, note);
    ValidAt(store, k);
    ChangedPartition(store, k, SetNotes(p, id, note));
  }

  /** `assign_request` keeps client references resolvable, statuses valid
      and ids unique in every month. */
  lemma AssignKeepsInvariants(store: Store, year: Option<int>, month: Option<int>, today: MonthKey,
                              id: int, form: Form)
    requires RefsResolve(store) && StatusesValid(store) && PartitionIdsUnique(store)
    ensures var r := HandleAssign(store, year, month, today, id, form);
      RefsResolve(r) && StatusesValid(r) && PartitionIdsUnique(r)
  {
    var k := ResolveMonth(year, month, today);
    var p := LoadMonth(store, k);
    var who := Strip(FormGet(form, "assigned_to", ""));
    AssigneeKeepsIdentity(p, id, who);
    ValidAt(store, k);
    ChangedPartition(store, k, SetAssignee(p, id, who));
  }

  /** An accepted `update_status` keeps client references resolvable,
      statuses valid and ids unique in every month. */
  lemma UpdateStatusKeepsInvariants(store: Store, year: Option<int>, month: Option<int>, today: MonthKey,
                                    id: int, status: string)
    requires RefsResolve(store) && StatusesValid(store) && PartitionIdsUnique(store)
    requires ValidStatus(status)
    ensures var r := HandleUpdateStatus(store, year, month, today, id, status).value;
      RefsResolve(r) && StatusesValid(r) && PartitionIdsUnique(r)
  {
    var k := ResolveMonth(year, month, today);
    var p := LoadMonth(store, k);
    StatusKeepsIdentity(p, id, status);
    ValidAt(store, k);
    ChangedPartition(store, k, SetStatus(p, id, status).value);
  }

  lemma ValidAt(store: Store, k: MonthKey)
    requires StatusesValid(store)
    ensures forall j :: 0 <= j < |LoadMonth(store, k)| ==> ValidStatus(LoadMonth(store, k)[j].status)
  {
    var p := LoadMonth(store, k);
    forall j | 0 <= j < |p| ensures ValidStatus(p[j].status) {
      assert p[j] in p;
    }
  }

  /** Saving a partition whose requests match the old ones position by
      position in id, client and a valid status keeps the invariants. */
  lemma ChangedPartition(store: Store, k: MonthKey, q: seq<Request>)
    requires RefsResolve(store) && StatusesValid(store) && PartitionIdsUnique(store)
    requires var p := LoadMonth(store, k);
      |q| == |p| && forall j :: 0 <= j < |p| ==>
        q[j].id == p[j].id && q[j].clientId == p[j].clientId && ValidStatus(q[j].status)
    ensures var r := SaveMonth(store, k, q);
      RefsResolve(r) && StatusesValid(r) && PartitionIdsUnique(r)
  {
    var p := LoadMonth(store, k);
    var r := SaveMonth(store, k, q);
    forall x | x in q ensures x.clientId in ClientIds(store.clients) && ValidStatus(x.status) {
      var j :| 0 <= j < |q| && q[j] == x;
      assert p[j] in p;
    }
    assert IdsUnique(q) by {
      assert IdsUnique(p);
    }
  }

  /** Appending a request whose id exceeds every id present keeps ids unique. */
  lemma AppendUnique(p: seq<Request>, added: Request)
    requires IdsUnique(p)
    requires forall i :: 0 <= i < |p| ==> p[i].id < added.id
    ensures IdsUnique(p + [added])
  {
    var q := p + [added];
    forall i, j | 0 <= i < j < |q| ensures q[i].id != q[j].id {
      assert q[i] == p[i];
    }
  }

  /** Under the corrected id rule, a submission keeps ids unique in every month. */
  lemma SubmitFixedKeepsIdsUnique(store: Store, form: Form, clock: Clock, freshId: string)
    requires PartitionIdsUnique(store)
    requires !HasBlankRequired(form)
    ensures PartitionIdsUnique(SubmitFixed(store, form, clock, freshId).value)
  {
    var r := SubmitFixed(store, form, clock, freshId);
    assert r.Ok?;
    var after := r.value;
    var p := LoadMonth(store, clock.today);
    var q := LoadMonth(after, clock.today);
    assert q == p + [q[|p|]] by {
      assert q == q[..|p|] + [q[|p|]];
    }
    AppendUnique(p, q[|p|]);
    forall k ensures IdsUnique(LoadMonth(after, k)) {
      if k != clock.today {
        assert LoadMonth(after, k) == LoadMonth(store, k);
      }
    }
  }

  /** Appending the request with id n + 1 to n consecutive ones keeps them consecutive. */
  lemma AppendConsecutive(p: seq<Request>, added: Request)
    requires Consecutive(p)
    requires added.id == |p| + 1
    ensures Consecutive(p + [added])
  {
    var q := p + [added];
    forall i | 0 <= i < |q| ensures q[i].id == i + 1 {
      if i < |p| {
        assert q[i] == p[i];
      }
    }
  }

  /** As written, a submission keeps the ids 1..n of an undeleted month
      consecutive: the n-th request submitted to a new month gets id n. */
  lemma SubmitKeepsConsecutive(store: Store, form: Form, clock: Clock, freshId: string)
    requires Consecutive(LoadMonth(store, clock.today))
    requires !HasBlankRequired(form)
    ensures Consecutive(LoadMonth(Submit(store, form, clock, freshId).value, clock.today))
  {
    var p := LoadMonth(store, clock.today);
    var q := LoadMonth(Submit(store, form, clock, freshId).value, clock.today);
    assert q == p + [q[|p|]] by {
      assert q == q[..|p|] + [q[|p|]];
    }
    AppendConsecutive(p, q[|p|]);
  }

  /** Consecutive ids are unique, and on them the corrected rule assigns
      the same id as the written one. */
  lemma ConsecutiveAgrees(p: seq<Request>)
    requires Consecutive(p)
    ensures IdsUnique(p)
    ensures NextIdFixed(p) == NextId(p)
  {
    if |p| > 0 {
      assert p[|p| - 1].id == |p|;
      if MaxId(p) != 0 {
        var i :| 0 <= i < |p| && p[i].id == MaxId(p);
      }
    }
  }

  /** The defect of the written id rule: in a month holding ids 1, 2, 3,
      deleting id 2 and then submitting gives the new request id 3 again. */
  lemma DuplicateIdAfterDelete(store: Store, form: Form, clock: Clock, freshId: string,
                               a: Request, b: Request, c: Request)
    requires LoadMonth(store, clock.today) == [a, b, c]
    requires a.id == 1 && b.id == 2 && c.id == 3
    requires !HasBlankRequired(form)
    ensures LoadMonth(HandleDelete(store, None, None, clock.today, 2), clock.today) == [a, c]
    ensures Submit(HandleDelete(store, None, None, clock.today, 2), form, clock, freshId).Ok?
    ensures var q := LoadMonth(Submit(HandleDelete(store, None, None, clock.today, 2), form, clock, freshId).value, clock.today);
      |q| == 3 && q[1].id == 3 && q[2].id == 3 && !IdsUnique(q)
  {
    var deleted := HandleDelete(store, None, None, clock.today, 2);
    DeleteMiddle(a, b, c);
    assert LoadMonth(deleted, clock.today) == [a, c];
    var after := Submit(deleted, form, clock, freshId);
    assert after.Ok?;
    var q := LoadMonth(after.value, clock.today);
    assert q[..2] == [a, c];
    assert q[1] == q[..2][1];
  }

  /** A submission never shows up in another month's admin view. */
  lemma SubmitIsolated(store: Store, form: Form, clock: Clock, freshId: string,
                       year: int, month: int, today: MonthKey, filter: string)
    requires !HasBlankRequired(form)
    requires MonthKey(year, month) != clock.today
    ensures AdminPanelAt(Submit(store, form, clock, freshId).value, Some(year), Some(month), today, filter)
         == AdminPanelAt(store, Some(year), Some(month), today, filter)
  {
  }

  /** With valid statuses throughout, the status counts of `/api/stats` add
      up to the total. */
  lemma ApiStatsAddUp(store: Store, today: MonthKey)
    requires StatusesValid(store)
    ensures var (rs, cs) := ApiStats(store, today);
      rs.newCount + rs.inProgress + rs.completed == rs.total && cs.recurring <= cs.total
  {
    var p := LoadMonth(store, today);
    assert forall i :: 0 <= i < |p| ==> ValidStatus(p[i].status) by {
      forall i | 0 <= i < |p| ensures ValidStatus(p[i].status) {
        assert p[i] in p;
      }
    }
  }
}
