/**
 * The admin handlers that change a month partition: `delete_request`,
 * `update_status`, `add_note` and `assign_request`. Each loads the resolved
 * month, transforms the list and saves it back unconditionally.
 */
module Ledger {
  import opened Outcomes
  import opened Text
  import opened Selection
  import opened Records

  /** The condition the update loops test: the request carries `id`. */
  function HasId(id: int): Request -> bool {
    (x: Request) => x.id == id
  }

  /** No request in `p` carries `id`. */
  predicate Absent(p: seq<Request>, id: int) {
    forall i :: 0 <= i < |p| ==> p[i].id != id
  }

  /** The list comprehension of `delete_request`: every request carrying
      `id` goes, all others stay. */
  function Delete(p: seq<Request>, id: int): (r: seq<Request>)
    ensures |r| <= |p|
    ensures Absent(p, id) ==> r == p
  {
    Keep(p, (x: Request) => x.id != id)
  }

  /** What a delete leaves: exactly the requests not carrying `id`, each as
      often as before. */
  lemma DeleteContents(p: seq<Request>, id: int)
    ensures forall x :: x in Delete(p, id) <==> x in p && x.id != id
    ensures forall x :: multiset(Delete(p, id))[x] == if x.id == id then 0 else multiset(p)[x]
  {
    KeepContents(p, (x: Request) => x.id != id);
  }

  /** Deleting is order preserving: it acts on each part of a concatenation
      separately, and on one request it is all or nothing. */
  lemma DeletePreservesOrder(a: seq<Request>, b: seq<Request>, x: Request, id: int)
    ensures Delete(a + b, id) == Delete(a, id) + Delete(b, id)
    ensures Delete([x], id) == if x.id == id then [] else [x]
  {
    KeepAppend(a, b, (x: Request) => x.id != id);
  }

  /** Deleting from a non-empty partition: the head stays or goes, then the rest. */
  lemma DeleteHead(p: seq<Request>, id: int)
    requires |p| > 0
    ensures Delete(p, id) == (if p[0].id != id then [p[0]] else []) + Delete(p[1..], id)
  {
    DeletePreservesOrder([p[0]], p[1..], p[0], id);
    assert [p[0]] + p[1..] == p;
  }

  /** Deleting the same id twice is the same as deleting it once. */
  lemma DeleteIdempotent(p: seq<Request>, id: int)
    ensures Delete(Delete(p, id), id) == Delete(p, id)
  {
    var once := Delete(p, id);
    DeleteContents(p, id);
    assert Absent(once, id) by {
      forall i | 0 <= i < |once| ensures once[i].id != id {
        assert once[i] in once;
      }
    }
  }

  /** Deleting the middle one of the ids 1, 2, 3 leaves the other two in order. */
  lemma DeleteMiddle(a: Request, b: Request, c: Request)
    requires a.id == 1 && b.id == 2 && c.id == 3
    ensures Delete([a, b, c], 2) == [a, c]
  {
    var p := [a, b, c];
    DeleteHead(p, 2);
    assert p[0] == a && p[1..] == [b, c];
    DeleteHead([b, c], 2);
    assert [b, c][0] == b && [b, c][1..] == [c];
    DeleteHead([c], 2);
    assert [c][0] == c && [c][1..] == [];
    assert Absent([], 2);
  }

  /** The error of `update_status` when the status is not one of the three. */
  datatype AdminError = InvalidStatus

  /** The loop of `update_status`: the first request carrying `id` gets the
      new status, which must be one of the three recognised values. */
  function SetStatus(p: seq<Request>, id: int, status: string): (r: Result<seq<Request>, AdminError>)
    ensures r.Err? <==> !ValidStatus(status)
    ensures r.Ok? ==> |r.value| == |p|
    ensures r.Ok? && Absent(p, id) ==> r.value == p
    ensures r.Ok? ==> forall i :: IsFirst(p, HasId(id), i) ==>
      && r.value[i].status == status
      && r.value[i].(status := p[i].status) == p[i]
      && forall j :: 0 <= j < |p| && j != i ==> r.value[j] == p[j]
  {
    if !ValidStatus(status) then Err(InvalidStatus)
    else
      UpdateFirstChanges(p, HasId(id), (x: Request) => x.(status := status));
      Ok(UpdateFirst(p, HasId(id), (x: Request) => x.(status := status)))
  }

  /** The loop of `add_note`: the first request carrying `id` gets `note`
      as its notes, replacing whatever was there. */
  function SetNotes(p: seq<Request>, id: int, note: string): (r: seq<Request>)
    ensures |r| == |p|
    ensures Absent(p, id) ==> r == p
    ensures forall i :: IsFirst(p, HasId(id), i) ==>
      && r[i].notes == note
      && r[i].(notes := p[i].notes) == p[i]
      && forall j :: 0 <= j < |p| && j != i ==> r[j] == p[j]
  {
    UpdateFirstChanges(p, HasId(id), (x: Request) => x.(notes := note));
    UpdateFirst(p, HasId(id), (x: Request) => x.(notes := note))
  }

  /** The loop of `assign_request`: the first request carrying `id` gets
      `who` as its assignee, replacing whatever was there. */
  function SetAssignee(p: seq<Request>, id: int, who: string): (r: seq<Request>)
    ensures |r| == |p|
    ensures Absent(p, id) ==> r == p
    ensures forall i :: IsFirst(p, HasId(id), i) ==>
      && r[i].assignedTo == who
      && r[i].(assignedTo := p[i].assignedTo) == p[i]
      && forall j :: 0 <= j < |p| && j != i ==> r[j] == p[j]
  {
    UpdateFirstChanges(p, HasId(id), (x: Request) => x.(assignedTo := who));
    UpdateFirst(p, HasId(id), (x: Request) => x.(assignedTo := who))
  }

  /** A note written twice leaves only the second: notes are overwritten,
      not appended to. */
  lemma NotesOverwrite(p: seq<Request>, id: int, first: string, second: string)
    ensures SetNotes(SetNotes(p, id, first), id, second) == SetNotes(p, id, second)
  {
    var q := SetNotes(p, id, first);
    var r1 := SetNotes(q, id, second);
    var r2 := SetNotes(p, id, second);
    if Absent(p, id) {
    } else {
      var i :| 0 <= i < |p| && p[i].id == id;
      var k := FirstIndex(p, id, i);
      assert IsFirst(q, HasId(id), k);
      assert r1[k] == r2[k];
      assert forall j :: 0 <= j < |p| ==> r1[j] == r2[j];
    }
  }

  /** An assignee set twice leaves only the second. */
  lemma AssigneeOverwrite(p: seq<Request>, id: int, first: string, second: string)
    ensures SetAssignee(SetAssignee(p, id, first), id, second) == SetAssignee(p, id, second)
  {
    var q := SetAssignee(p, id, first);
    var r1 := SetAssignee(q, id, second);
    var r2 := SetAssignee(p, id, second);
    if !Absent(p, id) {
      var i :| 0 <= i < |p| && p[i].id == id;
      var k := FirstIndex(p, id, i);
      assert IsFirst(q, HasId(id), k);
      assert r1[k] == r2[k];
      assert forall j :: 0 <= j < |p| ==> r1[j] == r2[j];
    }
  }

  /** Some request carries `id`, so there is a first one. */
  lemma {:induction false} FirstIndex(p: seq<Request>, id: int, i: int) returns (k: int)
    requires 0 <= i < |p| && p[i].id == id
    ensures IsFirst(p, HasId(id), k) && k <= i
    decreases i
  {
    if exists j :: 0 <= j < i && p[j].id == id {
      var j :| 0 <= j < i && p[j].id == id;
      k := FirstIndex(p, id, j);
    } else {
      k := i;
    }
  }

  /** `delete_request` on the resolved month. */
  function HandleDelete(store: Store, year: Option<int>, month: Option<int>, today: MonthKey, id: int): (r: Store)
    ensures var k := ResolveMonth(year, month, today);
      && LoadMonth(r, k) == Delete(LoadMonth(store, k), id)
      && (forall k' :: k' != k ==> LoadMonth(r, k') == LoadMonth(store, k'))
      && r.partitions.Keys == store.partitions.Keys + {k}
      && r.clients == store.clients
  {
    var k := ResolveMonth(year, month, today);
    SaveMonth(store, k, Delete(LoadMonth(store, k), id))
  }

  /** `update_status` on the resolved month. An unrecognised status is
      rejected before anything is loaded or saved. */
  function HandleUpdateStatus(store: Store, year: Option<int>, month: Option<int>, today: MonthKey,
                              id: int, status: string): (r: Result<Store, AdminError>)
    ensures r.Err? <==> !ValidStatus(status)
    ensures r.Ok? ==> var k := ResolveMonth(year, month, today);
      && LoadMonth(r.value, k) == SetStatus(LoadMonth(store, k), id, status).value
      && (forall k' :: k' != k ==> LoadMonth(r.value, k') == LoadMonth(store, k'))
      && r.value.partitions.Keys == store.partitions.Keys + {k}
      && r.value.clients == store.clients
  {
    var k := ResolveMonth(year, month, today);
    match SetStatus(LoadMonth(store, k), id, status)
    case Err(e) => Err(e)
    case Ok(p) => Ok(SaveMonth(store, k, p))
  }

  /** `add_note` on the resolved month; the form's `note` is stripped first. */
  function HandleAddNote(store: Store, year: Option<int>, month: Option<int>, today: MonthKey,
                         id: int, form: Form): (r: Store)
    ensures var k := ResolveMonth(year, month, today);
      && LoadMonth(r, k) == SetNotes(LoadMonth(store, k), id, Strip(FormGet(form, "note", "")))
      && (forall k' :: k' != k ==> LoadMonth(r, k') == LoadMonth(store, k'))
      && r.partitions.Keys == store.partitions.Keys + {k}
      && r.clients == store.clients
  {
    var k := ResolveMonth(year, month, today);
    SaveMonth(store, k, SetNotes(LoadMonth(store, k), id, Strip(FormGet(form, "note", ""))))
  }

  /** `assign_request` on the resolved month; the form's `assigned_to` is stripped first. */
  function HandleAssign(store: Store, year: Option<int>, month: Option<int>, today: MonthKey,
                        id: int, form: Form): (r: Store)
    ensures var k := ResolveMonth(year, month, today);
      && LoadMonth(r, k) == SetAssignee(LoadMonth(store, k), id, Strip(FormGet(form, "assigned_to", "")))
      && (forall k' :: k' != k ==> LoadMonth(r, k') == LoadMonth(store, k'))
      && r.partitions.Keys == store.partitions.Keys + {k}
      && r.clients == store.clients
  {
    var k := ResolveMonth(year, month, today);
    SaveMonth(store, k, SetAssignee(LoadMonth(store, k), id, Strip(FormGet(form, "assigned_to", ""))))
  }

  /** A handler given an id that no request of the month carries leaves every
      partition's contents as they were; it still saves the month, so a month
      without a file gets an empty one. */
  lemma AbsentIdLeavesContents(store: Store, year: Option<int>, month: Option<int>, today: MonthKey,
                               id: int, status: string, form: Form)
    requires Absent(LoadMonth(store, ResolveMonth(year, month, today)), id)
    ensures forall k :: LoadMonth(HandleDelete(store, year, month, today, id), k) == LoadMonth(store, k)
    ensures forall k :: LoadMonth(HandleAddNote(store, year, month, today, id, form), k) == LoadMonth(store, k)
    ensures forall k :: LoadMonth(HandleAssign(store, year, month, today, id, form), k) == LoadMonth(store, k)
    ensures ValidStatus(status) ==> forall k ::
      LoadMonth(HandleUpdateStatus(store, year, month, today, id, status).value, k) == LoadMonth(store, k)
    ensures HandleDelete(store, year, month, today, id).partitions.Keys
         == store.partitions.Keys + {ResolveMonth(year, month, today)}
  {
  }
}
