/**
 * The read side of the admin panel (`admin_panel`) and of `/api/stats`:
 * the optional status filter, the newest-first ordering, and the counts.
 */
module Query {
  import opened Outcomes
  import opened Selection
  import opened Records

  /** The status filter of `admin_panel`: an empty filter keeps everything,
      any other keeps exactly the requests with that status. */
  function ByStatus(p: seq<Request>, filter: string): (r: seq<Request>)
    ensures filter == "" ==> r == p
    ensures filter != "" ==> forall x :: x in r <==> x in p && x.status == filter
    ensures filter != "" ==> forall x ::
      multiset(r)[x] == if x.status == filter then multiset(p)[x] else 0
  {
    if filter == "" then p
    else
      KeepContents(p, (x: Request) => x.status == filter);
      Keep(p, (x: Request) => x.status == filter)
  }

  /** Ids never increase from one position to a later one. */
  ghost predicate IdsDescending(p: seq<Request>) {
    forall i, j :: 0 <= i < j < |p| ==> p[i].id >= p[j].id
  }

  /** The requests carrying id `k`, in their order. */
  function WithId(p: seq<Request>, k: int): seq<Request> {
    Keep(p, (x: Request) => x.id == k)
  }

  lemma WithIdAppend(a: seq<Request>, b: seq<Request>, k: int)
    ensures WithId(a + b, k) == WithId(a, k) + WithId(b, k)
  {
    KeepAppend(a, b, (x: Request) => x.id == k);
  }

  /** A request whose id is at least the head's can go in front. */
  lemma IdsInFront(x: Request, s: seq<Request>)
    requires IdsDescending(s) && (|s| == 0 || s[0].id <= x.id)
    ensures IdsDescending([x] + s)
  {
    var r := [x] + s;
    forall i, j | 0 <= i < j < |r| ensures r[i].id >= r[j].id {
      assert r[j] == s[j - 1];
      if i > 0 {
        assert r[i] == s[i - 1];
      } else if j > 1 {
        assert s[0].id >= s[j - 1].id;
      }
    }
  }

  /** The step of `InsertById` that keeps the head in front. */
  lemma IdsBehindHead(x: Request, s: seq<Request>, t: seq<Request>)
    requires IdsDescending(s) && |s| > 0 && s[0].id > x.id
    requires IdsDescending(t) && multiset(t) == multiset(s[1..]) + multiset{x}
    ensures IdsDescending([s[0]] + t)
    ensures multiset([s[0]] + t) == multiset(s) + multiset{x}
  {
    assert s == [s[0]] + s[1..];
    var r := [s[0]] + t;
    forall j | 0 <= j < |t| ensures t[j].id <= s[0].id {
      assert t[j] in multiset(t);
      if t[j] != x {
        assert t[j] in multiset(s[1..]);
        var i :| 0 <= i < |s[1..]| && s[1..][i] == t[j];
        assert s[i + 1] == t[j];
      }
    }
    forall i, j | 0 <= i < j < |r| ensures r[i].id >= r[j].id {
      assert r[j] == t[j - 1];
      if i > 0 {
        assert r[i] == t[i - 1];
      }
    }
  }

  lemma IdsTail(s: seq<Request>)
    requires IdsDescending(s) && |s| > 0
    ensures IdsDescending(s[1..])
  {
    forall i, j | 0 <= i < j < |s[1..]| ensures s[1..][i].id >= s[1..][j].id {
      assert s[1..][i] == s[i + 1] && s[1..][j] == s[j + 1];
    }
  }

  /** `x` placed before the first request whose id is not above its own. */
  function InsertById(x: Request, s: seq<Request>): (r: seq<Request>)
    requires IdsDescending(s)
    ensures IdsDescending(r)
    ensures multiset(r) == multiset(s) + multiset{x}
  {
    if |s| == 0 || s[0].id <= x.id then
      IdsInFront(x, s);
      [x] + s
    else
      IdsTail(s);
      var t := InsertById(x, s[1..]);
      IdsBehindHead(x, s, t);
      [s[0]] + t
  }

  /** The requests among `[y] + s` carrying id `k`. */
  lemma WithIdCons(y: Request, s: seq<Request>, k: int)
    ensures WithId([y] + s, k) == (if y.id == k then [y] else []) + WithId(s, k)
  {
    assert ([y] + s)[1..] == s;
  }

  /** Two adjacent requests with different ids can trade places without
      changing the order among the requests of any one id. */
  lemma SwapAdjacent(x: Request, y: Request, rest: seq<Request>, k: int)
    requires x.id != y.id
    ensures WithId([y] + ([x] + rest), k) == WithId([x] + ([y] + rest), k)
  {
    KeepSwap(x, y, rest, (r: Request) => r.id == k);
  }

  /** Inserting `x` keeps it ahead of every request that shares its id. */
  lemma {:induction false} InsertByIdStable(x: Request, s: seq<Request>, k: int)
    requires IdsDescending(s)
    ensures WithId(InsertById(x, s), k) == WithId([x] + s, k)
  {
    if |s| > 0 && s[0].id > x.id {
      var s0, rest := s[0], s[1..];
      IdsTail(s);
      var t := InsertById(x, rest);
      assert InsertById(x, s) == [s0] + t;
      InsertByIdStable(x, rest, k);
      WithIdCons(s0, t, k);
      WithIdCons(s0, [x] + rest, k);
      SwapAdjacent(x, s0, rest, k);
      assert s == [s0] + rest;
    }
  }

  /** `list.sort(key=lambda r: r['id'], reverse=True)`: a permutation with
      ids in non-increasing order that, being stable, keeps requests sharing
      an id in their original order. */
  function SortByIdDesc(p: seq<Request>): (r: seq<Request>)
    ensures IdsDescending(r)
    ensures multiset(r) == multiset(p)
    ensures forall k :: WithId(r, k) == WithId(p, k)
  {
    if |p| == 0 then []
    else
      var t := SortByIdDesc(p[1..]);
      assert p == [p[0]] + p[1..];
      forall k ensures WithId(InsertById(p[0], t), k) == WithId(p, k) {
        InsertByIdStable(p[0], t, k);
        WithIdAppend([p[0]], t, k);
        WithIdAppend([p[0]], p[1..], k);
      }
      InsertById(p[0], t)
  }

  /** `len([r for r in p if r['status'] == s])`. */
  function CountStatus(p: seq<Request>, s: string): nat {
    |Keep(p, (x: Request) => x.status == s)|
  }

  /** The per-status counts shown on the panel and returned by `/api/stats`. */
  datatype RequestStats = RequestStats(total: nat, newCount: nat, inProgress: nat, completed: nat)

  function Stats(p: seq<Request>): (r: RequestStats)
    ensures r.total == |p|
    ensures r.newCount + r.inProgress + r.completed <= r.total
    ensures (forall i :: 0 <= i < |p| ==> ValidStatus(p[i].status)) ==>
      r.newCount + r.inProgress + r.completed == r.total
  {
    StatusCountsSum(p);
    RequestStats(|p|, CountStatus(p, StatusNew), CountStatus(p, StatusInProgress), CountStatus(p, StatusCompleted))
  }

  /** Counting a status adds up over the parts of a concatenation and
      counts one request as 1 exactly when it has the status. */
  lemma CountStatusAdditive(a: seq<Request>, b: seq<Request>, x: Request, s: string)
    ensures CountStatus(a + b, s) == CountStatus(a, s) + CountStatus(b, s)
    ensures CountStatus([x], s) == if x.status == s then 1 else 0
  {
    KeepAppend(a, b, (r: Request) => r.status == s);
  }

  /** The statistics of a list are the sums of those of its parts, and one
      request counts once, under its own status if that is one of the three;
      together these fix every count as the number of requests with that status. */
  lemma StatsAdditive(a: seq<Request>, b: seq<Request>, x: Request)
    ensures Stats(a + b) == RequestStats(
      Stats(a).total + Stats(b).total,
      Stats(a).newCount + Stats(b).newCount,
      Stats(a).inProgress + Stats(b).inProgress,
      Stats(a).completed + Stats(b).completed)
    ensures Stats([x]) == RequestStats(1,
      if x.status == StatusNew then 1 else 0,
      if x.status == StatusInProgress then 1 else 0,
      if x.status == StatusCompleted then 1 else 0)
  {
    CountStatusAdditive(a, b, x, StatusNew);
    CountStatusAdditive(a, b, x, StatusInProgress);
    CountStatusAdditive(a, b, x, StatusCompleted);
  }

  lemma CountStatusCons(p: seq<Request>, s: string)
    requires |p| > 0
    ensures CountStatus(p, s) == (if p[0].status == s then 1 else 0) + CountStatus(p[1..], s)
  {
  }

  /** The three status counts never exceed the length, and add up to it when
      every status is one of the three. */
  lemma {:induction false} StatusCountsSum(p: seq<Request>)
    ensures CountStatus(p, StatusNew) + CountStatus(p, StatusInProgress) + CountStatus(p, StatusCompleted) <= |p|
    ensures (forall i :: 0 <= i < |p| ==> ValidStatus(p[i].status)) ==>
      CountStatus(p, StatusNew) + CountStatus(p, StatusInProgress) + CountStatus(p, StatusCompleted) == |p|
  {
    if |p| > 0 {
      StatusCountsSum(p[1..]);
      CountStatusCons(p, StatusNew);
      CountStatusCons(p, StatusInProgress);
      CountStatusCons(p, StatusCompleted);
      assert forall i :: 1 <= i < |p| ==> p[1..][i - 1] == p[i];
    }
  }

  /** Counting a status gives the same number for any permutation. */
  lemma CountStatusPermutation(p: seq<Request>, q: seq<Request>, s: string)
    requires multiset(p) == multiset(q)
    ensures CountStatus(p, s) == CountStatus(q, s)
  {
    var keep := (x: Request) => x.status == s;
    var a, b := Keep(p, keep), Keep(q, keep);
    KeepContents(p, keep);
    KeepContents(q, keep);
    assert multiset(a) == multiset(b);
    calc {
      |a|;
      |multiset(a)|;
      |multiset(b)|;
      |b|;
    }
  }

  /** After filtering on a non-empty status, every listed request is counted
      under that status and under no other. */
  lemma FilteredCounts(p: seq<Request>, filter: string, other: string)
    requires filter != "" && other != filter
    ensures CountStatus(ByStatus(p, filter), filter) == |ByStatus(p, filter)|
    ensures CountStatus(ByStatus(p, filter), other) == 0
  {
    var r := ByStatus(p, filter);
    KeepSatisfies(p, (x: Request) => x.status == filter);
    KeepNone(r, (x: Request) => x.status == other);
  }

  /** What `admin_panel` renders for one month: the listed requests and their counts. */
  datatype AdminView = AdminView(requests: seq<Request>, stats: RequestStats)

  /** The filter, sort and statistics block of `admin_panel`; the counts are
      taken over the filtered list. */
  function AdminPanel(p: seq<Request>, filter: string): (v: AdminView)
    ensures IdsDescending(v.requests)
    ensures filter == "" ==> multiset(v.requests) == multiset(p)
    ensures filter != "" ==> forall x ::
      multiset(v.requests)[x] == if x.status == filter then multiset(p)[x] else 0
    ensures v.stats.total == |v.requests|
    ensures v.stats.newCount + v.stats.inProgress + v.stats.completed <= v.stats.total
    ensures forall k :: WithId(v.requests, k) == WithId(ByStatus(p, filter), k)
    ensures v.stats == Stats(ByStatus(p, filter))
  {
    var listed := SortByIdDesc(ByStatus(p, filter));
    CountStatusPermutation(listed, ByStatus(p, filter), StatusNew);
    CountStatusPermutation(listed, ByStatus(p, filter), StatusInProgress);
    CountStatusPermutation(listed, ByStatus(p, filter), StatusCompleted);
    assert |listed| == |ByStatus(p, filter)| by {
      assert |multiset(listed)| == |multiset(ByStatus(p, filter))|;
    }
    AdminView(listed, Stats(listed))
  }

  /** `admin_panel` on the month given by the query, or the current month. */
  function AdminPanelAt(store: Store, year: Option<int>, month: Option<int>, today: MonthKey,
                        filter: string): AdminView
  {
    AdminPanel(LoadMonth(store, ResolveMonth(year, month, today)), filter)
  }

  /** A client is recurring when its counter, read with default 0, exceeds 1. */
  predicate Recurring(c: Client) {
    c.requestsCount.GetOr(0) > 1
  }

  datatype ClientStats = ClientStats(total: nat, recurring: nat)

  /** The client block of `/api/stats`. */
  function ClientStatsOf(clients: seq<Client>): (r: ClientStats)
    ensures r.total == |clients|
    ensures r.recurring <= r.total
    ensures r.recurring == 0 <==> forall i :: 0 <= i < |clients| ==> !Recurring(clients[i])
    ensures r.recurring == r.total <==> forall i :: 0 <= i < |clients| ==> Recurring(clients[i])
  {
    var kept := Keep(clients, Recurring);
    KeepContents(clients, Recurring);
    assert (exists i :: 0 <= i < |clients| && Recurring(clients[i])) ==> |kept| > 0 by {
      if i :| 0 <= i < |clients| && Recurring(clients[i]) {
        assert clients[i] in kept;
      }
    }
    assert (exists i :: 0 <= i < |clients| && !Recurring(clients[i])) ==> |kept| < |clients| by {
      if i :| 0 <= i < |clients| && !Recurring(clients[i]) {
        KeepDropsSomething(clients, Recurring, i);
      }
    }
    ClientStats(|clients|, |kept|)
  }

  /** The client counts of a list are the sums of those of its parts, and one
      client counts as recurring exactly when its counter exceeds 1. */
  lemma ClientStatsAdditive(a: seq<Client>, b: seq<Client>, c: Client)
    ensures ClientStatsOf(a + b) == ClientStats(
      ClientStatsOf(a).total + ClientStatsOf(b).total,
      ClientStatsOf(a).recurring + ClientStatsOf(b).recurring)
    ensures ClientStatsOf([c]) == ClientStats(1, if Recurring(c) then 1 else 0)
  {
    KeepAppend(a, b, Recurring);
  }

  /** The whole of `/api/stats`: the current month's counts and the client counts. */
  function ApiStats(store: Store, today: MonthKey): (RequestStats, ClientStats) {
    (Stats(LoadMonth(store, today)), ClientStatsOf(store.clients))
  }
}
