/**
 * The consultation form handler: validation of the required fields, the
 * client upsert keyed by e-mail, and the new request appended to the
 * current month's partition.
 */
module Intake {
  import opened Outcomes
  import opened Text
  import opened Records

  /** The form after stripping; `urgency` is taken as sent, defaulting to "standard". */
  datatype Submission = Submission(
    name: string,
    email: string,
    phone: string,
    serviceType: string,
    companyType: string,
    message: string,
    urgency: string)

  datatype SubmitError = MissingRequiredField

  /** True when one of the required fields `name`, `email`, `phone` and
      `service_type` is missing or whitespace only. */
  predicate HasBlankRequired(form: Form) {
    || Blank(FormGet(form, "name", ""))
    || Blank(FormGet(form, "email", ""))
    || Blank(FormGet(form, "phone", ""))
    || Blank(FormGet(form, "service_type", ""))
  }

  /** A string that is non-empty and neither starts nor ends with whitespace. */
  predicate Trimmed(s: string) {
    |s| > 0 && !IsSpace(s[0]) && !IsSpace(s[|s| - 1])
  }

  /** `s` holds the form's fields as `consultation` reads them: each text
      field stripped, with "" for a missing one, and `urgency` as sent, with
      "standard" when missing. */
  predicate ReadsForm(s: Submission, form: Form) {
    && s.name == Strip(FormGet(form, "name", ""))
    && s.email == Strip(FormGet(form, "email", ""))
    && s.phone == Strip(FormGet(form, "phone", ""))
    && s.serviceType == Strip(FormGet(form, "service_type", ""))
    && s.companyType == Strip(FormGet(form, "company_type", ""))
    && s.message == Strip(FormGet(form, "message", ""))
    && s.urgency == FormGet(form, "urgency", "standard")
  }

  /** The reading and validation at the top of `consultation`. */
  function ReadSubmission(form: Form): (r: Result<Submission, SubmitError>)
    ensures r.Err? <==> HasBlankRequired(form)
    ensures r.Ok? ==> ReadsForm(r.value, form)
    ensures r.Ok? ==>
      && Trimmed(r.value.name) && Trimmed(r.value.email)
      && Trimmed(r.value.phone) && Trimmed(r.value.serviceType)
  {
    var name := Strip(FormGet(form, "name", ""));
    var email := Strip(FormGet(form, "email", ""));
    var phone := Strip(FormGet(form, "phone", ""));
    var serviceType := Strip(FormGet(form, "service_type", ""));
    StripBlank(FormGet(form, "name", ""));
    StripBlank(FormGet(form, "email", ""));
    StripBlank(FormGet(form, "phone", ""));
    StripBlank(FormGet(form, "service_type", ""));
    if name == "" || email == "" || phone == "" || serviceType == "" then
      Err(MissingRequiredField)
    else
      Ok(Submission(name, email, phone, serviceType,
                    Strip(FormGet(form, "company_type", "")),
                    Strip(FormGet(form, "message", "")),
                    FormGet(form, "urgency", "standard")))
  }

  /** The position of the first client with exactly this e-mail. */
  function FirstWithEmail(clients: seq<Client>, email: string): (r: Option<nat>)
    ensures r.Some? ==>
      && r.value < |clients| && clients[r.value].email == email
      && forall j :: 0 <= j < r.value ==> clients[j].email != email
    ensures r.None? ==> forall j :: 0 <= j < |clients| ==> clients[j].email != email
  {
    if |clients| == 0 then None
    else if clients[0].email == email then Some(0)
    else match FirstWithEmail(clients[1..], email)
      case None => None
      case Some(i) => Some(i + 1)
  }

  /** A returning client's counter, a missing counter being read as 1. */
  function Bump(c: Client): Client {
    c.(requestsCount := Some(c.requestsCount.GetOr(1) + 1))
  }

  /** The client record written for a first submission. */
  function NewClient(s: Submission, freshId: string, stamp: string): Client {
    Client(freshId, s.name, s.email, s.phone, s.companyType, stamp, Some(1))
  }

  /** The client list after an upsert, and the id the request will refer to. */
  datatype Upserted = Upserted(clients: seq<Client>, clientId: string)

  /** The client loop of `consultation`: a known e-mail bumps the first
      matching client's counter and reuses its id; an unknown one appends a
      new client under `freshId`. No other client changes. */
  function Upsert(clients: seq<Client>, s: Submission, freshId: string, stamp: string): (r: Upserted)
    ensures |r.clients| >= |clients|
  {
    if |clients| == 0 then Upserted([NewClient(s, freshId, stamp)], freshId)
    else if clients[0].email == s.email then Upserted([Bump(clients[0])] + clients[1..], clients[0].id)
    else
      var t := Upsert(clients[1..], s, freshId, stamp);
      Upserted([clients[0]] + t.clients, t.clientId)
  }

  /** What an upsert does, by the first client with the submitted e-mail:
      when there is one, only that client changes, its counter (1 when
      missing) going up by one, and its id is returned; when there is none,
      one new client with counter 1 is appended under `freshId`. */
  lemma {:induction false} UpsertSpec(clients: seq<Client>, s: Submission, freshId: string, stamp: string)
    ensures var r := Upsert(clients, s, freshId, stamp);
      && (FirstWithEmail(clients, s.email).Some? ==>
        var i := FirstWithEmail(clients, s.email).value;
        && |r.clients| == |clients|
        && r.clients[i] == clients[i].(requestsCount := Some(clients[i].requestsCount.GetOr(1) + 1))
        && r.clientId == clients[i].id
        && forall j :: 0 <= j < |clients| && j != i ==> r.clients[j] == clients[j])
      && (FirstWithEmail(clients, s.email).None? ==>
        && r.clients == clients + [Client(freshId, s.name, s.email, s.phone, s.companyType, stamp, Some(1))]
        && r.clientId == freshId)
  {
    if |clients| > 0 && clients[0].email != s.email {
      UpsertSpec(clients[1..], s, freshId, stamp);
      assert clients == [clients[0]] + clients[1..];
    }
  }

  /** No two clients share an e-mail. */
  ghost predicate EmailsUnique(clients: seq<Client>) {
    forall i, j :: 0 <= i < j < |clients| ==> clients[i].email != clients[j].email
  }

  /** No two clients share an id. */
  ghost predicate ClientIdsUnique(clients: seq<Client>) {
    forall i, j :: 0 <= i < j < |clients| ==> clients[i].id != clients[j].id
  }

  /** Upserting keeps e-mails unique, and keeps ids unique when `freshId`
      is not already taken; the returned id always names a client with the
      submitted e-mail. */
  lemma UpsertKeepsDirectory(clients: seq<Client>, s: Submission, freshId: string, stamp: string)
    ensures var r := Upsert(clients, s, freshId, stamp);
      && (EmailsUnique(clients) ==> EmailsUnique(r.clients))
      && (ClientIdsUnique(clients) && (forall c :: c in clients ==> c.id != freshId) ==> ClientIdsUnique(r.clients))
      && exists c :: c in r.clients && c.id == r.clientId && c.email == s.email
  {
    var r := Upsert(clients, s, freshId, stamp);
    UpsertSpec(clients, s, freshId, stamp);
    match FirstWithEmail(clients, s.email)
    case Some(i) =>
      assert r.clients[i] in r.clients;
    case None =>
      assert r.clients[|clients|] in r.clients;
      if ClientIdsUnique(clients) && (forall c :: c in clients ==> c.id != freshId) {
        forall i, j | 0 <= i < j < |r.clients| ensures r.clients[i].id != r.clients[j].id {
          if j == |clients| {
            assert clients[i] in clients;
          }
        }
      }
  }

  /** A client whose e-mail no earlier client has is the first match,
      whatever follows it. */
  lemma FirstWithEmailAt(a: seq<Client>, c: Client, b: seq<Client>)
    requires forall j :: 0 <= j < |a| ==> a[j].email != c.email
    ensures FirstWithEmail(a + [c] + b, c.email) == Some(|a|)
  {
    var r := FirstWithEmail(a + [c] + b, c.email);
    assert (a + [c] + b)[|a|].email == c.email;
    assert forall j :: 0 <= j < |a| ==> (a + [c] + b)[j] == a[j];
  }

  /** Upserts applied one after another, as repeated form submissions do. */
  function UpsertAll(clients: seq<Client>, subs: seq<Submission>, freshIds: seq<string>, stamp: string): seq<Client>
    requires |freshIds| == |subs|
    decreases |subs|
  {
    if |subs| == 0 then clients
    else UpsertAll(Upsert(clients, subs[0], freshIds[0], stamp).clients, subs[1..], freshIds[1..], stamp)
  }

  /** One submission with the e-mail of a client that no earlier client has
      bumps that client in place and leaves the rest to the remaining submissions. */
  lemma UpsertAllStep(a: seq<Client>, c: Client, b: seq<Client>, subs: seq<Submission>,
                      freshIds: seq<string>, stamp: string)
    requires |freshIds| == |subs| > 0
    requires forall j :: 0 <= j < |a| ==> a[j].email != c.email
    requires subs[0].email == c.email
    ensures UpsertAll(a + [c] + b, subs, freshIds, stamp)
         == UpsertAll(a + [Bump(c)] + b, subs[1..], freshIds[1..], stamp)
  {
    var before := a + [c] + b;
    var u := Upsert(before, subs[0], freshIds[0], stamp);
    FirstWithEmailAt(a, c, b);
    UpsertSpec(before, subs[0], freshIds[0], stamp);
    var after := a + [Bump(c)] + b;
    assert |u.clients| == |after|;
    forall j | 0 <= j < |after| ensures u.clients[j] == after[j] {
      if j != |a| {
        assert before[j] == after[j];
      }
    }
    assert u.clients == after;
  }

  /** Further submissions with the e-mail of a client that no earlier client
      has only add to that client's counter, wherever it sits in the list. */
  lemma {:induction false} UpsertAllExisting(a: seq<Client>, c: Client, b: seq<Client>, n: int,
                                             subs: seq<Submission>, freshIds: seq<string>, stamp: string)
    requires |freshIds| == |subs| && c.requestsCount == Some(n)
    requires forall j :: 0 <= j < |a| ==> a[j].email != c.email
    requires forall k :: 0 <= k < |subs| ==> subs[k].email == c.email
    ensures UpsertAll(a + [c] + b, subs, freshIds, stamp)
         == a + [c.(requestsCount := Some(n + |subs|))] + b
    decreases |subs|
  {
    if |subs| > 0 {
      UpsertAllStep(a, c, b, subs, freshIds, stamp);
      UpsertAllExisting(a, Bump(c), b, n + 1, subs[1..], freshIds[1..], stamp);
    }
  }

  /** The dedup invariant: `n >= 1` submissions with one e-mail that no
      client had leave exactly one new client, holding that e-mail and
      `requests_count == n`, after the untouched earlier clients. */
  lemma RepeatedSubmissionsCount(clients: seq<Client>, subs: seq<Submission>, freshIds: seq<string>, stamp: string)
    requires |freshIds| == |subs| >= 1
    requires forall j :: 0 <= j < |clients| ==> clients[j].email != subs[0].email
    requires forall k :: 0 <= k < |subs| ==> subs[k].email == subs[0].email
    ensures var r := UpsertAll(clients, subs, freshIds, stamp);
      && |r| == |clients| + 1 && r[..|clients|] == clients
      && r[|clients|].email == subs[0].email && r[|clients|].id == freshIds[0]
      && r[|clients|].requestsCount == Some(|subs|)
  {
    var c := NewClient(subs[0], freshIds[0], stamp);
    UpsertSpec(clients, subs[0], freshIds[0], stamp);
    assert Upsert(clients, subs[0], freshIds[0], stamp).clients == clients + [c];
    assert clients + [c] == clients + [c] + [];
    UpsertAllExisting(clients, c, [], 1, subs[1..], freshIds[1..], stamp);
    var r := UpsertAll(clients, subs, freshIds, stamp);
    assert r == clients + [c.(requestsCount := Some(1 + (|subs| - 1)))];
  }

  /** The request id `consultation` assigns: the partition's length plus one. */
  function NextId(p: seq<Request>): int {
    |p| + 1
  }

  /** The largest id in the partition, or 0 when there is none above 0. */
  function MaxId(p: seq<Request>): (m: int)
    ensures m >= 0
    ensures forall i :: 0 <= i < |p| ==> p[i].id <= m
    ensures m == 0 || exists i :: 0 <= i < |p| && p[i].id == m
  {
    if |p| == 0 then 0
    else
      var rest := MaxId(p[1..]);
      assert forall i :: 1 <= i < |p| ==> p[i] == p[1..][i - 1];
      if p[0].id > rest then p[0].id else rest
  }

  /** The id a partition should assign so that it never repeats one in use:
      one more than the largest id present. */
  function NextIdFixed(p: seq<Request>): (id: int)
    ensures id >= 1
    ensures forall i :: 0 <= i < |p| ==> p[i].id < id
  {
    MaxId(p) + 1
  }

  /** The request record `consultation` writes. */
  function NewRequest(id: int, clientId: string, s: Submission, stamp: string): Request {
    Request(id, clientId, s.name, s.email, s.phone, s.serviceType, s.companyType,
            s.message, s.urgency, stamp, StatusNew, "", "")
  }

  /** The form fields a request carries, read back as a submission. */
  function SubmissionOf(n: Request): Submission {
    Submission(n.name, n.email, n.phone, n.serviceType, n.companyType, n.message, n.urgency)
  }

  /** The clock readings a submission makes: the current month, then the
      stamp of a new client, then the stamp of the request. */
  datatype Clock = Clock(today: MonthKey, clientStamp: string, requestStamp: string)

  /** Saving the directory, then the month with one request appended. */
  lemma FileRequest(store: Store, clients: seq<Client>, k: MonthKey, n: Request)
    ensures var withClients := SaveClients(store, clients);
      var r := SaveMonth(withClients, k, LoadMonth(withClients, k) + [n]);
      var p := LoadMonth(store, k);
      var q := LoadMonth(r, k);
      && |q| == |p| + 1 && q[..|p|] == p && q[|p|] == n
      && r.clients == clients
      && r.partitions.Keys == store.partitions.Keys + {k}
      && forall k' :: k' != k ==> LoadMonth(r, k') == LoadMonth(store, k')
  {
    var p := LoadMonth(store, k);
    assert (p + [n])[..|p|] == p;
  }

  /** `consultation` as written, given a fresh id for a new client: the
      request is appended to the current month with the partition's length
      plus one as its id, status "новая", no assignee and no notes, the
      form's fields as read, and the id of the client the upsert found or
      created; the client list is the upsert's, and no other month changes. */
  function Submit(store: Store, form: Form, clock: Clock, freshId: string): (r: Result<Store, SubmitError>)
    ensures r.Err? <==> HasBlankRequired(form)
    ensures r.Ok? ==>
      var p := LoadMonth(store, clock.today);
      var q := LoadMonth(r.value, clock.today);
      && |q| == |p| + 1 && q[..|p|] == p
      && q[|p|].id == |p| + 1
      && q[|p|].status == StatusNew && q[|p|].assignedTo == "" && q[|p|].notes == ""
      && ReadsForm(SubmissionOf(q[|p|]), form) && q[|p|].date == clock.requestStamp
      && (var u := Upsert(store.clients, SubmissionOf(q[|p|]), freshId, clock.clientStamp);
          r.value.clients == u.clients && q[|p|].clientId == u.clientId)
      && (exists c :: c in r.value.clients && c.id == q[|p|].clientId && c.email == q[|p|].email)
      && r.value.partitions.Keys == store.partitions.Keys + {clock.today}
      && (forall k :: k != clock.today ==> LoadMonth(r.value, k) == LoadMonth(store, k))
  {
    match ReadSubmission(form)
    case Err(e) => Err(e)
    case Ok(s) =>
      var u := Upsert(store.clients, s, freshId, clock.clientStamp);
      UpsertKeepsDirectory(store.clients, s, freshId, clock.clientStamp);
      var withClients := SaveClients(store, u.clients);
      var p := LoadMonth(withClients, clock.today);
      var n := NewRequest(NextId(p), u.clientId, s, clock.requestStamp);
      FileRequest(store, u.clients, clock.today, n);
      Ok(SaveMonth(withClients, clock.today, p + [n]))
  }

  /** `consultation` with the corrected id rule: the new id exceeds every id
      already in the partition. */
  function SubmitFixed(store: Store, form: Form, clock: Clock, freshId: string): (r: Result<Store, SubmitError>)
    ensures r.Err? <==> HasBlankRequired(form)
    ensures r.Ok? ==>
      var p := LoadMonth(store, clock.today);
      var q := LoadMonth(r.value, clock.today);
      && |q| == |p| + 1 && q[..|p|] == p
      && (forall i :: 0 <= i < |p| ==> p[i].id < q[|p|].id)
      && q[|p|].status == StatusNew && q[|p|].assignedTo == "" && q[|p|].notes == ""
      && ReadsForm(SubmissionOf(q[|p|]), form) && q[|p|].date == clock.requestStamp
      && (var u := Upsert(store.clients, SubmissionOf(q[|p|]), freshId, clock.clientStamp);
          r.value.clients == u.clients && q[|p|].clientId == u.clientId)
      && (exists c :: c in r.value.clients && c.id == q[|p|].clientId && c.email == q[|p|].email)
      && r.value.partitions.Keys == store.partitions.Keys + {clock.today}
      && (forall k :: k != clock.today ==> LoadMonth(r.value, k) == LoadMonth(store, k))
  {
    match ReadSubmission(form)
    case Err(e) => Err(e)
    case Ok(s) =>
      var u := Upsert(store.clients, s, freshId, clock.clientStamp);
      UpsertKeepsDirectory(store.clients, s, freshId, clock.clientStamp);
      var withClients := SaveClients(store, u.clients);
      var p := LoadMonth(withClients, clock.today);
      var n := NewRequest(NextIdFixed(p), u.clientId, s, clock.requestStamp);
      FileRequest(store, u.clients, clock.today, n);
      Ok(SaveMonth(withClients, clock.today, p + [n]))
  }
}
