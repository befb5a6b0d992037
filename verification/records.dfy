/**
 * The records the site keeps and the storage they live in: a client list
 * (`clients.json`) and one request list per calendar month
 * (`requests_{year}_{month:02d}.json`).
 */
module Records {
  import opened Outcomes

  /** A calendar month, the key of a request partition. */
  datatype MonthKey = MonthKey(year: int, month: int)

  /** A submitter, deduplicated by exact e-mail. `requestsCount` is optional
      because a stored record may lack the key; readers supply their own default. */
  datatype Client = Client(
    id: string,
    name: string,
    email: string,
    phone: string,
    companyType: string,
    createdDate: string,
    requestsCount: Option<int>)

  /** One consultation request inside a month partition. `id` is local to the
      partition; `date` is an opaque display stamp. */
  datatype Request = Request(
    id: int,
    clientId: string,
    name: string,
    email: string,
    phone: string,
    serviceType: string,
    companyType: string,
    message: string,
    urgency: string,
    date: string,
    status: string,
    assignedTo: string,
    notes: string)

  /** The three status values the admin panel recognises. */
  const StatusNew: string := "новая"
  const StatusInProgress: string := "в_процессе"
  const StatusCompleted: string := "завершена"

  predicate ValidStatus(s: string) {
    s == StatusNew || s == StatusInProgress || s == StatusCompleted
  }

  /** The fields of a submitted HTML form. */
  type Form = map<string, string>

  /** Flask's `request.form.get(key, default)`. */
  function FormGet(form: Form, key: string, default: string): string {
    if key in form then form[key] else default
  }

  /** Everything on disk: the partitions that have a file and the client list. */
  datatype Store = Store(partitions: map<MonthKey, seq<Request>>, clients: seq<Client>)

  /** `load_requests(year, month)`: the partition, or empty when it has no file. */
  function LoadMonth(store: Store, key: MonthKey): seq<Request> {
    if key in store.partitions then store.partitions[key] else []
  }

  /** `save_requests(list, year, month)`: the partition file is overwritten
      (and created when absent); nothing else on disk changes. */
  function SaveMonth(store: Store, key: MonthKey, requests: seq<Request>): (r: Store)
    ensures LoadMonth(r, key) == requests
    ensures r.partitions.Keys == store.partitions.Keys + {key}
    ensures forall k :: k != key ==> LoadMonth(r, k) == LoadMonth(store, k)
    ensures r.clients == store.clients
  {
    store.(partitions := store.partitions[key := requests])
  }

  /** `save_clients(clients)`: the client file is overwritten; partitions are untouched. */
  function SaveClients(store: Store, clients: seq<Client>): (r: Store)
    ensures r.clients == clients
    ensures r.partitions == store.partitions
  {
    store.(clients := clients)
  }

  /** The month an admin handler works on: the query's `year` and `month`
      when both are given, otherwise the current month. */
  function ResolveMonth(year: Option<int>, month: Option<int>, today: MonthKey): (k: MonthKey)
    ensures year.Some? && month.Some? ==> k == MonthKey(year.value, month.value)
    ensures year.None? || month.None? ==> k == today
  {
    if year.None? || month.None? then today else MonthKey(year.value, month.value)
  }
}
