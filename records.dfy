/**
 * The Application record and how one fetched Gmail message becomes one: headers, decoded body,
 * status, company and the applied date.
 */
module Records {
  import opened Wrappers
  import opened Text
  import opened Body
  import opened Status
  import opened Company

  /**
   * One tracked application. `appliedDate` is the day named by the `YYYY-MM-DD` string the source
   * stores, as a day number, so that `new Date(a) > new Date(b)` on two such strings is `a > b`.
   */
  datatype Application = Application(id: string, company: string, title: string, appliedDate: int, status: Status)

  /** `app.company.toLowerCase()`: the key of `latestApps`, without any trimming. */
  function CompanyKey(app: Application): string
  {
    ToLower(app.company)
  }

  datatype Header = Header(name: string, value: string)

  /**
   * What `users.messages.get` returns that the pipeline reads: the payload tree, and the headers that
   * the payload carries when there is one.
   */
  datatype FullMessage = FullMessage(headers: seq<Header>, payload: Option<Node>)

  /** `full.data.payload?.headers || []`. */
  function Headers(full: FullMessage): (r: seq<Header>)
    ensures full.payload.None? ==> r == []
  {
    if full.payload.Some? then full.headers else []
  }

  /** Why a run stops before saving: the listing call, a message fetch, or `toISOString` threw. */
  datatype RunError = ListFailed | FetchFailed(id: string) | InvalidDate(id: string)

  /** `headers.find(h => h.name === name)?.value || ''`: the value of the first header so named. */
  function HeaderValue(headers: seq<Header>, name: string): (r: string)
    ensures (forall i :: 0 <= i < |headers| ==> headers[i].name != name) ==> r == ""
    ensures forall i ::
      (0 <= i < |headers| && headers[i].name == name && forall j :: 0 <= j < i ==> headers[j].name != name)
      ==> r == headers[i].value
  {
    if headers == [] then ""
    else if headers[0].name == name then headers[0].value
    else
      assert forall i :: 1 <= i < |headers| ==> headers[i] == headers[1..][i - 1];
      HeaderValue(headers[1..], name)
  }

  /**
   * The day of `new Date(text).toISOString().split('T')[0]`. Parsing the RFC 5322 date-time is the
   * parameter `parseDate`; `None` is an Invalid Date, on which `toISOString` throws a RangeError.
   * A missing header leaves `text == ""`, and `new Date('')` is always an Invalid Date.
   */
  function AppliedDay(parseDate: string -> Option<int>, text: string): (r: Option<int>)
    ensures text == "" ==> r.None?
    ensures text != "" ==> r == parseDate(text)
  {
    if text == "" then None else parseDate(text)
  }

  /** The loop body for a message that was fetched: headers, body, status, company and date, as one record. */
  function BuildRecord(id: string, full: FullMessage, decode: string -> Option<string>,
                       parseDate: string -> Option<int>): (r: Result<Application, RunError>)
    ensures r.Failure? <==> AppliedDay(parseDate, HeaderValue(Headers(full), "Date")).None?
    ensures r.Failure? ==> r.error == InvalidDate(id)
    ensures r.Success? ==> r.value.id == id && r.value.title == HeaderValue(Headers(full), "Subject")
    ensures r.Success? ==>
      var subject, body := HeaderValue(Headers(full), "Subject"), GetBody(decode, full.payload);
      && r.value.company == CompanyName(subject, body)
      && r.value.status == Classify(subject, body)
      && AppliedDay(parseDate, HeaderValue(Headers(full), "Date")) == Some(r.value.appliedDate)
  {
    var subject := HeaderValue(Headers(full), "Subject");
    var date := HeaderValue(Headers(full), "Date");
    var body := GetBody(decode, full.payload);
    var status := Classify(subject, body);
    var company := CompanyName(subject, body);
    match AppliedDay(parseDate, date)
    case None => Failure(InvalidDate(id))
    case Some(day) => Success(Application(id, company, subject, day, status))
  }
}
