/**
 * One run of `fetchNewApplications`, and the module state it shares with `loadApplications` and
 * `saveApplications`: the set of processed message ids and the saved list.
 */
module Tracker {
  import opened Wrappers
  import opened Text
  import opened Body
  import opened Status
  import opened Company
  import opened Records
  import opened Merging

  /**
   * An entry of the listing: its id (`""` when the listing gives none) and what `users.messages.get`
   * returns for it (`None` when that call throws).
   */
  datatype ListedMessage = ListedMessage(id: string, fetched: Option<FullMessage>)

  /** A message the loop passes over: it has no id, or its id was already processed. */
  predicate Skipped(processed: set<string>, m: ListedMessage)
  {
    m.id == "" || m.id in processed
  }

  /** The ids of the records in a list. */
  function Ids(apps: seq<Application>): set<string>
  {
    set a | a in apps :: a.id
  }

  /** What `loadApplications` returns: `[]` for a file that is missing, blank or not valid JSON. */
  function Loaded(file: Option<seq<Application>>): seq<Application>
  {
    if file.Some? then file.value else []
  }

  /** One message of the loop: passed over, a record, or the error that ends the run. */
  function Step(processed: set<string>, m: ListedMessage, decode: string -> Option<string>,
                parseDate: string -> Option<int>): (r: Result<Option<Application>, RunError>)
    ensures r == Success(None) <==> Skipped(processed, m)
    ensures r.Failure? <==>
      !Skipped(processed, m) && (m.fetched.None? ||
        AppliedDay(parseDate, HeaderValue(Headers(m.fetched.value), "Date")).None?)
    ensures r.Success? && r.value.Some? ==> r.value.value.id == m.id
  {
    if Skipped(processed, m) then Success(None)
    else if m.fetched.None? then Failure(FetchFailed(m.id))
    else
      match BuildRecord(m.id, m.fetched.value, decode, parseDate)
      case Failure(e) => Failure(e)
      case Success(app) => Success(Some(app))
  }

  /** The records the loop builds from `listing`, in order, or the first error it meets. */
  function Batch(processed: set<string>, listing: seq<ListedMessage>, decode: string -> Option<string>,
                 parseDate: string -> Option<int>): Result<seq<Application>, RunError>
  {
    if listing == [] then Success([])
    else
      match Batch(processed, listing[..|listing| - 1], decode, parseDate)
      case Failure(e) => Failure(e)
      case Success(batch) =>
        match Step(processed, listing[|listing| - 1], decode, parseDate)
        case Failure(e) => Failure(e)
        case Success(None) => Success(batch)
        case Success(Some(app)) => Success(batch + [app])
  }

  /** The ids the loop does not pass over, in listing order. */
  function Pending(processed: set<string>, listing: seq<ListedMessage>): (r: seq<string>)
    ensures forall x :: x in r <==> exists m :: m in listing && !Skipped(processed, m) && m.id == x
  {
    if listing == [] then []
    else
      var last := listing[|listing| - 1];
      assert forall m :: m in listing <==> m in listing[..|listing| - 1] || m == last;
      Pending(processed, listing[..|listing| - 1]) + (if Skipped(processed, last) then [] else [last.id])
  }

  /** The messages the run needs: every message not passed over was fetched and has a valid date. */
  predicate AllUsable(processed: set<string>, listing: seq<ListedMessage>, parseDate: string -> Option<int>)
  {
    forall i :: 0 <= i < |listing| && !Skipped(processed, listing[i]) ==>
      listing[i].fetched.Some? &&
      AppliedDay(parseDate, HeaderValue(Headers(listing[i].fetched.value), "Date")).Some?
  }

  /** A batch that failed on a prefix of the listing fails with the same error on the whole of it. */
  lemma {:induction false} FailureIsFinal(processed: set<string>, listing: seq<ListedMessage>, n: nat,
                                          decode: string -> Option<string>, parseDate: string -> Option<int>)
    requires n <= |listing|
    requires Batch(processed, listing[..n], decode, parseDate).Failure?
    ensures Batch(processed, listing, decode, parseDate) == Batch(processed, listing[..n], decode, parseDate)
    decreases |listing| - n
  {
    if n < |listing| {
      assert listing[..n + 1][..n] == listing[..n];
      FailureIsFinal(processed, listing, n + 1, decode, parseDate);
    } else {
      assert listing[..n] == listing;
    }
  }

  /** Usability of a listing is usability of all but its last message, and of that one. */
  lemma AllUsableSnoc(processed: set<string>, listing: seq<ListedMessage>, parseDate: string -> Option<int>)
    requires listing != []
    ensures var prefix, last := listing[..|listing| - 1], listing[|listing| - 1];
      AllUsable(processed, listing, parseDate) <==>
        && AllUsable(processed, prefix, parseDate)
        && (Skipped(processed, last) || (last.fetched.Some? &&
              AppliedDay(parseDate, HeaderValue(Headers(last.fetched.value), "Date")).Some?))
  {
    var prefix := listing[..|listing| - 1];
    assert forall i :: 0 <= i < |prefix| ==> prefix[i] == listing[i];
  }

  /**
   * The run gets past the loop exactly when every message it does not pass over was fetched and
   * carries a date that parses.
   */
  lemma {:induction false} BatchSucceedsIff(processed: set<string>, listing: seq<ListedMessage>,
                                            decode: string -> Option<string>, parseDate: string -> Option<int>)
    ensures Batch(processed, listing, decode, parseDate).Success? <==> AllUsable(processed, listing, parseDate)
  {
    if listing != [] {
      BatchSucceedsIff(processed, listing[..|listing| - 1], decode, parseDate);
      AllUsableSnoc(processed, listing, parseDate);
    }
  }

  /** A batch holds one record per message the loop does not pass over, in listing order. */
  lemma {:induction false} BatchFollowsPending(processed: set<string>, listing: seq<ListedMessage>,
                                               decode: string -> Option<string>, parseDate: string -> Option<int>)
    requires Batch(processed, listing, decode, parseDate).Success?
    ensures var batch := Batch(processed, listing, decode, parseDate).value;
      && |batch| == |Pending(processed, listing)|
      && (forall i :: 0 <= i < |batch| ==> batch[i].id == Pending(processed, listing)[i])
  {
    if listing != [] {
      BatchFollowsPending(processed, listing[..|listing| - 1], decode, parseDate);
    }
  }

  /** Every record of a batch comes from a listed message that was not processed before. */
  lemma BatchRecordsAreNew(processed: set<string>, listing: seq<ListedMessage>,
                           decode: string -> Option<string>, parseDate: string -> Option<int>)
    requires Batch(processed, listing, decode, parseDate).Success?
    ensures forall a :: a in Batch(processed, listing, decode, parseDate).value ==>
      a.id != "" && a.id !in processed && exists m :: m in listing && m.id == a.id
  {
    var batch := Batch(processed, listing, decode, parseDate).value;
    BatchFollowsPending(processed, listing, decode, parseDate);
    forall a | a in batch ensures a.id != "" && a.id !in processed && exists m :: m in listing && m.id == a.id {
      var i :| 0 <= i < |batch| && batch[i] == a;
      assert a.id in Pending(processed, listing);
    }
  }

  /**
   * When every listed message was already processed, the run returns `[]` and saves the list it
   * loaded, less its records under inherited keys; a list without such records is saved unchanged.
   */
  lemma {:induction false} NothingNewKeepsStore(processed: set<string>, listing: seq<ListedMessage>, existing: seq<Application>,
                                                decode: string -> Option<string>, parseDate: string -> Option<int>)
    requires forall i :: 0 <= i < |listing| ==> Skipped(processed, listing[i])
    ensures Batch(processed, listing, decode, parseDate) == Success([])
    ensures MergeAsWritten(existing, ReduceAsWritten([])) == Unreplaced(existing, InheritedKeys)
    ensures Values(ReduceAsWritten([])) == []
    ensures (forall a :: a in existing ==> CompanyKey(a) !in InheritedKeys) ==>
      MergeAsWritten(existing, ReduceAsWritten([])) == existing
  {
    if listing != [] {
      var prefix := listing[..|listing| - 1];
      assert forall i :: 0 <= i < |prefix| ==> prefix[i] == listing[i];
      NothingNewKeepsStore(processed, prefix, existing, decode, parseDate);
    } else {
      MergeAsWrittenDropsInherited(existing, Empty);
      EmptyBatchKeepsStore(Unreplaced(existing, InheritedKeys));
      if forall a :: a in existing ==> CompanyKey(a) !in InheritedKeys {
        UnreplacedNothing(existing, InheritedKeys);
      }
    }
  }

  /** One more message of the listing: the batch so far, extended by what that message yields. */
  lemma BatchStep(processed: set<string>, listing: seq<ListedMessage>, i: nat, built: seq<Application>,
                  decode: string -> Option<string>, parseDate: string -> Option<int>)
    requires i < |listing| && Batch(processed, listing[..i], decode, parseDate) == Success(built)
    ensures Batch(processed, listing[..i + 1], decode, parseDate) ==
      match Step(processed, listing[i], decode, parseDate)
      case Failure(e) => Failure(e)
      case Success(None) => Success(built)
      case Success(Some(app)) => Success(built + [app])
  {
    assert listing[..i + 1][..i] == listing[..i];
  }

  /** The loop body for a fetched message: headers, body, status, company and date of the record. */
  method BuildApplication(id: string, full: FullMessage, decode: string -> Option<string>,
                          parseDate: string -> Option<int>)
    returns (r: Result<Application, RunError>)
    ensures r == BuildRecord(id, full, decode, parseDate)
  {
    var headers := Headers(full);
    var subject := HeaderValue(headers, "Subject");
    var date := HeaderValue(headers, "Date");
    var body := GetBody(decode, full.payload);
    var status := Classify(subject, body);
    var company := ExtractCompanyName(subject, body);
    var day := AppliedDay(parseDate, date);
    if day.None? {
      return Failure(InvalidDate(id));
    }
    return Success(Application(id, company, subject, day.value, status));
  }

  /**
   * The loop over the listing: `latestApps` (with its keys in insertion order) once every message was
   * handled, or the error of the first message that could not be fetched or dated.
   */
  method CollectLatest(processed: set<string>, messages: seq<ListedMessage>, decode: string -> Option<string>,
                       parseDate: string -> Option<int>)
    returns (r: Result<Latest, RunError>)
    ensures var batch := Batch(processed, messages, decode, parseDate);
      && (r.Failure? <==> batch.Failure?)
      && (r.Failure? ==> r.error == batch.error)
      && (r.Success? ==> r.value == ReduceAsWritten(batch.value))
  {
    var latestApps: map<string, Application> := map[];
    var order: seq<string> := [];
    ghost var built: seq<Application> := [];
    var i := 0;
    while i < |messages|
      invariant 0 <= i <= |messages|
      invariant Batch(processed, messages[..i], decode, parseDate) == Success(built)
      invariant Latest(latestApps, order) == ReduceAsWritten(built)
    {
      var msg := messages[i];
      BatchStep(processed, messages, i, built, decode, parseDate);
      if Skipped(processed, msg) {
        i := i + 1;
        continue;
      }
      if msg.fetched.None? {
        FailureIsFinal(processed, messages, i + 1, decode, parseDate);
        return Failure(FetchFailed(msg.id));
      }
      var record := BuildApplication(msg.id, msg.fetched.value, decode, parseDate);
      if record.Failure? {
        FailureIsFinal(processed, messages, i + 1, decode, parseDate);
        return Failure(record.error);
      }
      var app := record.value;
      var companyKey := ToLower(app.company);
      // An inherited key finds a truthy `Object.prototype` member without an `appliedDate`, so
      // neither test holds for it and the record is not stored.
      var inherited := companyKey in InheritedKeys;
      if !inherited && (companyKey !in latestApps || app.appliedDate > latestApps[companyKey].appliedDate) {
        if companyKey !in latestApps {
          order := order + [companyKey];
        }
        latestApps := latestApps[companyKey := app];
      }
      ReduceAsWrittenSnoc(built, app);
      built := built + [app];
      i := i + 1;
    }
    assert messages[..i] == messages;
    return Success(Latest(latestApps, order));
  }

  /**
   * The state the source keeps at module level: `processedIds`, and the contents of
   * `applications.json` (`None` when the file is missing, blank or not a JSON list).
   */
  class Tracker {
    var processedIds: set<string>
    var file: Option<seq<Application>>

    constructor(file: Option<seq<Application>>)
      ensures this.file == file && processedIds == {}
    {
      this.file := file;
      processedIds := {};
    }

    /** Reads the list; only a list that was read replaces the processed ids, which otherwise stay. */
    method LoadApplications() returns (apps: seq<Application>)
      modifies this
      ensures apps == Loaded(file) && file == old(file)
      ensures processedIds == if file.Some? then Ids(file.value) else old(processedIds)
    {
      if file.None? {
        return [];
      }
      apps := file.value;
      processedIds := Ids(apps);
    }

    /** Writes the list; the processed ids are left as they are. */
    method SaveApplications(apps: seq<Application>)
      modifies this
      ensures file == Some(apps) && processedIds == old(processedIds)
    {
      file := Some(apps);
    }

    /**
     * One run over the listing (`None` when the listing call throws). It stops at the first failure and
     * then saves nothing; otherwise it saves once, the loaded list merged with the batch, and returns
     * the batch's records, one per company key.
     */
    method FetchNewApplications(listing: Option<seq<ListedMessage>>, decode: string -> Option<string>,
                                parseDate: string -> Option<int>)
      returns (r: Result<seq<Application>, RunError>)
      modifies this
      ensures processedIds == if old(file).Some? then Ids(old(file).value) else old(processedIds)
      ensures listing.None? ==> r == Failure(ListFailed) && file == old(file)
      ensures listing.Some? ==>
        match Batch(processedIds, listing.value, decode, parseDate)
        case Failure(e) => r == Failure(e) && file == old(file)
        case Success(batch) =>
          && r == Success(Values(ReduceAsWritten(batch)))
          && file == Some(MergeAsWritten(Loaded(old(file)), ReduceAsWritten(batch)))
    {
      var existing := LoadApplications();
      if listing.None? {
        return Failure(ListFailed);
      }
      var latestApps := CollectLatest(processedIds, listing.value, decode, parseDate);
      if latestApps.Failure? {
        return Failure(latestApps.error);
      }
      // The lookup in the filter is truthy for the stored keys and for the inherited ones.
      var existingFiltered := Unreplaced(existing, latestApps.value.byKey.Keys + InheritedKeys);
      var updated := existingFiltered + Values(latestApps.value);
      SaveApplications(updated);
      return Success(Values(latestApps.value));
    }
  }
}
