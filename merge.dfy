/**
 * The per-run reduction `latestApps` (one record per lower-cased company name) and the merge of
 * that batch into the stored list.
 */
module Merging {
  import opened Records

  /**
   * The object `latestApps`: a record per key, and the keys in the order they were first set, which
   * is the order in which `Object.values` lists them.
   */
  datatype Latest = Latest(byKey: map<string, Application>, keys: seq<string>)

  const Empty: Latest := Latest(map[], [])

  /** Every listed key has a record: what `Object.values` needs. */
  predicate Listed(t: Latest)
  {
    forall k :: k in t.keys ==> k in t.byKey
  }

  /** One record per key: each key listed once, exactly the map's keys, each record under its own key. */
  ghost predicate WellFormed(t: Latest)
  {
    && (forall i, j :: 0 <= i < j < |t.keys| ==> t.keys[i] != t.keys[j])
    && (forall k :: k in t.byKey <==> k in t.keys)
    && (forall k :: k in t.byKey ==> CompanyKey(t.byKey[k]) == k)
  }

  /**
   * The update of `latestApps` with `app`: it is kept when no record with its key is kept yet, or when
   * its date is strictly later than the kept one's.
   */
  function Keep(t: Latest, app: Application): (r: Latest)
    ensures Listed(t) ==> Listed(r)
  {
    var key := CompanyKey(app);
    if key !in t.byKey then Latest(t.byKey[key := app], t.keys + [key])
    else if app.appliedDate > t.byKey[key].appliedDate then Latest(t.byKey[key := app], t.keys)
    else t
  }

  /** `latestApps` once the loop has handled every record of `batch`, in order. */
  function Reduce(batch: seq<Application>): (r: Latest)
    ensures Listed(r)
  {
    if batch == [] then Empty else Keep(Reduce(batch[..|batch| - 1]), batch[|batch| - 1])
  }

  /** Handling one more record is one more `Keep`. */
  lemma ReduceSnoc(batch: seq<Application>, app: Application)
    ensures Reduce(batch + [app]) == Keep(Reduce(batch), app)
  {
    assert (batch + [app])[..|batch|] == batch;
  }

  /** The keys of the records in a list. */
  function KeysOf(apps: seq<Application>): set<string>
  {
    set a | a in apps :: CompanyKey(a)
  }

  /** `Object.values(latestApps)`. */
  function Values(t: Latest): seq<Application>
    requires Listed(t)
  {
    seq(|t.keys|, i requires 0 <= i < |t.keys| => t.byKey[t.keys[i]])
  }

  /** `existing.filter(app => !latestApps[app.company.toLowerCase()])`, with `replaced` the object's keys. */
  function Unreplaced(existing: seq<Application>, replaced: set<string>): (r: seq<Application>)
    ensures forall a :: a in r <==> a in existing && CompanyKey(a) !in replaced
  {
    if existing == [] then []
    else
      var rest := Unreplaced(existing[1..], replaced);
      assert forall a :: a in existing <==> a == existing[0] || a in existing[1..];
      (if CompanyKey(existing[0]) in replaced then [] else [existing[0]]) + rest
  }

  /** `[...existingFiltered, ...Object.values(latestApps)]`: the list the run saves. */
  function Merge(existing: seq<Application>, t: Latest): seq<Application>
    requires Listed(t)
  {
    Unreplaced(existing, t.byKey.Keys) + Values(t)
  }

  /** No two records of the list share a key. */
  ghost predicate UniqueKeys(apps: seq<Application>)
  {
    forall i, j :: 0 <= i < j < |apps| ==> CompanyKey(apps[i]) != CompanyKey(apps[j])
  }

  /**
   * Record `i` of the batch is the one the reduction keeps for its key: every earlier record with
   * that key is strictly older, and no later one is newer.
   */
  ghost predicate Wins(batch: seq<Application>, i: int)
    requires 0 <= i < |batch|
  {
    forall j :: 0 <= j < |batch| && CompanyKey(batch[j]) == CompanyKey(batch[i]) ==>
      (j < i ==> batch[j].appliedDate < batch[i].appliedDate) && (i < j ==> batch[j].appliedDate <= batch[i].appliedDate)
  }

  // ---------------------------------------------------------------------------------------------
  // The reduction

  lemma KeysOfSnoc(apps: seq<Application>, app: Application)
    ensures KeysOf(apps + [app]) == KeysOf(apps) + {CompanyKey(app)}
  {
    assert forall a :: a in apps + [app] <==> a in apps || a == app;
  }

  /** One turn of the loop keeps one record per key, and adds the new record's key. */
  lemma KeepWellFormed(t: Latest, app: Application)
    requires WellFormed(t)
    ensures WellFormed(Keep(t, app))
    ensures Keep(t, app).byKey.Keys == t.byKey.Keys + {CompanyKey(app)}
  {
    var key := CompanyKey(app);
    if key !in t.byKey {
      var u := Keep(t, app);
      assert u.keys == t.keys + [key];
      assert forall i :: 0 <= i < |t.keys| ==> t.keys[i] in t.byKey;
    }
  }

  /** After the loop, `latestApps` holds exactly one record for each key that occurs in the batch. */
  lemma {:induction false} ReduceWellFormed(batch: seq<Application>)
    ensures WellFormed(Reduce(batch))
    ensures Reduce(batch).byKey.Keys == KeysOf(batch)
  {
    if batch != [] {
      var n := |batch| - 1;
      var prefix, app := batch[..n], batch[n];
      ReduceWellFormed(prefix);
      KeepWellFormed(Reduce(prefix), app);
      assert batch == prefix + [app];
      KeysOfSnoc(prefix, app);
    }
  }

  /** Every key of `t` holds a record of `batch` that wins for its key. */
  ghost predicate KeepsWinners(batch: seq<Application>, t: Latest)
  {
    forall k :: k in t.byKey ==> exists i :: 0 <= i < |batch| && batch[i] == t.byKey[k] && Wins(batch, i)
  }

  /** A winner stays a winner when a record that is not newer, or has another key, is appended. */
  lemma WinsSnoc(prefix: seq<Application>, app: Application, i: nat)
    requires i < |prefix| && Wins(prefix, i)
    requires CompanyKey(app) == CompanyKey(prefix[i]) ==> app.appliedDate <= prefix[i].appliedDate
    ensures Wins(prefix + [app], i)
  {
    var batch := prefix + [app];
    assert forall j :: 0 <= j < |prefix| ==> batch[j] == prefix[j];
  }

  /** An appended record wins when every earlier record with its key is strictly older. */
  lemma WinsLast(prefix: seq<Application>, app: Application)
    requires forall j :: 0 <= j < |prefix| && CompanyKey(prefix[j]) == CompanyKey(app) ==> prefix[j].appliedDate < app.appliedDate
    ensures Wins(prefix + [app], |prefix|)
  {
    var batch := prefix + [app];
    assert forall j :: 0 <= j < |prefix| ==> batch[j] == prefix[j];
  }

  /** An appended record that is newer than the winner for its key wins. */
  lemma BeatsWinner(prefix: seq<Application>, app: Application, w: nat)
    requires w < |prefix| && Wins(prefix, w)
    requires CompanyKey(app) == CompanyKey(prefix[w]) && app.appliedDate > prefix[w].appliedDate
    ensures Wins(prefix + [app], |prefix|)
  {
    forall j | 0 <= j < |prefix| && CompanyKey(prefix[j]) == CompanyKey(app)
      ensures prefix[j].appliedDate < app.appliedDate
    {
      assert prefix[j].appliedDate <= prefix[w].appliedDate;
    }
    WinsLast(prefix, app);
  }

  /** An appended record with a key not seen before wins. */
  lemma NewKeyWins(prefix: seq<Application>, app: Application)
    requires CompanyKey(app) !in KeysOf(prefix)
    ensures Wins(prefix + [app], |prefix|)
  {
    forall j | 0 <= j < |prefix| ensures CompanyKey(prefix[j]) != CompanyKey(app) {
      assert prefix[j] in prefix;
    }
    WinsLast(prefix, app);
  }

  /** After one turn of the loop, the record under key `k` wins for `k`. */
  lemma KeyKeepsWinner(prefix: seq<Application>, app: Application, k: string)
    requires WellFormed(Reduce(prefix)) && Reduce(prefix).byKey.Keys == KeysOf(prefix)
    requires KeepsWinners(prefix, Reduce(prefix))
    requires k in Keep(Reduce(prefix), app).byKey
    ensures var batch, after := prefix + [app], Keep(Reduce(prefix), app);
      exists i :: 0 <= i < |batch| && batch[i] == after.byKey[k] && Wins(batch, i)
  {
    var batch, before, after := prefix + [app], Reduce(prefix), Keep(Reduce(prefix), app);
    var n, key := |prefix|, CompanyKey(app);
    assert batch[n] == app;
    if k in before.byKey {
      var w :| 0 <= w < n && prefix[w] == before.byKey[k] && Wins(prefix, w);
      assert batch[w] == prefix[w] && CompanyKey(prefix[w]) == k;
      if k == key && app.appliedDate > before.byKey[k].appliedDate {
        BeatsWinner(prefix, app, w);
      } else {
        WinsSnoc(prefix, app, w);
      }
    } else {
      NewKeyWins(prefix, app);
    }
  }

  /** One turn of the loop keeps only winners. */
  lemma KeepKeepsWinners(prefix: seq<Application>, app: Application)
    requires WellFormed(Reduce(prefix)) && Reduce(prefix).byKey.Keys == KeysOf(prefix)
    requires KeepsWinners(prefix, Reduce(prefix))
    ensures KeepsWinners(prefix + [app], Keep(Reduce(prefix), app))
  {
    forall k | k in Keep(Reduce(prefix), app).byKey
      ensures exists i :: 0 <= i < |prefix + [app]| && (prefix + [app])[i] == Keep(Reduce(prefix), app).byKey[k]
                          && Wins(prefix + [app], i)
    {
      KeyKeepsWinner(prefix, app, k);
    }
  }

  /**
   * The record kept for each key is the batch's latest record with that key, and on equal dates the
   * first one encountered.
   */
  lemma {:induction false} ReduceKeepsFirstLatest(batch: seq<Application>)
    ensures KeepsWinners(batch, Reduce(batch))
  {
    if batch != [] {
      var n := |batch| - 1;
      var prefix, app := batch[..n], batch[n];
      assert batch == prefix + [app];
      ReduceKeepsFirstLatest(prefix);
      ReduceWellFormed(prefix);
      KeepKeepsWinners(prefix, app);
    }
  }

  /** The index of the first record of `batch` with key `k`. */
  ghost function FirstIndex(batch: seq<Application>, k: string): (p: nat)
    requires k in KeysOf(batch)
    ensures p < |batch| && CompanyKey(batch[p]) == k
    ensures forall q :: 0 <= q < p ==> CompanyKey(batch[q]) != k
  {
    if CompanyKey(batch[0]) == k then 0
    else
      assert forall a :: a in batch && a != batch[0] ==> a in batch[1..];
      assert forall q :: 1 <= q < |batch| ==> batch[q] == batch[1..][q - 1];
      1 + FirstIndex(batch[1..], k)
  }

  /** Appending a record does not move the first occurrence of a key already present. */
  lemma FirstIndexSnoc(prefix: seq<Application>, app: Application, k: string)
    requires k in KeysOf(prefix)
    ensures k in KeysOf(prefix + [app]) && FirstIndex(prefix + [app], k) == FirstIndex(prefix, k)
  {
    var batch := prefix + [app];
    KeysOfSnoc(prefix, app);
    var p := FirstIndex(prefix, k);
    assert batch[p] == prefix[p];
    assert forall q :: 0 <= q < |prefix| ==> batch[q] == prefix[q];
  }

  /** The key of an appended record whose key is new first occurs at the end. */
  lemma FirstIndexOfNewKey(prefix: seq<Application>, app: Application)
    requires CompanyKey(app) !in KeysOf(prefix)
    ensures CompanyKey(app) in KeysOf(prefix + [app]) && FirstIndex(prefix + [app], CompanyKey(app)) == |prefix|
  {
    var batch := prefix + [app];
    KeysOfSnoc(prefix, app);
    assert forall q :: 0 <= q < |prefix| ==> batch[q] == prefix[q] && CompanyKey(prefix[q]) in KeysOf(prefix);
  }

  /** Keys listed in order of first occurrence in `batch`. */
  ghost predicate InFirstOccurrenceOrder(batch: seq<Application>, keys: seq<string>)
  {
    && (forall k :: k in keys ==> k in KeysOf(batch))
    && (forall i, j :: 0 <= i < j < |keys| ==> FirstIndex(batch, keys[i]) < FirstIndex(batch, keys[j]))
  }

  /** First occurrences in the prefix are first occurrences in the longer batch. */
  lemma OrderSnoc(prefix: seq<Application>, app: Application, keys: seq<string>)
    requires InFirstOccurrenceOrder(prefix, keys)
    ensures InFirstOccurrenceOrder(prefix + [app], keys)
  {
    forall k | k in keys ensures k in KeysOf(prefix + [app]) && FirstIndex(prefix + [app], k) == FirstIndex(prefix, k) {
      FirstIndexSnoc(prefix, app, k);
    }
  }

  /** A key first seen in the last record goes to the end of the order. */
  lemma OrderAppendNewKey(prefix: seq<Application>, app: Application, keys: seq<string>)
    requires InFirstOccurrenceOrder(prefix, keys) && CompanyKey(app) !in KeysOf(prefix)
    ensures InFirstOccurrenceOrder(prefix + [app], keys + [CompanyKey(app)])
  {
    var batch, longer := prefix + [app], keys + [CompanyKey(app)];
    OrderSnoc(prefix, app, keys);
    FirstIndexOfNewKey(prefix, app);
    forall i, j | 0 <= i < j < |longer|
      ensures FirstIndex(batch, longer[i]) < FirstIndex(batch, longer[j])
    {
      assert longer[i] == keys[i];
      if j == |keys| {
        FirstIndexSnoc(prefix, app, keys[i]);
      } else {
        assert longer[j] == keys[j];
      }
    }
  }

  lemma KeepKeyOrder(prefix: seq<Application>, app: Application)
    requires WellFormed(Reduce(prefix)) && Reduce(prefix).byKey.Keys == KeysOf(prefix)
    requires InFirstOccurrenceOrder(prefix, Reduce(prefix).keys)
    ensures InFirstOccurrenceOrder(prefix + [app], Keep(Reduce(prefix), app).keys)
  {
    var before := Reduce(prefix);
    if CompanyKey(app) in before.byKey {
      OrderSnoc(prefix, app, before.keys);
    } else {
      OrderAppendNewKey(prefix, app, before.keys);
    }
  }

  /** Record order: the keys are listed in the order in which they first occur in the batch. */
  lemma {:induction false} ReduceKeyOrder(batch: seq<Application>)
    ensures InFirstOccurrenceOrder(batch, Reduce(batch).keys)
  {
    if batch != [] {
      var n := |batch| - 1;
      var prefix, app := batch[..n], batch[n];
      assert batch == prefix + [app];
      ReduceKeyOrder(prefix);
      ReduceWellFormed(prefix);
      KeepKeyOrder(prefix, app);
    }
  }

  // ---------------------------------------------------------------------------------------------
  // The merge

  /** The filter keeps the relative order of the records it keeps. */
  lemma {:induction false} UnreplacedAppend(a: seq<Application>, b: seq<Application>, replaced: set<string>)
    ensures Unreplaced(a + b, replaced) == Unreplaced(a, replaced) + Unreplaced(b, replaced)
  {
    if a == [] {
      assert a + b == b;
    } else {
      assert (a + b)[1..] == a[1..] + b;
      UnreplacedAppend(a[1..], b, replaced);
    }
  }

  /** Filtering a list whose keys are unique leaves them unique. */
  lemma {:induction false} UnreplacedUniqueKeys(existing: seq<Application>, replaced: set<string>)
    requires UniqueKeys(existing)
    ensures UniqueKeys(Unreplaced(existing, replaced))
  {
    if existing != [] {
      var rest := existing[1..];
      assert UniqueKeys(rest) by {
        assert forall i :: 0 <= i < |rest| ==> rest[i] == existing[i + 1];
      }
      UnreplacedUniqueKeys(rest, replaced);
      forall a | a in Unreplaced(rest, replaced) ensures CompanyKey(a) != CompanyKey(existing[0]) {
        var i :| 0 <= i < |rest| && rest[i] == a;
        assert existing[i + 1] == a;
      }
    }
  }

  /** The batch's records have unique keys. */
  lemma ValuesUniqueKeys(t: Latest)
    requires WellFormed(t)
    ensures UniqueKeys(Values(t))
    ensures forall a :: a in Values(t) ==> CompanyKey(a) in t.byKey
  {
  }

  /**
   * After the merge, keys are unique provided they were unique in the stored list; every stored record
   * whose key occurs in the batch is gone, whatever its date; every other stored record stays.
   */
  lemma MergeProperties(existing: seq<Application>, batch: seq<Application>)
    ensures WellFormed(Reduce(batch))
    ensures var merged := Merge(existing, Reduce(batch));
      && (UniqueKeys(existing) ==> UniqueKeys(merged))
      && (forall a :: a in merged && CompanyKey(a) in KeysOf(batch) ==> a in Values(Reduce(batch)))
      && (forall a :: a in existing && CompanyKey(a) !in KeysOf(batch) ==> a in merged)
      && (forall k :: k in KeysOf(batch) ==> exists a :: a in merged && CompanyKey(a) == k)
      && merged[..|merged| - |Reduce(batch).keys|] == Unreplaced(existing, KeysOf(batch))
  {
    var t := Reduce(batch);
    ReduceWellFormed(batch);
    ValuesUniqueKeys(t);
    var kept, added := Unreplaced(existing, t.byKey.Keys), Values(t);
    var merged := kept + added;
    assert merged[..|kept|] == kept;
    if UniqueKeys(existing) {
      UnreplacedUniqueKeys(existing, t.byKey.Keys);
      forall i, j | 0 <= i < j < |merged| ensures CompanyKey(merged[i]) != CompanyKey(merged[j]) {
        if j < |kept| {
          assert merged[i] == kept[i] && merged[j] == kept[j];
        } else if i < |kept| {
          assert merged[i] in kept && merged[j] in added;
        } else {
          assert merged[i] == added[i - |kept|] && merged[j] == added[j - |kept|];
        }
      }
    }
    forall k | k in KeysOf(batch) ensures exists a :: a in merged && CompanyKey(a) == k {
      var i :| 0 <= i < |t.keys| && t.keys[i] == k;
      assert added[i] in merged;
    }
  }

  /** A filter that matches nothing keeps the whole list. */
  lemma {:induction false} UnreplacedNothing(existing: seq<Application>, replaced: set<string>)
    requires forall a :: a in existing ==> CompanyKey(a) !in replaced
    ensures Unreplaced(existing, replaced) == existing
  {
    if existing != [] {
      var rest := existing[1..];
      forall a | a in rest ensures CompanyKey(a) !in replaced {
        var i :| 0 <= i < |rest| && rest[i] == a;
        assert existing[i + 1] == a;
      }
      UnreplacedNothing(rest, replaced);
      assert CompanyKey(existing[0]) !in replaced by {
        assert existing[0] in existing;
      }
      assert existing == [existing[0]] + rest;
    }
  }

  /** A run that built no record saves the stored list as it was. */
  lemma EmptyBatchKeepsStore(existing: seq<Application>)
    ensures Merge(existing, Reduce([])) == existing && Values(Reduce([])) == []
  {
    assert Reduce([]) == Empty && Values(Empty) == [] && Empty.byKey.Keys == {};
    UnreplacedNothing(existing, {});
    assert Merge(existing, Empty) == existing + [];
  }

  /** The batch of one record replaces every stored record with its key, older or not. */
  lemma ReplacementNotMerge(existing: seq<Application>, incoming: Application)
    ensures Merge(existing, Reduce([incoming])) == Unreplaced(existing, {CompanyKey(incoming)}) + [incoming]
  {
    var k := CompanyKey(incoming);
    assert [incoming][..0] == [];
    var one := Latest(map[k := incoming], [k]);
    assert Reduce([incoming]) == one;
    assert one.byKey.Keys == {k};
    assert Values(one)[0] == incoming;
  }

  /** A stored "Acme" record of 2024-01-01 is replaced by an incoming "acme" one of 2023-06-01. */
  lemma ExampleReplacementNotMerge()
    ensures var stored := Application("m1", "Acme", "Application received", 19723, Status.Applied);
      var incoming := Application("m2", "acme", "Interview with acme", 19509, Status.Interview);
      Merge([stored], Reduce([incoming])) == [incoming]
  {
    var stored := Application("m1", "Acme", "Application received", 19723, Status.Applied);
    var incoming := Application("m2", "acme", "Interview with acme", 19509, Status.Interview);
    ReplacementNotMerge([stored], incoming);
    assert CompanyKey(stored) == CompanyKey(incoming) by {
      assert CompanyKey(stored)[0] == 'a';
    }
  }

  /** Of two records with the same key and the same date, the batch keeps the first. */
  lemma TieKeepsFirst(first: Application, second: Application)
    requires CompanyKey(first) == CompanyKey(second) && first.appliedDate == second.appliedDate
    ensures Reduce([first, second]) == Latest(map[CompanyKey(first) := first], [CompanyKey(first)])
    ensures Values(Reduce([first, second])) == [first]
  {
    var k := CompanyKey(first);
    assert [first, second][..1] == [first];
    assert [first][..0] == [];
    var one := Latest(map[k := first], [k]);
    assert Reduce([first]) == one;
    assert Reduce([first, second]) == one;
    assert Values(one)[0] == first;
  }

  /**
   * The run is not idempotent. The first run keeps `first` of two tied records and stores it, so only
   * `first`'s id is processed; the next run picks up `second` and replaces `first` with it.
   */
  lemma RerunReplacesTieWinner(existing: seq<Application>, first: Application, second: Application)
    requires CompanyKey(first) == CompanyKey(second) && first.appliedDate == second.appliedDate
    requires forall a :: a in existing ==> CompanyKey(a) != CompanyKey(first)
    ensures Merge(existing, Reduce([first, second])) == existing + [first]
    ensures Merge(existing + [first], Reduce([second])) == existing + [second]
  {
    var k := CompanyKey(first);
    TieKeepsFirst(first, second);
    assert Reduce([first, second]).byKey.Keys == {k};
    UnreplacedNothing(existing, {k});
    SecondRunReplaces(existing, first, second);
  }

  lemma SecondRunReplaces(existing: seq<Application>, first: Application, second: Application)
    requires CompanyKey(first) == CompanyKey(second)
    requires forall a :: a in existing ==> CompanyKey(a) != CompanyKey(first)
    ensures Merge(existing + [first], Reduce([second])) == existing + [second]
  {
    var k := CompanyKey(first);
    ReplacementNotMerge(existing + [first], second);
    UnreplacedAppend(existing, [first], {k});
    UnreplacedNothing(existing, {k});
    assert Unreplaced([first], {k}) == [];
  }

  // ---------------------------------------------------------------------------------------------
  // Keys inherited from `Object.prototype`

  /**
   * The lower-case names that `Object.prototype` already defines. `latestApps` is created with `{}`,
   * so `latestApps[k]` is a truthy inherited value for these keys even before anything was stored.
   */
  const InheritedKeys: set<string> := {"constructor", "__proto__"}

  /**
   * The update of `latestApps` as written: for an inherited key the lookup is truthy and its
   * `appliedDate` is undefined, so the date comparison is false and the record is never stored.
   */
  function KeepAsWritten(t: Latest, app: Application): Latest
  {
    if CompanyKey(app) in InheritedKeys then t else Keep(t, app)
  }

  function ReduceAsWritten(batch: seq<Application>): (r: Latest)
    ensures Listed(r)
  {
    if batch == [] then Empty else KeepAsWritten(ReduceAsWritten(batch[..|batch| - 1]), batch[|batch| - 1])
  }

  /** The merge as written: the filter also drops every stored record under an inherited key. */
  function MergeAsWritten(existing: seq<Application>, t: Latest): seq<Application>
    requires Listed(t)
  {
    Unreplaced(existing, t.byKey.Keys + InheritedKeys) + Values(t)
  }

  /** Handling one more record as written is one more `KeepAsWritten`. */
  lemma ReduceAsWrittenSnoc(batch: seq<Application>, app: Application)
    ensures ReduceAsWritten(batch + [app]) == KeepAsWritten(ReduceAsWritten(batch), app)
  {
    assert (batch + [app])[..|batch|] == batch;
  }

  /**
   * As written, `latestApps` ends as this model's reduction of the batch without its records under
   * inherited keys, so every property proved of `Reduce` holds of the program's object.
   */
  lemma {:induction false} ReduceAsWrittenSkipsInherited(batch: seq<Application>)
    ensures ReduceAsWritten(batch) == Reduce(Unreplaced(batch, InheritedKeys))
  {
    if batch != [] {
      var prefix, last := batch[..|batch| - 1], batch[|batch| - 1];
      assert batch == prefix + [last];
      ReduceAsWrittenSkipsInherited(prefix);
      UnreplacedAppend(prefix, [last], InheritedKeys);
      var kept := Unreplaced(prefix, InheritedKeys);
      if CompanyKey(last) in InheritedKeys {
        assert Unreplaced([last], InheritedKeys) == [];
        assert kept + [] == kept;
      } else {
        assert Unreplaced([last], InheritedKeys) == [last];
        ReduceSnoc(kept, last);
      }
    }
  }

  /** Filtering by two key sets at once is filtering by one and then by the other. */
  lemma {:induction false} UnreplacedUnion(existing: seq<Application>, replaced: set<string>, dropped: set<string>)
    ensures Unreplaced(existing, replaced + dropped) == Unreplaced(Unreplaced(existing, dropped), replaced)
  {
    if existing != [] {
      var head, rest := existing[0], existing[1..];
      UnreplacedUnion(rest, replaced, dropped);
      var first := if CompanyKey(head) in dropped then [] else [head];
      assert Unreplaced(existing, dropped) == first + Unreplaced(rest, dropped);
      UnreplacedAppend(first, Unreplaced(rest, dropped), replaced);
      if first != [] {
        assert Unreplaced(first, replaced) == (if CompanyKey(head) in replaced then [] else [head]);
      }
    }
  }

  /**
   * As written, the merge is this model's merge of the stored list without its records under
   * inherited keys.
   */
  lemma MergeAsWrittenDropsInherited(existing: seq<Application>, t: Latest)
    requires Listed(t)
    ensures MergeAsWritten(existing, t) == Merge(Unreplaced(existing, InheritedKeys), t)
  {
    UnreplacedUnion(existing, t.byKey.Keys, InheritedKeys);
  }

  /** A batch without inherited keys is reduced as written exactly as in this model. */
  lemma ReduceAsWrittenWithoutInheritedKeys(batch: seq<Application>)
    requires forall a :: a in batch ==> CompanyKey(a) !in InheritedKeys
    ensures ReduceAsWritten(batch) == Reduce(batch)
  {
    ReduceAsWrittenSkipsInherited(batch);
    UnreplacedNothing(batch, InheritedKeys);
  }

  /** A stored list without inherited keys is merged as written exactly as in this model. */
  lemma MergeAsWrittenWithoutInheritedKeys(existing: seq<Application>, t: Latest)
    requires Listed(t)
    requires forall a :: a in existing ==> CompanyKey(a) !in InheritedKeys
    ensures MergeAsWritten(existing, t) == Merge(existing, t)
  {
    MergeAsWrittenDropsInherited(existing, t);
    UnreplacedNothing(existing, InheritedKeys);
  }

  /** The program's merge keeps company keys unique: a stored list without duplicates is saved without duplicates. */
  lemma MergeAsWrittenKeepsKeysUnique(existing: seq<Application>, batch: seq<Application>)
    requires UniqueKeys(existing)
    ensures UniqueKeys(MergeAsWritten(existing, ReduceAsWritten(batch)))
  {
    var kept := Unreplaced(existing, InheritedKeys);
    ReduceAsWrittenSkipsInherited(batch);
    MergeAsWrittenDropsInherited(existing, ReduceAsWritten(batch));
    UnreplacedUniqueKeys(existing, InheritedKeys);
    MergeProperties(kept, Unreplaced(batch, InheritedKeys));
  }

  /**
   * The program is not idempotent: after a tie under a key that is not inherited, its first run
   * stores the first record and its next run stores the second in its place.
   */
  lemma RerunReplacesTieWinnerAsWritten(existing: seq<Application>, first: Application, second: Application)
    requires CompanyKey(first) == CompanyKey(second) && first.appliedDate == second.appliedDate
    requires CompanyKey(first) !in InheritedKeys
    requires forall a :: a in existing ==> CompanyKey(a) != CompanyKey(first) && CompanyKey(a) !in InheritedKeys
    ensures MergeAsWritten(existing, ReduceAsWritten([first, second])) == existing + [first]
    ensures MergeAsWritten(existing + [first], ReduceAsWritten([second])) == existing + [second]
  {
    ReduceAsWrittenWithoutInheritedKeys([first, second]);
    ReduceAsWrittenWithoutInheritedKeys([second]);
    MergeAsWrittenWithoutInheritedKeys(existing, Reduce([first, second]));
    MergeAsWrittenWithoutInheritedKeys(existing + [first], Reduce([second]));
    RerunReplacesTieWinner(existing, first, second);
  }

  lemma ConstructorKey(app: Application)
    requires app.company == "Constructor"
    ensures CompanyKey(app) == "constructor"
  {
    var k := CompanyKey(app);
    assert |k| == 11;
    assert k[0] == 'c' && k[1] == 'o' && k[2] == 'n' && k[3] == 's' && k[4] == 't' && k[5] == 'r';
    assert k[6] == 'u' && k[7] == 'c' && k[8] == 't' && k[9] == 'o' && k[10] == 'r';
  }

  /**
   * As written, a message whose key is inherited is never saved, and a stored record under such a key
   * disappears on the next run even when that run finds nothing.
   */
  lemma InheritedKeyIsLost(app: Application)
    requires CompanyKey(app) in InheritedKeys
    ensures MergeAsWritten([], ReduceAsWritten([app])) == []
    ensures MergeAsWritten([app], ReduceAsWritten([])) == []
  {
    assert [app][..0] == [];
    assert [app][1..] == [];
    assert Values(Empty) == [];
  }

  /** The merge of this model saves every record of a batch and keeps a stored record no batch replaces. */
  lemma NoKeyIsLost(app: Application)
    ensures Merge([], Reduce([app])) == [app]
    ensures Merge([app], Reduce([])) == [app]
  {
    ReplacementNotMerge([], app);
    EmptyBatchKeepsStore([app]);
  }

  /** "Constructor", a name the extraction can return, has an inherited key. */
  lemma ConstructorIsInherited(app: Application)
    requires app.company == "Constructor"
    ensures CompanyKey(app) in InheritedKeys
  {
    ConstructorKey(app);
  }
}
