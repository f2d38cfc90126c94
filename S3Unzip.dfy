/**
 * The notification handler: for each record of the event, derive the keys, back the
 * archive up when it is listed under its own key, fetch it, extract it and upload every
 * file under the destination prefix.
 *
 * The object storage is an `ObjectStore`: a map from (bucket, key) to stored objects, and
 * the sequence of state-changing requests it has received. The clock, the backup folder
 * setting, the zip reader and the MIME table are parameters. Any failure ends the whole
 * handler, including the records after it; the writes made before it stay.
 */
module S3Unzip {

  import opened Wrappers
  import Utf8
  import Decoding
  import KeyDerivation
  import Extraction

  type byte = Utf8.byte

  /** An object as stored: its bytes and the metadata a put sets. */
  datatype StoredObject = StoredObject(body: seq<byte>, contentType: string, contentEncoding: string, acl: string)

  /** (bucket, key) */
  type Location = (string, string)

  /** A state-changing storage request: `copy_object` or `put_object`. */
  datatype Write =
    | Copy(bucket: string, source: string, target: string)
    | Put(bucket: string, key: string, obj: StoredObject)

  /** One record of the notification: the bucket and the still percent-encoded key. */
  datatype Record = Record(bucket: string, rawKey: string)

  /** The exceptions that end the handler. */
  datatype Failure =
    | NoBackupName(key: string)               // `re.search` found nothing, `.group(0)` raised
    | NoSuchKey(bucket: string, key: string)  // `get_object` raised a client error
    | InvalidArchive(bucket: string, key: string)  // `ZipFile` could not read the body

  datatype Outcome = Completed | Aborted(failure: Failure)

  const PutEncoding: string := "utf-8"
  const PutAcl: string := "public-read"

  function Apply(objects: map<Location, StoredObject>, w: Write): map<Location, StoredObject>
  {
    match w
    case Copy(b, s, t) => if (b, s) in objects then objects[(b, t) := objects[(b, s)]] else objects
    case Put(b, k, o) => objects[(b, k) := o]
  }

  /** The objects after the requests `ws`, in order. */
  function ApplyAll(objects: map<Location, StoredObject>, ws: seq<Write>): map<Location, StoredObject>
  {
    if |ws| == 0 then objects else Apply(ApplyAll(objects, ws[..|ws| - 1]), ws[|ws| - 1])
  }

  lemma {:induction false} ApplyAllAppend(objects: map<Location, StoredObject>, a: seq<Write>, b: seq<Write>)
    ensures ApplyAll(objects, a + b) == ApplyAll(ApplyAll(objects, a), b)
    decreases |b|
  {
    if |b| == 0 {
      assert a + b == a;
    } else {
      assert (a + b)[..|a + b| - 1] == a + b[..|b| - 1];
      ApplyAllAppend(objects, a, b[..|b| - 1]);
    }
  }

  // ---------------------------------------------------------------------------------------
  // Listing order: keys are listed in UTF-8 binary order, which is code-point order.

  predicate KeyLess(a: string, b: string)
    decreases |a|
  {
    |b| > 0 && (|a| == 0 || a[0] < b[0] || (a[0] == b[0] && KeyLess(a[1..], b[1..])))
  }

  lemma {:induction false} KeyLessIrreflexive(a: string)
    ensures !KeyLess(a, a)
    decreases |a|
  {
    if |a| > 0 {
      KeyLessIrreflexive(a[1..]);
    }
  }

  lemma {:induction false} KeyLessTransitive(a: string, b: string, c: string)
    requires KeyLess(a, b) && KeyLess(b, c)
    ensures KeyLess(a, c)
    decreases |a|
  {
    if |a| > 0 && a[0] == b[0] && b[0] == c[0] {
      KeyLessTransitive(a[1..], b[1..], c[1..]);
    }
  }

  lemma {:induction false} KeyLessTotal(a: string, b: string)
    ensures a == b || KeyLess(a, b) || KeyLess(b, a)
    decreases |a|
  {
    if |a| > 0 && |b| > 0 && a[0] == b[0] {
      KeyLessTotal(a[1..], b[1..]);
      if a[1..] == b[1..] {
        assert a == [a[0]] + a[1..] && b == [b[0]] + b[1..];
      }
    }
  }

  /** A key comes before every longer key it is a prefix of. */
  lemma {:induction false} PrefixKeyLess(a: string, b: string)
    requires a <= b && a != b
    ensures KeyLess(a, b)
    decreases |a|
  {
    if |a| > 0 {
      assert a[1..] <= b[1..];
      PrefixKeyLess(a[1..], b[1..]);
    }
  }

  /**
   * What `list_objects_v2(Bucket=bucket, Prefix=prefix, MaxKeys=1)` returns as its only
   * key: the first, in listing order, of the keys in `bucket` among `locs` that start
   * with `prefix`; `None` when there is none (`KeyCount` is 0).
   */
  predicate IsFirstListed(locs: set<Location>, bucket: string, prefix: string, first: Option<string>)
  {
    match first
    case Some(k) =>
      && (bucket, k) in locs && prefix <= k
      && forall loc :: loc in locs && loc.0 == bucket && prefix <= loc.1 ==> loc.1 == k || KeyLess(k, loc.1)
    case None =>
      forall loc :: loc in locs && loc.0 == bucket ==> !(prefix <= loc.1)
  }

  /**
   * The existence check of the handler: the first key listed under the prefix `key` is
   * `key` itself exactly when `key` is stored in the bucket.
   */
  lemma FirstListedIsKey(locs: set<Location>, bucket: string, key: string, first: Option<string>)
    requires IsFirstListed(locs, bucket, key, first)
    ensures first == Some(key) <==> (bucket, key) in locs
  {
    if (bucket, key) in locs {
      var k := first.value;
      if k != key {
        PrefixKeyLess(key, k);
        KeyLessIrreflexive(key);
        if KeyLess(k, key) {
          KeyLessTransitive(key, k, key);
        }
      }
    }
  }

  /** The listing invariant is kept when one more location is looked at. */
  lemma FirstListedStep(done: set<Location>, loc: Location, bucket: string, prefix: string, first: Option<string>)
    requires IsFirstListed(done, bucket, prefix, first)
    ensures var next := if loc.0 == bucket && prefix <= loc.1 && (first.None? || KeyLess(loc.1, first.value))
                        then Some(loc.1) else first;
            IsFirstListed(done + {loc}, bucket, prefix, next)
  {
    if loc.0 == bucket && prefix <= loc.1 {
      if first.None? {
      } else if KeyLess(loc.1, first.value) {
        forall l | l in done && l.0 == bucket && prefix <= l.1 ensures l.1 == loc.1 || KeyLess(loc.1, l.1) {
          if l.1 != first.value {
            KeyLessTransitive(loc.1, first.value, l.1);
          }
        }
      } else {
        KeyLessTotal(loc.1, first.value);
      }
    }
  }

  /** The object storage the handler talks to. */
  class ObjectStore {
    var objects: map<Location, StoredObject>
    /** Every `copy_object` and `put_object` request received, in order. */
    var requests: seq<Write>

    constructor (initial: map<Location, StoredObject>)
      ensures objects == initial && requests == []
    {
      objects := initial;
      requests := [];
    }

    /** `list_objects_v2(Bucket=bucket, Prefix=prefix, MaxKeys=1)`: the first key listed, if any. */
    method ListFirst(bucket: string, prefix: string) returns (first: Option<string>)
      ensures IsFirstListed(objects.Keys, bucket, prefix, first)
    {
      first := None;
      var pending := objects.Keys;
      while pending != {}
        invariant pending <= objects.Keys
        invariant IsFirstListed(objects.Keys - pending, bucket, prefix, first)
        decreases |pending|
      {
        var loc :| loc in pending;
        FirstListedStep(objects.Keys - pending, loc, bucket, prefix, first);
        if loc.0 == bucket && prefix <= loc.1 && (first.None? || KeyLess(loc.1, first.value)) {
          first := Some(loc.1);
        }
        assert objects.Keys - (pending - {loc}) == (objects.Keys - pending) + {loc};
        pending := pending - {loc};
      }
    }

    /** `copy_object(Bucket=bucket, CopySource={bucket, source}, Key=target)`. */
    method CopyObject(bucket: string, source: string, target: string)
      requires (bucket, source) in objects
      modifies this
      ensures objects == Apply(old(objects), Copy(bucket, source, target))
      ensures requests == old(requests) + [Copy(bucket, source, target)]
    {
      objects := objects[(bucket, target) := objects[(bucket, source)]];
      requests := requests + [Copy(bucket, source, target)];
    }

    /** `get_object(Bucket=bucket, Key=key)['Body'].read()`; `None` where it raises `NoSuchKey`. */
    method GetObject(bucket: string, key: string) returns (body: Option<seq<byte>>)
      ensures body.Some? <==> (bucket, key) in objects
      ensures body.Some? ==> body.value == objects[(bucket, key)].body
    {
      if (bucket, key) in objects {
        body := Some(objects[(bucket, key)].body);
      } else {
        body := None;
      }
    }

    /** `put_object(Body=..., Bucket=bucket, Key=key, ContentEncoding=..., ContentType=..., ACL=...)`. */
    method PutObject(bucket: string, key: string, obj: StoredObject)
      modifies this
      ensures objects == Apply(old(objects), Put(bucket, key, obj))
      ensures requests == old(requests) + [Put(bucket, key, obj)]
    {
      objects := objects[(bucket, key) := obj];
      requests := requests + [Put(bucket, key, obj)];
    }
  }

  // ---------------------------------------------------------------------------------------
  // What one record and a whole event do, as functions of the storage state.

  /** The uploads of the extracted entries: one put per entry, in order, under `destination`. */
  function Uploads(bucket: string, destination: string, items: seq<Extraction.Extracted>): seq<Write>
  {
    seq(|items|, k requires 0 <= k < |items| =>
      Put(bucket, destination + items[k].name, StoredObject(items[k].body, items[k].contentType, PutEncoding, PutAcl)))
  }

  datatype StepResult = StepResult(writes: seq<Write>, failure: Option<Failure>)

  /**
   * One pass of the record loop for the decoded key `key` of `bucket`, given the backup key
   * and the destination derived from it. The backup is attempted only when the existence
   * check succeeds, which is exactly when `key` is stored; the fetch that follows fails
   * when it is not.
   */
  function KeyStep(objects: map<Location, StoredObject>, bucket: string, key: string,
                   backupKey: Option<string>, destination: string,
                   unzip: seq<byte> -> Option<seq<Extraction.Member>>,
                   guess: string -> Option<string>): StepResult
  {
    if (bucket, key) !in objects then StepResult([], Some(NoSuchKey(bucket, key)))
    else if backupKey.None? then StepResult([], Some(NoBackupName(key)))
    else
      var fetched := FetchStep(objects, bucket, key, destination, unzip, guess);
      StepResult([Copy(bucket, key, backupKey.value)] + fetched.writes, fetched.failure)
  }

  /** The end of one pass: `get_object`, `parse_content` and the uploads. */
  function FetchStep(objects: map<Location, StoredObject>, bucket: string, key: string, destination: string,
                     unzip: seq<byte> -> Option<seq<Extraction.Member>>,
                     guess: string -> Option<string>): StepResult
  {
    if (bucket, key) !in objects then StepResult([], Some(NoSuchKey(bucket, key)))
    else
      var archive := unzip(objects[(bucket, key)].body);
      if archive.None? then StepResult([], Some(InvalidArchive(bucket, key)))
      else
        var items := Extraction.ExtractedUpTo(archive.value, |archive.value|, guess);
        StepResult(Uploads(bucket, destination, items), None)
  }

  /** One pass of the record loop for `rec`, stamped `timestamp`. */
  function RecordStep(objects: map<Location, StoredObject>, rec: Record, folder: string, timestamp: string,
                      unzip: seq<byte> -> Option<seq<Extraction.Member>>,
                      guess: string -> Option<string>): StepResult
  {
    var key := Decoding.UnquotePlus(rec.rawKey);
    KeyStep(objects, rec.bucket, key, KeyDerivation.BackupKey(folder, key, timestamp),
            KeyDerivation.Destination(key), unzip, guess)
  }

  datatype RunState = RunState(objects: map<Location, StoredObject>, writes: seq<Write>, outcome: Outcome)

  /** The state after one more record, stamped `timestamp`; nothing happens once the handler has failed. */
  function Next(before: RunState, rec: Record, folder: string, timestamp: string,
                unzip: seq<byte> -> Option<seq<Extraction.Member>>,
                guess: string -> Option<string>): RunState
  {
    if before.outcome.Aborted? then before
    else
      var step := RecordStep(before.objects, rec, folder, timestamp, unzip, guess);
      RunState(ApplyAll(before.objects, step.writes), before.writes + step.writes,
               if step.failure.Some? then Aborted(step.failure.value) else Completed)
  }

  /** The record loop over `records`, stopping at the first failure; record i is stamped `now(i)`. */
  function Run(objects: map<Location, StoredObject>, records: seq<Record>, folder: string, now: nat -> string,
               unzip: seq<byte> -> Option<seq<Extraction.Member>>,
               guess: string -> Option<string>): RunState
  {
    if |records| == 0 then RunState(objects, [], Completed)
    else
      Next(Run(objects, records[..|records| - 1], folder, now, unzip, guess),
           records[|records| - 1], folder, now(|records| - 1), unzip, guess)
  }

  // ---------------------------------------------------------------------------------------
  // The handler

  /** The body of the record loop of `handler`. */
  method ProcessRecord(store: ObjectStore, rec: Record, folder: string, timestamp: string,
                       unzip: seq<byte> -> Option<seq<Extraction.Member>>,
                       guess: string -> Option<string>) returns (failure: Option<Failure>)
    modifies store
    ensures var step := RecordStep(old(store.objects), rec, folder, timestamp, unzip, guess);
      && store.objects == ApplyAll(old(store.objects), step.writes)
      && store.requests == old(store.requests) + step.writes
      && failure == step.failure
  {
    var key := Decoding.UnquotePlus(rec.rawKey);
    var destination := KeyDerivation.Destination(key);
    var listed := store.ListFirst(rec.bucket, key);
    failure := ProcessKey(store, rec.bucket, key, listed, KeyDerivation.BackupKey(folder, key, timestamp),
                          destination, unzip, guess);
  }

  /**
   * The record loop's body seen from the loop: from the run state `before` of the records
   * handled so far, whose requests follow `log`, it reaches `Next(before, rec, ...)`.
   */
  method HandleRecord(store: ObjectStore, rec: Record, folder: string, timestamp: string,
                      unzip: seq<byte> -> Option<seq<Extraction.Member>>,
                      guess: string -> Option<string>,
                      ghost before: RunState, ghost log: seq<Write>) returns (failure: Option<Failure>)
    requires before.outcome == Completed
    requires store.objects == before.objects && store.requests == log + before.writes
    modifies store
    ensures var after := Next(before, rec, folder, timestamp, unzip, guess);
      && store.objects == after.objects
      && store.requests == log + after.writes
      && (failure.None? <==> after.outcome == Completed)
      && (failure.Some? ==> after.outcome == Aborted(failure.value))
  {
    ghost var step := RecordStep(before.objects, rec, folder, timestamp, unzip, guess);
    failure := ProcessRecord(store, rec, folder, timestamp, unzip, guess);
    ConcatAssoc(log, before.writes, step.writes);
  }

  /**
   * The record loop's body once the key, its listing and its backup key (`None` where the
   * regular expression finds nothing) are known.
   */
  method ProcessKey(store: ObjectStore, bucket: string, key: string, listed: Option<string>,
                    backupKey: Option<string>, destination: string,
                    unzip: seq<byte> -> Option<seq<Extraction.Member>>,
                    guess: string -> Option<string>) returns (failure: Option<Failure>)
    requires IsFirstListed(store.objects.Keys, bucket, key, listed)
    modifies store
    ensures var step := KeyStep(old(store.objects), bucket, key, backupKey, destination, unzip, guess);
      && store.objects == ApplyAll(old(store.objects), step.writes)
      && store.requests == old(store.requests) + step.writes
      && failure == step.failure
  {
    ghost var objects0 := store.objects;
    FirstListedIsKey(store.objects.Keys, bucket, key, listed);
    if listed.Some? && listed.value == key {
      if backupKey.None? {
        return Some(NoBackupName(key));
      }
      store.CopyObject(bucket, key, backupKey.value);
      ghost var backup := [Copy(bucket, key, backupKey.value)];
      assert store.objects == ApplyAll(objects0, backup);
      CopyKeepsFetch(objects0, bucket, key, backupKey.value, destination, unzip, guess);
      failure := Fetch(store, bucket, key, destination, unzip, guess);
      ApplyAllAppend(objects0, backup, FetchStep(objects0, bucket, key, destination, unzip, guess).writes);
    } else {
      failure := Fetch(store, bucket, key, destination, unzip, guess);
    }
  }

  /** `get_object`, `parse_content` and the upload loop, from the current storage state. */
  method Fetch(store: ObjectStore, bucket: string, key: string, destination: string,
               unzip: seq<byte> -> Option<seq<Extraction.Member>>,
               guess: string -> Option<string>) returns (failure: Option<Failure>)
    modifies store
    ensures var step := FetchStep(old(store.objects), bucket, key, destination, unzip, guess);
      && store.objects == ApplyAll(old(store.objects), step.writes)
      && store.requests == old(store.requests) + step.writes
      && failure == step.failure
  {
    var body := store.GetObject(bucket, key);
    if body.None? {
      return Some(NoSuchKey(bucket, key));
    }
    var archive := unzip(body.value);
    if archive.None? {
      return Some(InvalidArchive(bucket, key));
    }
    var unzipped := Extraction.ParseContent(archive.value, guess);
    Upload(store, bucket, destination, unzipped);
    return None;
  }

  /** The backup copy leaves the archive that the fetch then reads unchanged. */
  lemma CopyKeepsFetch(objects: map<Location, StoredObject>, bucket: string, key: string, target: string,
                       destination: string,
                       unzip: seq<byte> -> Option<seq<Extraction.Member>>,
                       guess: string -> Option<string>)
    requires (bucket, key) in objects
    ensures var copied := Apply(objects, Copy(bucket, key, target));
      && (bucket, key) in copied && copied[(bucket, key)] == objects[(bucket, key)]
      && FetchStep(copied, bucket, key, destination, unzip, guess) == FetchStep(objects, bucket, key, destination, unzip, guess)
  {
  }

  /** The upload loop of `handler`: one put per extracted entry, in order. */
  method Upload(store: ObjectStore, bucket: string, destination: string, unzipped: seq<Extraction.Extracted>)
    modifies store
    ensures store.objects == ApplyAll(old(store.objects), Uploads(bucket, destination, unzipped))
    ensures store.requests == old(store.requests) + Uploads(bucket, destination, unzipped)
  {
    ghost var uploads := Uploads(bucket, destination, unzipped);
    for k := 0 to |unzipped|
      invariant store.objects == ApplyAll(old(store.objects), uploads[..k])
      invariant store.requests == old(store.requests) + uploads[..k]
    {
      store.PutObject(bucket, destination + unzipped[k].name,
                      StoredObject(unzipped[k].body, unzipped[k].contentType, PutEncoding, PutAcl));
      assert uploads[..k + 1] == uploads[..k] + [uploads[k]];
    }
    assert uploads[..|unzipped|] == uploads;
  }

  /**
   * `handler(event, context)`: the records in order, each with its own timestamp `now(i)`.
   * The first failure ends the handler; what was written before it stays written.
   */
  method Handler(store: ObjectStore, records: seq<Record>, folder: string, now: nat -> string,
                 unzip: seq<byte> -> Option<seq<Extraction.Member>>,
                 guess: string -> Option<string>) returns (outcome: Outcome)
    modifies store
    ensures var run := Run(old(store.objects), records, folder, now, unzip, guess);
      && store.objects == run.objects
      && store.requests == old(store.requests) + run.writes
      && outcome == run.outcome
  {
    ghost var objects0 := store.objects;
    ghost var requests0 := store.requests;
    ghost var state := RunState(objects0, [], Completed);
    var i := 0;
    while i < |records|
      invariant 0 <= i <= |records|
      invariant state == Run(objects0, records[..i], folder, now, unzip, guess)
      invariant state.outcome == Completed
      invariant store.objects == state.objects
      invariant store.requests == requests0 + state.writes
    {
      var failure := HandleRecord(store, records[i], folder, now(i), unzip, guess, state, requests0);
      RunSnoc(objects0, records, i, folder, now, unzip, guess);
      state := Next(state, records[i], folder, now(i), unzip, guess);
      if failure.Some? {
        AbortIsFinal(objects0, records, i + 1, folder, now, unzip, guess);
        return Aborted(failure.value);
      }
      i := i + 1;
    }
    assert records[..|records|] == records;
    return Completed;
  }

  /** The run over one more record is one more `Next`. */
  lemma RunSnoc(objects: map<Location, StoredObject>, records: seq<Record>, i: nat,
                folder: string, now: nat -> string,
                unzip: seq<byte> -> Option<seq<Extraction.Member>>,
                guess: string -> Option<string>)
    requires i < |records|
    ensures Run(objects, records[..i + 1], folder, now, unzip, guess)
         == Next(Run(objects, records[..i], folder, now, unzip, guess), records[i], folder, now(i), unzip, guess)
  {
    assert records[..i + 1][..i] == records[..i];
  }

  // ---------------------------------------------------------------------------------------
  // Properties

  /** Once a record fails, the records after it change nothing: the outcome and all writes are final. */
  lemma {:induction false} AbortIsFinal(objects: map<Location, StoredObject>, records: seq<Record>, n: nat,
                                        folder: string, now: nat -> string,
                                        unzip: seq<byte> -> Option<seq<Extraction.Member>>,
                                        guess: string -> Option<string>)
    requires n <= |records|
    requires Run(objects, records[..n], folder, now, unzip, guess).outcome.Aborted?
    ensures Run(objects, records, folder, now, unzip, guess) == Run(objects, records[..n], folder, now, unzip, guess)
    decreases |records|
  {
    if n == |records| {
      assert records[..n] == records;
    } else {
      var shorter := records[..|records| - 1];
      assert shorter[..n] == records[..n];
      AbortIsFinal(objects, shorter, n, folder, now, unzip, guess);
    }
  }

  /** The storage state after the handler is the initial one with the logged requests applied in order. */
  lemma {:induction false} RunStateIsLog(objects: map<Location, StoredObject>, records: seq<Record>,
                                         folder: string, now: nat -> string,
                                         unzip: seq<byte> -> Option<seq<Extraction.Member>>,
                                         guess: string -> Option<string>)
    ensures var run := Run(objects, records, folder, now, unzip, guess);
      run.objects == ApplyAll(objects, run.writes)
    decreases |records|
  {
    if |records| > 0 {
      var before := Run(objects, records[..|records| - 1], folder, now, unzip, guess);
      RunStateIsLog(objects, records[..|records| - 1], folder, now, unzip, guess);
      if before.outcome.Completed? {
        var step := RecordStep(before.objects, records[|records| - 1], folder, now(|records| - 1), unzip, guess);
        ApplyAllAppend(objects, before.writes, step.writes);
      }
    }
  }

  /** A pass that completes made the backup copy and then one put per extracted entry, in order. */
  lemma KeyStepCompleted(objects: map<Location, StoredObject>, bucket: string, key: string,
                         backupKey: Option<string>, destination: string,
                         unzip: seq<byte> -> Option<seq<Extraction.Member>>,
                         guess: string -> Option<string>)
    requires KeyStep(objects, bucket, key, backupKey, destination, unzip, guess).failure.None?
    ensures (bucket, key) in objects && backupKey.Some? && unzip(objects[(bucket, key)].body).Some?
    ensures var writes := KeyStep(objects, bucket, key, backupKey, destination, unzip, guess).writes;
      var archive := unzip(objects[(bucket, key)].body).value;
      var items := Extraction.ExtractedUpTo(archive, |archive|, guess);
      && |writes| == 1 + |items|
      && writes[0] == Copy(bucket, key, backupKey.value)
      && forall k :: 0 <= k < |items| ==>
           writes[k + 1] == Put(bucket, destination + items[k].name,
                                StoredObject(items[k].body, items[k].contentType, PutEncoding, PutAcl))
  {
    var archive := unzip(objects[(bucket, key)].body).value;
    var items := Extraction.ExtractedUpTo(archive, |archive|, guess);
    var uploads := Uploads(bucket, destination, items);
    var writes := [Copy(bucket, key, backupKey.value)] + uploads;
    assert KeyStep(objects, bucket, key, backupKey, destination, unzip, guess).writes == writes;
    forall k | 0 <= k < |items|
      ensures writes[k + 1] == Put(bucket, destination + items[k].name,
                                   StoredObject(items[k].body, items[k].contentType, PutEncoding, PutAcl))
    {
      assert writes[k + 1] == uploads[k];
    }
  }

  /**
   * A record that completes was backed up first, to `folder/<capture>_<timestamp>.zip`,
   * and then wrote exactly one put per extracted entry, in extraction order, each under
   * the destination prefix, with the entry's bytes and type, `utf-8` and `public-read`.
   */
  lemma CompletedRecordWrites(objects: map<Location, StoredObject>, rec: Record, folder: string, timestamp: string,
                              unzip: seq<byte> -> Option<seq<Extraction.Member>>,
                              guess: string -> Option<string>)
    requires RecordStep(objects, rec, folder, timestamp, unzip, guess).failure.None?
    ensures var key := Decoding.UnquotePlus(rec.rawKey);
      && (rec.bucket, key) in objects
      && KeyDerivation.BackupBaseName(key).Some?
      && unzip(objects[(rec.bucket, key)].body).Some?
    ensures var key := Decoding.UnquotePlus(rec.rawKey);
      var writes := RecordStep(objects, rec, folder, timestamp, unzip, guess).writes;
      var archive := unzip(objects[(rec.bucket, key)].body).value;
      var items := Extraction.ExtractedUpTo(archive, |archive|, guess);
      var destination := KeyDerivation.Destination(key);
      && |writes| == 1 + |items|
      && writes[0] == Copy(rec.bucket, key, folder + "/" + KeyDerivation.BackupBaseName(key).value + "_" + timestamp + ".zip")
      && forall k :: 0 <= k < |items| ==>
           && writes[k + 1].Put?
           && writes[k + 1].bucket == rec.bucket
           && destination <= writes[k + 1].key
           && writes[k + 1].key == destination + items[k].name
           && writes[k + 1].obj == StoredObject(items[k].body, items[k].contentType, "utf-8", "public-read")
  {
    var key := Decoding.UnquotePlus(rec.rawKey);
    KeyStepCompleted(objects, rec.bucket, key, KeyDerivation.BackupKey(folder, key, timestamp),
                     KeyDerivation.Destination(key), unzip, guess);
  }

  /**
   * The backup copy is requested exactly when the decoded key is stored; it is the first
   * request of the record and the only copy, and a record that fails puts nothing.
   */
  lemma BackupOnlyWhenPresent(objects: map<Location, StoredObject>, rec: Record, folder: string, timestamp: string,
                              unzip: seq<byte> -> Option<seq<Extraction.Member>>,
                              guess: string -> Option<string>)
    ensures var key := Decoding.UnquotePlus(rec.rawKey);
      var step := RecordStep(objects, rec, folder, timestamp, unzip, guess);
      && ((|step.writes| > 0 && step.writes[0].Copy?) <==>
          ((rec.bucket, key) in objects && KeyDerivation.BackupBaseName(key).Some?))
      && (forall k :: 0 < k < |step.writes| ==> step.writes[k].Put?)
      && (step.failure.Some? ==> |step.writes| <= 1)
      && ((rec.bucket, key) !in objects ==> step.writes == [] && step.failure == Some(NoSuchKey(rec.bucket, key)))
  {
  }

  /** A key whose backup name cannot be found ends the handler before anything of that record is written. */
  lemma NoBackupNameEndsHandler(objects: map<Location, StoredObject>, records: seq<Record>, n: nat,
                                folder: string, now: nat -> string,
                                unzip: seq<byte> -> Option<seq<Extraction.Member>>,
                                guess: string -> Option<string>)
    requires n < |records|
    requires Run(objects, records[..n], folder, now, unzip, guess).outcome.Completed?
    requires var key := Decoding.UnquotePlus(records[n].rawKey);
      && (records[n].bucket, key) in Run(objects, records[..n], folder, now, unzip, guess).objects
      && KeyDerivation.BackupBaseName(key).None?
    ensures var run := Run(objects, records, folder, now, unzip, guess);
      && run.outcome == Aborted(NoBackupName(Decoding.UnquotePlus(records[n].rawKey)))
      && run == RunState(Run(objects, records[..n], folder, now, unzip, guess).objects,
                         Run(objects, records[..n], folder, now, unzip, guess).writes, run.outcome)
  {
    assert records[..n + 1][..n] == records[..n];
    AbortIsFinal(objects, records, n + 1, folder, now, unzip, guess);
  }

  /** Every put of one pass lands in the record's bucket, under the destination prefix. */
  lemma KeyStepPutsUnder(objects: map<Location, StoredObject>, bucket: string, key: string,
                         backupKey: Option<string>, destination: string,
                         unzip: seq<byte> -> Option<seq<Extraction.Member>>,
                         guess: string -> Option<string>)
    ensures forall w :: w in KeyStep(objects, bucket, key, backupKey, destination, unzip, guess).writes && w.Put? ==>
      w.bucket == bucket && destination <= w.key
  {
    var writes := KeyStep(objects, bucket, key, backupKey, destination, unzip, guess).writes;
    if |writes| > 1 {
      var archive := unzip(objects[(bucket, key)].body).value;
      var uploads := Uploads(bucket, destination, Extraction.ExtractedUpTo(archive, |archive|, guess));
      assert writes == [Copy(bucket, key, backupKey.value)] + uploads;
      forall w | w in writes && w.Put? ensures w.bucket == bucket && destination <= w.key {
        assert w in uploads;
      }
    }
  }

  /** Every put of one record lands in that record's bucket, under its destination prefix. */
  lemma StepPutsUnderDestination(objects: map<Location, StoredObject>, rec: Record, folder: string, timestamp: string,
                                 unzip: seq<byte> -> Option<seq<Extraction.Member>>,
                                 guess: string -> Option<string>)
    ensures forall w :: w in RecordStep(objects, rec, folder, timestamp, unzip, guess).writes && w.Put? ==>
      w.bucket == rec.bucket && KeyDerivation.Destination(Decoding.UnquotePlus(rec.rawKey)) <= w.key
  {
    var key := Decoding.UnquotePlus(rec.rawKey);
    KeyStepPutsUnder(objects, rec.bucket, key, KeyDerivation.BackupKey(folder, key, timestamp),
                     KeyDerivation.Destination(key), unzip, guess);
  }

  /** `w` is a put in the bucket of one of `records`, under that record's destination prefix. */
  predicate UnderSomeDestination(w: Write, records: seq<Record>)
  {
    w.Put? && (exists rec :: rec in records && w.bucket == rec.bucket &&
                 KeyDerivation.Destination(Decoding.UnquotePlus(rec.rawKey)) <= w.key)
  }

  /** A put after one more record is an earlier put, or lies under that record's destination. */
  lemma NextPuts(before: RunState, rec: Record, folder: string, timestamp: string,
                 unzip: seq<byte> -> Option<seq<Extraction.Member>>,
                 guess: string -> Option<string>)
    ensures forall w :: w in Next(before, rec, folder, timestamp, unzip, guess).writes && w.Put? ==>
      w in before.writes ||
      (w.bucket == rec.bucket && KeyDerivation.Destination(Decoding.UnquotePlus(rec.rawKey)) <= w.key)
  {
    if before.outcome.Completed? {
      StepPutsUnderDestination(before.objects, rec, folder, timestamp, unzip, guess);
    }
  }

  /** Every put the handler makes lands under the destination prefix of one of the records. */
  lemma {:induction false} PutsUnderDestinations(objects: map<Location, StoredObject>, records: seq<Record>,
                                                 folder: string, now: nat -> string,
                                                 unzip: seq<byte> -> Option<seq<Extraction.Member>>,
                                                 guess: string -> Option<string>)
    ensures forall w :: w in Run(objects, records, folder, now, unzip, guess).writes && w.Put? ==>
      UnderSomeDestination(w, records)
    decreases |records|
  {
    if |records| > 0 {
      var last := |records| - 1;
      var before := Run(objects, records[..last], folder, now, unzip, guess);
      PutsUnderDestinations(objects, records[..last], folder, now, unzip, guess);
      NextPuts(before, records[last], folder, now(last), unzip, guess);
      forall w | w in Run(objects, records, folder, now, unzip, guess).writes && w.Put?
        ensures UnderSomeDestination(w, records)
      {
        if w in before.writes {
          var rec :| rec in records[..last] && w.bucket == rec.bucket &&
            KeyDerivation.Destination(Decoding.UnquotePlus(rec.rawKey)) <= w.key;
          assert rec in records;
        } else {
          assert records[last] in records;
        }
      }
    }
  }
}
