/** `GetS3ResponsesAsync`: fetch every object named in one notification and keep
    only the responses whose status is OK. The S3 call itself is not modelled: its
    result for each request is an input. */
module Fetching {
  import opened Common

  /** One storage-change entry: `record.S3.Bucket.Name` and `record.S3.Object.Key`. */
  datatype Locator = Locator(bucket: string, key: string)

  /** What `GetObjectAsync` returned for one request: null, or a response with its
      HTTP status and body. */
  datatype FetchOutcome = NoResponse | Response(status: int, body: Bytes)

  /** `HttpStatusCode.OK`. */
  const HTTP_OK: int := 200

  /** A kept `GetObjectResponse`: the bucket and key it was requested with, and its body. */
  datatype Fetched = Fetched(bucket: string, key: string, body: Bytes)

  /** `s3Response?.HttpStatusCode == HttpStatusCode.OK`: false for a null response. */
  predicate IsOk(outcome: FetchOutcome)
  {
    outcome.Response? && outcome.status == HTTP_OK
  }

  /** The line logged for an entry whose fetch was not OK. */
  function FailureMessage(key: string): (line: string)
  {
    "S3 Retrieve Object Failed: key-" + key
  }

  /** The responses kept from a notification's entries, in entry order. */
  function Kept(records: seq<Locator>, outcomes: seq<FetchOutcome>): (kept: seq<Fetched>)
    requires |records| == |outcomes|
  {
    if records == [] then []
    else
      var n := |records| - 1;
      Kept(records[..n], outcomes[..n]) +
        if IsOk(outcomes[n]) then [Fetched(records[n].bucket, records[n].key, outcomes[n].body)] else []
  }

  /** The lines logged for a notification's entries, in entry order. */
  function FailureLog(records: seq<Locator>, outcomes: seq<FetchOutcome>): (log: seq<string>)
    requires |records| == |outcomes|
  {
    if records == [] then []
    else
      var n := |records| - 1;
      FailureLog(records[..n], outcomes[..n]) +
        if IsOk(outcomes[n]) then [] else [FailureMessage(records[n].key)]
  }

  /** `GetS3ResponsesAsync`: one fetch per entry, in order; an OK response is kept,
      anything else is logged and skipped without raising. */
  method GetS3Responses(records: seq<Locator>, outcomes: seq<FetchOutcome>)
    returns (result: seq<Fetched>, log: seq<string>)
    requires |records| == |outcomes|
    ensures result == Kept(records, outcomes)
    ensures log == FailureLog(records, outcomes)
  {
    result, log := [], [];
    var i := 0;
    while i < |records|
      invariant 0 <= i <= |records|
      invariant result == Kept(records[..i], outcomes[..i])
      invariant log == FailureLog(records[..i], outcomes[..i])
    {
      var record := records[i];
      var s3Response := outcomes[i];
      assert records[..i + 1][..i] == records[..i] && outcomes[..i + 1][..i] == outcomes[..i];
      if s3Response.Response? && s3Response.status == HTTP_OK {
        result := result + [Fetched(record.bucket, record.key, s3Response.body)];
      } else {
        log := log + [FailureMessage(record.key)];
      }
      i := i + 1;
    }
    assert records[..i] == records && outcomes[..i] == outcomes;
  }

  /** A response is kept exactly when some entry asked for that bucket and key and
      got an OK response with that body. */
  lemma {:induction false} KeptExactlyOk(records: seq<Locator>, outcomes: seq<FetchOutcome>, f: Fetched)
    requires |records| == |outcomes|
    ensures f in Kept(records, outcomes) <==>
      exists i :: 0 <= i < |records| && records[i] == Locator(f.bucket, f.key) && outcomes[i] == Response(HTTP_OK, f.body)
  {
    if records != [] {
      var n := |records| - 1;
      KeptExactlyOk(records[..n], outcomes[..n], f);
      assert forall i :: 0 <= i < n ==> records[..n][i] == records[i] && outcomes[..n][i] == outcomes[i];
    }
  }

  /** A line is logged exactly when some entry's fetch was not OK and the line names
      that entry's key. */
  lemma {:induction false} FailureLogExactlyNotOk(records: seq<Locator>, outcomes: seq<FetchOutcome>, line: string)
    requires |records| == |outcomes|
    ensures line in FailureLog(records, outcomes) <==>
      exists i :: 0 <= i < |records| && !IsOk(outcomes[i]) && line == FailureMessage(records[i].key)
  {
    if records != [] {
      var n := |records| - 1;
      FailureLogExactlyNotOk(records[..n], outcomes[..n], line);
      assert forall i :: 0 <= i < n ==> records[..n][i] == records[i] && outcomes[..n][i] == outcomes[i];
    }
  }

  /** The kept responses and the log lines together number the entries: each entry
      contributes exactly one of the two. */
  lemma {:induction false} KeptOrLogged(records: seq<Locator>, outcomes: seq<FetchOutcome>)
    requires |records| == |outcomes|
    ensures |Kept(records, outcomes)| + |FailureLog(records, outcomes)| == |records|
  {
    if records != [] {
      var n := |records| - 1;
      KeptOrLogged(records[..n], outcomes[..n]);
    }
  }

  /** Filtering preserves entry order: the kept responses of two consecutive runs of
      entries are those of the first run followed by those of the second. */
  lemma {:induction false} KeptConcat(r1: seq<Locator>, o1: seq<FetchOutcome>, r2: seq<Locator>, o2: seq<FetchOutcome>)
    requires |r1| == |o1| && |r2| == |o2|
    ensures Kept(r1 + r2, o1 + o2) == Kept(r1, o1) + Kept(r2, o2)
    decreases |r2|
  {
    if r2 == [] {
      assert r1 + r2 == r1 && o1 + o2 == o1;
    } else {
      var n := |r2| - 1;
      KeptConcat(r1, o1, r2[..n], o2[..n]);
      assert (r1 + r2)[..|r1| + n] == r1 + r2[..n];
      assert (o1 + o2)[..|o1| + n] == o1 + o2[..n];
    }
  }

  /** When every fetch is OK, every entry is kept, in entry order, and nothing is logged. */
  lemma {:induction false} AllOkAllKept(records: seq<Locator>, outcomes: seq<FetchOutcome>)
    requires |records| == |outcomes|
    requires forall i :: 0 <= i < |outcomes| ==> outcomes[i].Response? && outcomes[i].status == HTTP_OK
    ensures |Kept(records, outcomes)| == |records|
    ensures forall i :: 0 <= i < |records| ==>
      Kept(records, outcomes)[i] == Fetched(records[i].bucket, records[i].key, outcomes[i].body)
    ensures FailureLog(records, outcomes) == []
  {
    if records != [] {
      var n := |records| - 1;
      AllOkAllKept(records[..n], outcomes[..n]);
    }
  }
}
