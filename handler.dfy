/** `FunctionHandler` and `ProcessRecordAsync`: for every notification record, fetch
    its objects, and for every OK response resize, zip and upload next to the source. */
module Handler {
  import opened Common
  import opened ImageSizes
  import opened Imaging
  import opened Paths
  import opened Dictionaries
  import opened Resizing
  import opened Archiving
  import opened Fetching
  import opened Uploading
  import opened Runs

  /** The archive base name: a fixed placeholder, not derived from the source key. */
  const BASE_NAME: string := "can"

  /** One SNS record, its message already parsed into its storage-change entries. */
  datatype SnsRecord = SnsRecord(entries: seq<Locator>)

  /** The variant set for a kept response, over the default catalogue. */
  function VariantsOf(codec: Codec, response: Fetched): (variants: Result<Variants, ResizeError>)
  {
    ResizeAll(codec, response.body, DefaultSizes())
  }

  /** The upload issued for a kept response: same bucket, the derived key, the
      archive of its variants under the fixed base name, and no tags. */
  function UploadFor(response: Fetched, variants: Variants): (upload: UploadRequest)
    requires WellFormedKey(response.key)
  {
    RequestFor(response.bucket, DestinationKey(response.key), ArchiveOf(BASE_NAME, variants), [])
  }

  predicate KeysWellFormed(responses: seq<Fetched>)
  {
    forall i :: 0 <= i < |responses| ==> WellFormedKey(responses[i].key)
  }

  /** One turn of the response loop: the upload of the response's variants, or the
      exception thrown while making them. */
  function ResponseStep(codec: Codec, response: Fetched): (step: Step)
    requires WellFormedKey(response.key)
  {
    match VariantsOf(codec, response)
    case Err(e) => Err(e)
    case Ok(variants) => Ok(UploadFor(response, variants))
  }

  /** The turns of the response loop, one per kept response. */
  function ResponseSteps(codec: Codec, kept: seq<Fetched>): (steps: seq<Step>)
    requires KeysWellFormed(kept)
  {
    seq(|kept|, i requires 0 <= i < |kept| => ResponseStep(codec, kept[i]))
  }

  /** The loop over one notification's kept responses: each response gives its
      upload, in order, until a resize exception ends the loop (and, uncaught, the
      invocation); the uploads already issued stay issued. */
  function ProcessResponses(codec: Codec, kept: seq<Fetched>): (run: Run)
    requires KeysWellFormed(kept)
  {
    Issue(ResponseSteps(codec, kept))
  }

  /** Every kept response yields exactly one upload, in order, until the first one
      whose variants cannot be made; that one's exception ends the loop, and every
      response before it was uploaded. */
  lemma ProcessResponsesCharacterised(codec: Codec, kept: seq<Fetched>)
    requires KeysWellFormed(kept)
    ensures var run := ProcessResponses(codec, kept);
      && |run.uploads| <= |kept|
      && (forall i :: 0 <= i < |run.uploads| ==>
            VariantsOf(codec, kept[i]).Ok? && run.uploads[i] == UploadFor(kept[i], VariantsOf(codec, kept[i]).value))
      && (run.failure.None? <==> |run.uploads| == |kept|)
      && (run.failure.Some? ==> VariantsOf(codec, kept[|run.uploads|]) == Err(run.failure.value))
  {
    var steps := ResponseSteps(codec, kept);
    var run := Issue(steps);
    IssueCharacterised(steps);
    forall i | 0 <= i < |run.uploads|
      ensures VariantsOf(codec, kept[i]).Ok? && run.uploads[i] == UploadFor(kept[i], VariantsOf(codec, kept[i]).value)
    {
      ResponseStepMeans(codec, kept[i], steps[i]);
    }
    if run.failure.Some? {
      ResponseStepMeans(codec, kept[|run.uploads|], steps[|run.uploads|]);
    }
  }

  /** A turn issues the upload of the response's variants exactly when they can be
      made, and throws exactly the exception met while making them otherwise. */
  lemma ResponseStepMeans(codec: Codec, response: Fetched, step: Step)
    requires WellFormedKey(response.key) && step == ResponseStep(codec, response)
    ensures step.Ok? <==> VariantsOf(codec, response).Ok?
    ensures step.Ok? ==> step.value == UploadFor(response, VariantsOf(codec, response).value)
    ensures step.Err? ==> VariantsOf(codec, response) == Err(step.error)
  {
  }

  /** `ProcessRecordAsync`: fetch the record's objects, then for each OK response
      derive the destination key, resize to the default catalogue, zip the variants
      under the base name `can` and upload with no tags. `transfers(n)` is how the
      n-th upload of the invocation ends. */
  method ProcessRecord(codec: Codec, record: SnsRecord, outcomes: seq<FetchOutcome>,
                       transfers: nat -> TransferOutcome, attempt: nat)
    returns (uploads: seq<UploadRequest>, failure: Option<ResizeError>)
    requires |record.entries| == |outcomes|
    requires forall j :: 0 <= j < |record.entries| && IsOk(outcomes[j]) ==> WellFormedKey(record.entries[j].key)
    ensures Run(uploads, failure) == RecordRun(codec, record, outcomes)
  {
    var s3Responses, _ := GetS3Responses(record.entries, outcomes);
    KeptKeysWellFormed(record.entries, outcomes);
    var imageSizes := NewDefaultSizes();
    uploads, failure := UploadResponses(codec, s3Responses, imageSizes, transfers, attempt);
  }

  /** The loop of `ProcessRecordAsync` over the kept responses, with the size
      catalogue it built. The upload's boolean result is discarded. */
  method UploadResponses(codec: Codec, s3Responses: seq<Fetched>, imageSizes: seq<ImageSize>,
                         transfers: nat -> TransferOutcome, attempt: nat)
    returns (uploads: seq<UploadRequest>, failure: Option<ResizeError>)
    requires KeysWellFormed(s3Responses) && Snapshot(imageSizes) == DefaultSizes()
    ensures Run(uploads, failure) == ProcessResponses(codec, s3Responses)
  {
    ghost var steps := ResponseSteps(codec, s3Responses);
    uploads, failure := [], None;
    var i := 0;
    assert steps[i..] == steps;
    while i < |s3Responses|
      invariant 0 <= i <= |s3Responses|
      invariant Issue(steps) == Then(uploads, Issue(steps[i..]))
    {
      var response := s3Responses[i];
      IssueStep(steps, i, uploads);
      var filePath := DirectoryName(response.key);
      var fileNameWithoutExtension := FileNameWithoutExtension(response.key);
      var imageBytes := response.body;
      var images := ResizeImg(codec, imageBytes, imageSizes);
      if images.Err? {
        failure := Some(images.error);
        return;
      }
      var zippedFile := CreateZip(BASE_NAME, images.value);
      var zipFileName := filePath + "/" + fileNameWithoutExtension + ".zip";
      assert zipFileName == DestinationKey(response.key);
      var result := UploadFileWithTag(response.bucket, zipFileName, zippedFile, [], transfers(attempt + |uploads|));
      uploads := uploads + [result.request];
      i := i + 1;
    }
    assert steps[i..] == [];
  }

  /** The responses kept from entries whose OK fetches have well-formed keys have
      well-formed keys. */
  lemma KeptKeysWellFormed(entries: seq<Locator>, outcomes: seq<FetchOutcome>)
    requires |entries| == |outcomes|
    requires forall j :: 0 <= j < |entries| && IsOk(outcomes[j]) ==> WellFormedKey(entries[j].key)
    ensures KeysWellFormed(Kept(entries, outcomes))
  {
    var kept := Kept(entries, outcomes);
    forall i | 0 <= i < |kept|
      ensures WellFormedKey(kept[i].key)
    {
      KeptExactlyOk(entries, outcomes, kept[i]);
    }
  }

  /** What `ProcessRecordAsync` does for one record: the response loop over the
      responses kept from the record's fetches. */
  function RecordRun(codec: Codec, record: SnsRecord, outcomes: seq<FetchOutcome>): (run: Run)
    requires |record.entries| == |outcomes|
    requires forall j :: 0 <= j < |record.entries| && IsOk(outcomes[j]) ==> WellFormedKey(record.entries[j].key)
  {
    KeptKeysWellFormed(record.entries, outcomes);
    ProcessResponses(codec, Kept(record.entries, outcomes))
  }

  /** The fetch outcomes match the notification: one list per record, one outcome per entry. */
  predicate Shaped(batch: seq<SnsRecord>, fetches: seq<seq<FetchOutcome>>)
  {
    |batch| == |fetches| && forall i :: 0 <= i < |batch| ==> |batch[i].entries| == |fetches[i]|
  }

  /** Every entry whose fetch is OK, and whose key is therefore handed to the path
      functions, has a key on which they behave as modelled. */
  predicate OkKeysWellFormed(batch: seq<SnsRecord>, fetches: seq<seq<FetchOutcome>>)
    requires Shaped(batch, fetches)
  {
    forall i, j :: 0 <= i < |batch| && 0 <= j < |batch[i].entries| && IsOk(fetches[i][j]) ==>
      WellFormedKey(batch[i].entries[j].key)
  }

  /** The run of every record, in order. */
  function RecordRuns(codec: Codec, batch: seq<SnsRecord>, fetches: seq<seq<FetchOutcome>>): (runs: seq<Run>)
    requires Shaped(batch, fetches) && OkKeysWellFormed(batch, fetches)
  {
    seq(|batch|, i requires 0 <= i < |batch| => RecordRun(codec, batch[i], fetches[i]))
  }

  /** The loop over the records: each record's run, in order, until one ends with an
      exception, which, uncaught, ends the invocation. */
  function HandlerRun(codec: Codec, batch: seq<SnsRecord>, fetches: seq<seq<FetchOutcome>>): (run: Run)
    requires Shaped(batch, fetches) && OkKeysWellFormed(batch, fetches)
  {
    Chain(RecordRuns(codec, batch, fetches))
  }

  /** `FunctionHandler`: processes the records one after the other, in order. */
  method FunctionHandler(codec: Codec, batch: seq<SnsRecord>, fetches: seq<seq<FetchOutcome>>,
                         transfers: nat -> TransferOutcome)
    returns (uploads: seq<UploadRequest>, failure: Option<ResizeError>)
    requires Shaped(batch, fetches) && OkKeysWellFormed(batch, fetches)
    ensures Run(uploads, failure) == HandlerRun(codec, batch, fetches)
  {
    ghost var runs := RecordRuns(codec, batch, fetches);
    uploads, failure := [], None;
    var i := 0;
    assert runs[i..] == runs;
    while i < |batch|
      invariant 0 <= i <= |batch|
      invariant Chain(runs) == Then(uploads, Chain(runs[i..]))
    {
      var recordUploads, recordFailure := ProcessRecord(codec, batch[i], fetches[i], transfers, |uploads|);
      ChainStep(runs, i, uploads);
      uploads := uploads + recordUploads;
      if recordFailure.Some? {
        failure := recordFailure;
        return;
      }
      i := i + 1;
    }
    assert runs[i..] == [];
  }

  /** The kept responses of the records from `from` on, record after record. */
  function AllKept(batch: seq<SnsRecord>, fetches: seq<seq<FetchOutcome>>, from: nat): (kept: seq<Fetched>)
    requires Shaped(batch, fetches) && from <= |batch|
    decreases |batch| - from
  {
    if from == |batch| then [] else Kept(batch[from].entries, fetches[from]) + AllKept(batch, fetches, from + 1)
  }

  /** The turns over two runs of responses are those of the first, then those of the second. */
  lemma ResponseStepsAppend(codec: Codec, a: seq<Fetched>, b: seq<Fetched>)
    requires KeysWellFormed(a) && KeysWellFormed(b)
    ensures KeysWellFormed(a + b)
    ensures ResponseSteps(codec, a + b) == ResponseSteps(codec, a) + ResponseSteps(codec, b)
  {
    forall i | 0 <= i < |a + b|
      ensures WellFormedKey((a + b)[i].key)
      ensures ResponseStep(codec, (a + b)[i]) == (ResponseSteps(codec, a) + ResponseSteps(codec, b))[i]
    {
      if i < |a| {
        assert (a + b)[i] == a[i];
      } else {
        assert (a + b)[i] == b[i - |a|];
      }
    }
  }

  /** The handler is the response loop run over the kept responses of all records,
      record after record: records are handled in order, and an exception in one
      record ends the invocation before any later record is uploaded. */
  lemma {:induction false} HandlerIsSequential(codec: Codec, batch: seq<SnsRecord>, fetches: seq<seq<FetchOutcome>>, from: nat)
    requires Shaped(batch, fetches) && OkKeysWellFormed(batch, fetches) && from <= |batch|
    ensures KeysWellFormed(AllKept(batch, fetches, from))
    ensures Chain(RecordRuns(codec, batch, fetches)[from..]) == ProcessResponses(codec, AllKept(batch, fetches, from))
    decreases |batch| - from
  {
    var runs := RecordRuns(codec, batch, fetches);
    if from == |batch| {
      assert runs[from..] == [];
    } else {
      var kept, rest := Kept(batch[from].entries, fetches[from]), AllKept(batch, fetches, from + 1);
      KeptKeysWellFormed(batch[from].entries, fetches[from]);
      HandlerIsSequential(codec, batch, fetches, from + 1);
      ResponseStepsAppend(codec, kept, rest);
      IssueAppend(ResponseSteps(codec, kept), ResponseSteps(codec, rest));
      assert runs[from..][0] == runs[from] && runs[from..][1..] == runs[from + 1..];
    }
  }

  /** The handler's run is the response loop over all kept responses of the invocation. */
  lemma HandlerIsResponseLoop(codec: Codec, batch: seq<SnsRecord>, fetches: seq<seq<FetchOutcome>>)
    requires Shaped(batch, fetches) && OkKeysWellFormed(batch, fetches)
    ensures KeysWellFormed(AllKept(batch, fetches, 0))
    ensures HandlerRun(codec, batch, fetches) == ProcessResponses(codec, AllKept(batch, fetches, 0))
  {
    HandlerIsSequential(codec, batch, fetches, 0);
    assert RecordRuns(codec, batch, fetches)[0..] == RecordRuns(codec, batch, fetches);
  }

  /** With an image that decodes and fits a JPEG file, and a library that keeps its
      promises, the upload for a response goes to the response's bucket under the
      derived key, with no tags, holding the entries `/can_small`, `/can_medium` and
      `/can_large`, each with the variant of its size. */
  lemma UploadShape(codec: Codec, response: Fetched)
    requires WellFormedKey(response.key)
    requires WellBehaved(codec) && Processable(codec, response.body)
    ensures VariantsOf(codec, response).Ok?
    ensures var upload := UploadFor(response, VariantsOf(codec, response).value);
      && upload.bucketName == response.bucket
      && upload.key == DestinationKey(response.key)
      && upload.tagSet == []
      && |upload.input| == 3
      && upload.input[0].name == "/can_small"
      && upload.input[1].name == "/can_medium"
      && upload.input[2].name == "/can_large"
      && forall k :: 0 <= k < 3 ==>
           upload.input[k].data == VariantFor(codec, response.body, DefaultSizes()[k]).value
  {
    DefaultSizesResize(codec, response.body);
    ResizeAllCharacterised(codec, response.body, DefaultSizes());
    ArchiveEntries(BASE_NAME, VariantsOf(codec, response).value);
  }

  /** When every kept response decodes into an image that fits a JPEG file and the
      library keeps its promises, every kept response is uploaded, in order, and the
      loop ends normally. */
  lemma AllDecodableAllUploaded(codec: Codec, kept: seq<Fetched>)
    requires KeysWellFormed(kept) && WellBehaved(codec)
    requires forall i :: 0 <= i < |kept| ==> Processable(codec, kept[i].body)
    ensures ProcessResponses(codec, kept).failure.None?
    ensures |ProcessResponses(codec, kept).uploads| == |kept|
  {
    var run := ProcessResponses(codec, kept);
    ProcessResponsesCharacterised(codec, kept);
    if run.failure.Some? {
      DefaultSizesResize(codec, kept[|run.uploads|].body);
    }
  }

  /** Every response kept over the records from `from` on came from an OK fetch of
      one of their entries. */
  lemma {:induction false} AllKeptFromOk(batch: seq<SnsRecord>, fetches: seq<seq<FetchOutcome>>, from: nat, f: Fetched)
    requires Shaped(batch, fetches) && from <= |batch|
    requires f in AllKept(batch, fetches, from)
    ensures exists i, j ::
      && from <= i < |batch| && 0 <= j < |fetches[i]|
      && batch[i].entries[j] == Locator(f.bucket, f.key)
      && fetches[i][j] == Response(HTTP_OK, f.body)
    decreases |batch| - from
  {
    if f in Kept(batch[from].entries, fetches[from]) {
      KeptExactlyOk(batch[from].entries, fetches[from], f);
    } else {
      AllKeptFromOk(batch, fetches, from + 1, f);
    }
  }

  /** When every OK fetch of the invocation returns an image that decodes and fits a
      JPEG file, and the library keeps its promises, the handler uploads exactly one
      archive per kept response, in record and entry order, and ends normally. */
  lemma HandlerUploadsEveryKept(codec: Codec, batch: seq<SnsRecord>, fetches: seq<seq<FetchOutcome>>)
    requires Shaped(batch, fetches) && OkKeysWellFormed(batch, fetches) && WellBehaved(codec)
    requires forall i, j :: 0 <= i < |fetches| && 0 <= j < |fetches[i]| && IsOk(fetches[i][j]) ==>
      Processable(codec, fetches[i][j].body)
    ensures KeysWellFormed(AllKept(batch, fetches, 0))
    ensures var run := HandlerRun(codec, batch, fetches);
      && run.failure.None?
      && |run.uploads| == |AllKept(batch, fetches, 0)|
      && forall k :: 0 <= k < |run.uploads| ==>
           && VariantsOf(codec, AllKept(batch, fetches, 0)[k]).Ok?
           && run.uploads[k] == UploadFor(AllKept(batch, fetches, 0)[k], VariantsOf(codec, AllKept(batch, fetches, 0)[k]).value)
  {
    var kept := AllKept(batch, fetches, 0);
    HandlerIsResponseLoop(codec, batch, fetches);
    forall k | 0 <= k < |kept|
      ensures Processable(codec, kept[k].body)
    {
      AllKeptFromOk(batch, fetches, 0, kept[k]);
    }
    AllDecodableAllUploaded(codec, kept);
    ProcessResponsesCharacterised(codec, kept);
  }

  /** An image that does not decode ends the invocation with an exception, and
      neither it nor any response after it is uploaded. */
  lemma UndecodableStopsBatch(codec: Codec, batch: seq<SnsRecord>, fetches: seq<seq<FetchOutcome>>, p: nat)
    requires Shaped(batch, fetches) && OkKeysWellFormed(batch, fetches)
    requires p < |AllKept(batch, fetches, 0)| && codec.load(AllKept(batch, fetches, 0)[p].body).None?
    ensures HandlerRun(codec, batch, fetches).failure.Some?
    ensures |HandlerRun(codec, batch, fetches).uploads| <= p
  {
    HandlerIsResponseLoop(codec, batch, fetches);
    ProcessResponsesCharacterised(codec, AllKept(batch, fetches, 0));
    UndecodableAbortsAll(codec, AllKept(batch, fetches, 0)[p].body, DefaultSizes());
  }

  /** A notification with two entries whose first fetch is not OK: the first is
      skipped and only the second is uploaded, and the invocation ends normally. */
  lemma FailedFetchSkipped(codec: Codec, a: Locator, b: Locator, missed: FetchOutcome, body: Bytes)
    requires WellFormedKey(b.key)
    requires !IsOk(missed) && WellBehaved(codec) && Processable(codec, body)
    ensures Shaped([SnsRecord([a, b])], [[missed, Response(HTTP_OK, body)]])
    ensures OkKeysWellFormed([SnsRecord([a, b])], [[missed, Response(HTTP_OK, body)]])
    ensures var response := Fetched(b.bucket, b.key, body);
      VariantsOf(codec, response).Ok? &&
      HandlerRun(codec, [SnsRecord([a, b])], [[missed, Response(HTTP_OK, body)]]) ==
        Run([UploadFor(response, VariantsOf(codec, response).value)], None)
  {
    var batch := [SnsRecord([a, b])];
    var fetches := [[missed, Response(HTTP_OK, body)]];
    var response := Fetched(b.bucket, b.key, body);
    assert Kept([a, b], fetches[0]) == [response] by {
      assert [a, b][..1] == [a] && fetches[0][..1] == [missed];
      assert [a][..0] == [] && [missed][..0] == [];
      assert Kept([a], [missed]) == Kept([], []) + [];
      assert IsOk(fetches[0][1]);
    }
    DefaultSizesResize(codec, body);
    HandlerIsResponseLoop(codec, batch, fetches);
    assert AllKept(batch, fetches, 0) == [response] by {
      assert AllKept(batch, fetches, 1) == [];
    }
    SingleResponse(codec, response);
  }

  /** A single response whose variants can be made gives exactly its upload. */
  lemma SingleResponse(codec: Codec, response: Fetched)
    requires WellFormedKey(response.key) && VariantsOf(codec, response).Ok?
    ensures ProcessResponses(codec, [response]) == Run([UploadFor(response, VariantsOf(codec, response).value)], None)
  {
    ProcessResponsesCharacterised(codec, [response]);
  }
}
