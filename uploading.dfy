/** `UploadFileWithTagAsync`: one transfer attempt whose exception, if any, is
    turned into `false`. The transfer itself is not modelled: whether it completes
    is an input. */
module Uploading {
  import opened Common
  import opened Dictionaries
  import opened Archiving

  /** An S3 object tag. */
  datatype Tag = Tag(key: string, value: string)

  /** How `TransferUtility.UploadAsync` ended: it completed, or it threw. */
  datatype TransferOutcome = Completed | Threw(message: string)

  /** The `TransferUtilityUploadRequest` handed to the transfer utility. */
  datatype UploadRequest = UploadRequest(bucketName: string, key: string, tagSet: seq<Tag>, input: Archive)

  /** The request that was issued, and the boolean the method returns. */
  datatype UploadAttempt = UploadAttempt(request: UploadRequest, succeeded: bool)

  /** `tags.Select(x => new Tag { Key = x.Key, Value = x.Value }).ToList()`. */
  function TagSet(tags: Dict<string>): (tagList: seq<Tag>)
  {
    seq(|tags|, i requires 0 <= i < |tags| => Tag(tags[i].key, tags[i].value))
  }

  /** The tag list read back as key/value pairs. */
  function TagPairs(tagSet: seq<Tag>): (pairs: Dict<string>)
  {
    seq(|tagSet|, i requires 0 <= i < |tagSet| => Entry(tagSet[i].key, tagSet[i].value))
  }

  /** The tag list has one tag per dictionary pair, same key and same value, in
      order: reading it back gives the dictionary again. */
  lemma TagSetRoundTrip(tags: Dict<string>)
    ensures |TagSet(tags)| == |tags|
    ensures TagPairs(TagSet(tags)) == tags
  {
    assert forall i :: 0 <= i < |tags| ==> TagPairs(TagSet(tags))[i] == tags[i];
  }

  /** The request built for a bucket, a key, the archive and the tags. */
  function RequestFor(bucket: string, path: string, bytes: Archive, tags: Dict<string>): (request: UploadRequest)
  {
    UploadRequest(bucket, path, TagSet(tags), bytes)
  }

  /** `UploadFileWithTagAsync`: issues the request; returns true exactly when the
      transfer completed; an exception becomes false and is never propagated. */
  function UploadFileWithTag(bucket: string, path: string, bytes: Archive, tags: Dict<string>,
                             outcome: TransferOutcome): (attempt: UploadAttempt)
    ensures attempt.succeeded <==> outcome == Completed
    ensures attempt.request == RequestFor(bucket, path, bytes, tags)
    ensures TagPairs(attempt.request.tagSet) == tags
  {
    TagSetRoundTrip(tags);
    UploadAttempt(RequestFor(bucket, path, bytes, tags), outcome.Completed?)
  }
}
