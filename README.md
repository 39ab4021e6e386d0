# LambdaSnsToS3Test in Dafny

This project models the core of the `LambdaSnsToS3Test` AWS Lambda function and
proves properties of the model. The function receives an SNS notification whose
messages carry S3 storage-change events. For every object named there it:

- fetches the object and keeps it only when the response status is OK;
- resizes the image to a catalogue of three sizes (`small` 400×400, `medium`
  1000×1000, `large` 1600×1600), collecting the JPEG variants in a dictionary
  keyed by size name;
- zips the variants into entries `/can_<size>`;
- uploads the zip next to the source object as `<dir>/<stem>.zip`, with no tags.

Modules, one per component:

- `Common`: bytes, `int32`, `Option` and `Result`.
- `ImageSizes`: the `ImageSize` class and the default catalogue.
- `Paths`: destination-key derivation on `/`-separated keys.
- `Imaging`: the image library as an abstract `Codec`, and the resize guard.
- `Dictionaries`: the insertion-ordered .NET `Dictionary`, whose `Add` throws on a
  duplicate key.
- `Resizing`: the `ResizeImg` loop.
- `Archiving`: the `CreateZip` loop, over an entry list.
- `Fetching`: the `GetS3ResponsesAsync` loop.
- `Uploading`: `UploadFileWithTagAsync`.
- `Runs`: the shape shared by the two upload loops: turns in order, the first
  exception ends the loop.
- `Handler`: `ProcessRecordAsync` and `FunctionHandler`.

The loops of the C# code are Dafny methods with loop invariants. Each is proved
equal to a specification function (`ResizeAll`, `ArchiveOf`, `Kept`/`FailureLog`,
`ProcessResponses`, `HandlerRun`), and the lemmas state what those functions
promise.

Four behaviours of the C# code that the model keeps as written:

- An exception thrown while resizing (undecodable bytes, a library failure, a
  JPEG encoder failure, a duplicate size name) is not caught anywhere. It leaves
  `ResizeImg`, `ProcessRecordAsync` and `FunctionHandler`, so the rest of the
  batch is not processed.
- A decode failure ends the whole `ResizeImg` call; there is no per-size guard.
- The resize guard skips the resize when either side already matches, so an
  image 400 pixels wide and 70000 pixels tall reaches the JPEG encoder at its
  own size, and the encoder refuses it.
- A key without a directory gets a destination with a leading `/`: `a.tar.gz`
  goes to `/a.tar.zip`, not `a.tar.zip`.

## Model

| member | source | states |
|---|---|---|
| ImageSizes.ImageSize.constructor | LambdaSnsToS3Test/Models/ImageSize.cs:5-10 | the three arguments are stored unchanged; nothing is validated |
| ImageSizes.ImageSize.SetKey | LambdaSnsToS3Test/Models/ImageSize.cs:11 | sets `Key`, leaves `Width` and `Height` unchanged |
| ImageSizes.ImageSize.SetWidth | LambdaSnsToS3Test/Models/ImageSize.cs:12 | sets `Width`, leaves `Key` and `Height` unchanged |
| ImageSizes.ImageSize.SetHeight | LambdaSnsToS3Test/Models/ImageSize.cs:13 | sets `Height`, leaves `Key` and `Width` unchanged |
| ImageSizes.DefaultSizes | LambdaSnsToS3Test/Function.cs:75-80 | the catalogue as values: small 400×400, medium 1000×1000, large 1600×1600, in that order; properties in `DefaultSizesWellFormed` |
| ImageSizes.NewDefaultSizes | LambdaSnsToS3Test/Function.cs:75-80 | builds three fresh objects holding small 400×400, medium 1000×1000 and large 1600×1600, in that order |
| ImageSizes.DefaultSizesWellFormed | LambdaSnsToS3Test/Function.cs:75-80 | the catalogue's names are pairwise different and its dimensions positive |
| Paths.DirectoryName | LambdaSnsToS3Test/Function.cs:88 | `Path.GetDirectoryName` on `/` keys: the part before the last `/`, empty when there is none; properties in `SplitAtLastSlash` |
| Paths.FileName | LambdaSnsToS3Test/Function.cs:89 | the part after the last `/`; properties in `SplitAtLastSlash` |
| Paths.FileNameWithoutExtension | LambdaSnsToS3Test/Function.cs:89 | `Path.GetFileNameWithoutExtension`: the file name cut at its last `.`; properties in `StemIsPrefixOfFileName` |
| Paths.DestinationKey | LambdaSnsToS3Test/Function.cs:104 | `{filePath}/{fileNameWithoutExtension}.zip`; properties in `DestinationShape`, `DestinationRoundTrip` and the examples |
| Paths.LastIndexOf | LambdaSnsToS3Test/Function.cs:88-89 | the index of the last occurrence of the character, or -1 exactly when there is none |
| Paths.SplitAtLastSlash | LambdaSnsToS3Test/Function.cs:88-89 | a key with a `/` is its directory name, a `/` and its file name; the file name holds no `/` |
| Paths.StemIsPrefixOfFileName | LambdaSnsToS3Test/Function.cs:89 | the stem is a prefix of the file name and holds no `/` |
| Paths.DestinationShape | LambdaSnsToS3Test/Function.cs:104 | a key with a directory is directory + `/` + file name, and its destination is again a well-formed key; a key without one gets `/` + stem + `.zip` |
| Paths.DestinationWellFormed | LambdaSnsToS3Test/Function.cs:104 | the destination of a well-formed key with a directory is well formed |
| Paths.DestinationRoundTrip | LambdaSnsToS3Test/Function.cs:104 | the zip lands next to its source: same directory name, file name stem + `.zip`, same stem |
| Paths.DestinationOfParts | LambdaSnsToS3Test/Function.cs:104 | `dir/stem.ext` is archived to `dir/stem.zip` whenever `ext` holds no `.` |
| Paths.DestinationOfBareName | LambdaSnsToS3Test/Function.cs:104 | `stem.ext` without a directory is archived to `/stem.zip` |
| Paths.DestinationOfPlainName | LambdaSnsToS3Test/Function.cs:89-104 | `dir/name` whose name holds no `.` is archived to `dir/name.zip`: the whole name is the stem |
| Paths.DestinationExampleNested | LambdaSnsToS3Test/Function.cs:104 | `photos/2023/img.png` goes to `photos/2023/img.zip` |
| Paths.DestinationExampleNoDirectory | LambdaSnsToS3Test/Function.cs:104 | `img.png` goes to `/img.zip` |
| Paths.DestinationExampleDoubleExtension | LambdaSnsToS3Test/Function.cs:104 | `dir/a.tar.gz` goes to `dir/a.tar.zip`: only the last extension is dropped |
| Paths.DestinationExampleDoubleExtensionNoDirectory | LambdaSnsToS3Test/Function.cs:104 | `a.tar.gz` goes to `/a.tar.zip` |
| Paths.DestinationExampleNoExtension | LambdaSnsToS3Test/Function.cs:89-104 | `dir/README` goes to `dir/README.zip` |
| Paths.DestinationExampleDotFile | LambdaSnsToS3Test/Function.cs:89-104 | `d/.profile` goes to `d/.zip`: the stem of a dot-file is empty |
| Imaging.NeedsResize | LambdaSnsToS3Test/Function.cs:209 | the guard: true only when both the width and the height differ from the target; properties in `TransformDimensions` |
| Imaging.Transform | LambdaSnsToS3Test/Function.cs:209 | the guarded resize step; properties in `TransformDimensions` and `OneSideMatchingSkipsResize` |
| Imaging.TransformDimensions | LambdaSnsToS3Test/Function.cs:209 | with a positive target, the image ends at the target when both sides differed, and keeps its own dimensions otherwise |
| Imaging.OneSideMatchingSkipsResize | LambdaSnsToS3Test/Function.cs:209 | when one side already matches, the image passes through untouched, whatever the library would do |
| Imaging.TransformMatchesSomeSide | LambdaSnsToS3Test/Function.cs:209 | afterwards at least one side equals the target, and both do exactly when the image was resized or already had the target size |
| Dictionaries.Add | LambdaSnsToS3Test/Function.cs:215 | fails exactly when the key is present; otherwise appends the entry and keeps the keys distinct |
| Dictionaries.Lookup | LambdaSnsToS3Test/Function.cs:215 | absent exactly when the key is missing; a found value is stored under that key |
| Dictionaries.LookupFindsEntry | LambdaSnsToS3Test/Function.cs:215 | with distinct keys, looking up a stored key finds its own value |
| Resizing.VariantFor | LambdaSnsToS3Test/Function.cs:207-214 | one size's variant: load, guarded resize, JPEG encoding, or the exception of the step that threw; properties in `VariantDimensions` and `TallImageRejected` |
| Resizing.ResizeAll | LambdaSnsToS3Test/Function.cs:203-220 | the loop's outcome over a list of sizes; properties in `ResizeAllCharacterised` and `ErrorPersists` |
| Resizing.ResizeImg | LambdaSnsToS3Test/Function.cs:201-221 | the loop's result is `ResizeAll` over the current properties of the size objects |
| Resizing.ResizeStep | LambdaSnsToS3Test/Function.cs:205-216 | one turn: a failed variant or a repeated name ends the whole call with that exception, otherwise the variant is appended |
| Resizing.ErrorPersists | LambdaSnsToS3Test/Function.cs:205-218 | once an exception is thrown, the later sizes change nothing |
| Resizing.ResizeAllCharacterised | LambdaSnsToS3Test/Function.cs:203-220 | success exactly when the names are distinct and every size's own variant succeeds; then one entry per size, in catalogue order, named by the size and holding that size's variant of the original bytes |
| Resizing.NamesCarryOver | LambdaSnsToS3Test/Function.cs:215 | the last size's name is already present exactly when the names are not all distinct |
| Resizing.UndecodableAbortsAll | LambdaSnsToS3Test/Function.cs:205-207 | undecodable bytes make the whole call throw on the first size |
| Resizing.VariantDimensions | LambdaSnsToS3Test/Function.cs:207-214 | when the library keeps its promises, an image that fits a JPEG file and a target that does give a variant, and it loads back at the dimensions the resize guard chose |
| Resizing.DefaultSizesResize | LambdaSnsToS3Test/Function.cs:75-80 | the default catalogue never throws a duplicate name; when the library keeps its promises and the image decodes and fits a JPEG file, it yields small, medium and large in that order |
| Resizing.TallImageRejected | LambdaSnsToS3Test/Function.cs:209-213 | an image 400 wide skips the resize for `small`, so when the encoder refuses it at its own size the whole call throws on `small` |
| Resizing.DuplicateNeedsRepeatedName | LambdaSnsToS3Test/Function.cs:215 | a duplicate-name exception needs two sizes with the same name |
| Archiving.EntryName | LambdaSnsToS3Test/Function.cs:188 | `/{fileName}_{key}`; properties in `EntryNameRoundTrip` and `EntryNameInjective` |
| Archiving.EntryNameRoundTrip | LambdaSnsToS3Test/Function.cs:188 | an entry name starts with `/` and gives its size name back |
| Archiving.EntryNameInjective | LambdaSnsToS3Test/Function.cs:188 | different size names give different entry names |
| Archiving.ArchiveOf | LambdaSnsToS3Test/Function.cs:186-193 | one entry per variant |
| Archiving.CreateZip | LambdaSnsToS3Test/Function.cs:179-199 | entry i is named `/` + base name + `_` + key i and holds variant i's bytes, one entry per variant |
| Archiving.ArchiveEntries | LambdaSnsToS3Test/Function.cs:186-192 | entry i of the archive is named after variant i and holds its bytes |
| Archiving.ExtractRoundTrip | LambdaSnsToS3Test/Function.cs:186-192 | reading the archive by entry name gives what the dictionary holds under that size name, and nothing for a missing name |
| Archiving.ArchiveNamesDistinct | LambdaSnsToS3Test/Function.cs:188 | distinct size names give distinct entry names |
| Fetching.IsOk | LambdaSnsToS3Test/Function.cs:161 | a non-null response with status 200 |
| Fetching.Kept | LambdaSnsToS3Test/Function.cs:148-172 | the OK responses in entry order; properties in `KeptExactlyOk` and `KeptConcat` |
| Fetching.FailureLog | LambdaSnsToS3Test/Function.cs:165-168 | one log line per entry whose fetch was not OK, in entry order; properties in `FailureLogExactlyNotOk` and `KeptOrLogged` |
| Fetching.GetS3Responses | LambdaSnsToS3Test/Function.cs:142-173 | the kept responses and the log lines are `Kept` and `FailureLog` of the entries and their outcomes |
| Fetching.KeptExactlyOk | LambdaSnsToS3Test/Function.cs:159-164 | a response is kept exactly when an entry asked for its bucket and key and got an OK response with its body |
| Fetching.FailureMessage | LambdaSnsToS3Test/Function.cs:167 | the text `S3 Retrieve Object Failed: key-<key>`; properties in `FailureLogExactlyNotOk` |
| Fetching.FailureLogExactlyNotOk | LambdaSnsToS3Test/Function.cs:161-168 | a line is logged exactly when some entry's fetch was not OK (null or another status) and the line names that entry's key |
| Fetching.KeptOrLogged | LambdaSnsToS3Test/Function.cs:161-168 | the kept responses and the log lines together number the entries; with `KeptExactlyOk` and `FailureLogExactlyNotOk`, each entry is kept or logged, never both |
| Fetching.KeptConcat | LambdaSnsToS3Test/Function.cs:148-170 | filtering preserves entry order |
| Fetching.AllOkAllKept | LambdaSnsToS3Test/Function.cs:148-172 | when every fetch is OK, every entry is kept in order and nothing is logged |
| Uploading.TagSet | LambdaSnsToS3Test/Function.cs:125-129 | one tag per dictionary pair; properties in `TagSetRoundTrip` |
| Uploading.RequestFor | LambdaSnsToS3Test/Function.cs:121-131 | the transfer request: bucket, key, tag list and archive; properties in `UploadFileWithTag` |
| Uploading.TagSetRoundTrip | LambdaSnsToS3Test/Function.cs:125-129 | one tag per dictionary pair, same key and value, in order |
| Uploading.UploadFileWithTag | LambdaSnsToS3Test/Function.cs:114-140 | returns true exactly when the transfer completed; an exception becomes false; the request carries the bucket, the path, the bytes and the tags |
| Runs.Issue | LambdaSnsToS3Test/Function.cs:86-109 | a loop of turns in order, where the first uncaught exception ends the loop and the uploads already issued stay issued; properties in `IssueCharacterised` and `IssueAppend` |
| Runs.IssueCharacterised | LambdaSnsToS3Test/Function.cs:86-109 | each turn before the first exception issues exactly its upload, in order; the loop ends normally exactly when no turn throws, otherwise with the first exception |
| Runs.IssueStep | LambdaSnsToS3Test/Function.cs:86-109 | one turn of the response loop: it throws and ends the loop, or appends its upload |
| Runs.IssueAppend | LambdaSnsToS3Test/Function.cs:63-66 | the turns of two consecutive loops are the first loop and, unless it threw, then the second |
| Runs.Chain | LambdaSnsToS3Test/Function.cs:63-66 | the record loop: each record's run in order until one ends with an exception; properties in `ChainStep` |
| Runs.ChainStep | LambdaSnsToS3Test/Function.cs:63-66 | one turn of the record loop: a record that threw ends the invocation, otherwise its uploads are appended |
| Handler.VariantsOf | LambdaSnsToS3Test/Function.cs:99 | `ResizeImg` of the response's bytes on the default catalogue; properties in `DefaultSizesResize` and `UploadShape` |
| Handler.ResponseStep | LambdaSnsToS3Test/Function.cs:88-106 | one turn of the response loop: the upload of the response's archive, or the resize exception; properties in `ResponseStepMeans` |
| Handler.UploadFor | LambdaSnsToS3Test/Function.cs:102-106 | the upload for a kept response; properties in `UploadShape` |
| Handler.ProcessResponses | LambdaSnsToS3Test/Function.cs:86-109 | the response loop's uploads and exception; properties in `ProcessResponsesCharacterised` |
| Handler.RecordRun | LambdaSnsToS3Test/Function.cs:69-112 | one record's run: the response loop over its kept responses; properties in `ProcessRecord` |
| Handler.HandlerRun | LambdaSnsToS3Test/Function.cs:61-67 | the record runs chained in order; properties in `FunctionHandler` and `HandlerIsResponseLoop` |
| Handler.ProcessResponsesCharacterised | LambdaSnsToS3Test/Function.cs:86-109 | every kept response yields exactly one upload to its bucket under its derived key with the archive of its variants and no tags, in order, until the first response whose variants fail; that exception ends the loop |
| Handler.ResponseStepMeans | LambdaSnsToS3Test/Function.cs:99-106 | a turn uploads exactly when the variants can be made, and throws their exception otherwise |
| Handler.ProcessRecord | LambdaSnsToS3Test/Function.cs:69-112 | the record's uploads and exception are the response loop over the responses kept from its fetches |
| Handler.UploadResponses | LambdaSnsToS3Test/Function.cs:86-109 | the loop's uploads and exception are `ProcessResponses`, whatever the transfers return |
| Handler.KeptKeysWellFormed | LambdaSnsToS3Test/Function.cs:150-163 | responses kept from well-formed entries have well-formed keys |
| Handler.FunctionHandler | LambdaSnsToS3Test/Function.cs:61-67 | the invocation's uploads and exception are the records' runs chained in order, stopping at the first exception |
| Handler.ResponseStepsAppend | LambdaSnsToS3Test/Function.cs:86 | the turns over two runs of responses are those of the first, then those of the second |
| Handler.HandlerIsSequential | LambdaSnsToS3Test/Function.cs:63-66 | the records from any point on act as one response loop over all their kept responses, record after record |
| Handler.HandlerIsResponseLoop | LambdaSnsToS3Test/Function.cs:61-67 | the whole invocation is one response loop over all kept responses of all records, in order |
| Handler.UploadShape | LambdaSnsToS3Test/Function.cs:102-106 | when the library keeps its promises, an image that decodes and fits a JPEG file gives an upload to the response's bucket, under the derived key, with no tags and the entries `/can_small`, `/can_medium`, `/can_large` holding their variants |
| Handler.AllDecodableAllUploaded | LambdaSnsToS3Test/Function.cs:86-109 | when the library keeps its promises and every kept image decodes and fits a JPEG file, every kept response is uploaded and the loop ends normally |
| Handler.AllKeptFromOk | LambdaSnsToS3Test/Function.cs:159-164 | every kept response came from an OK fetch of one of the entries |
| Handler.HandlerUploadsEveryKept | LambdaSnsToS3Test/Function.cs:61-112 | when the library keeps its promises and every OK fetch decodes and fits a JPEG file, exactly one upload per kept response, in record and entry order, and the invocation ends normally |
| Handler.UndecodableStopsBatch | LambdaSnsToS3Test/Function.cs:61-112 | an undecodable image ends the invocation with an exception; neither it nor any later response is uploaded |
| Handler.FailedFetchSkipped | LambdaSnsToS3Test/Function.cs:159-168 | a failed fetch is skipped, its key unconstrained: only the other entry, whose image decodes and fits a JPEG file, of the notification is uploaded, and the invocation ends normally |
| Handler.SingleResponse | LambdaSnsToS3Test/Function.cs:86-109 | one response whose variants can be made gives exactly its upload |

## Left out

- ImageSharp's decoding, resizing and JPEG encoding are an abstract `Codec` of three functions. Only dimensions are modelled; pixel work, colour and float arithmetic are not.
- The library's promises are stated as predicates on the codec. `ResizesExactly`: a positive target is reached exactly. `EncodesFitting`: the JPEG encoder accepts every image whose sides are below 65535. `JpegKeepsDimensions`: a saved JPEG loads back at its size. The lemmas that need them take them as hypotheses; any codec failure is a modelled exception.
- Targets of zero or negative size are handed to the codec unchanged. What ImageSharp does with them is the codec's business.
- `Image.Mutate` is modelled on values: the resized image replaces the loaded one.
- The ZIP/Deflate byte encoding of `ZipArchive` is not modelled. The archive is its ordered entry list.
- S3 `GetObjectAsync`, `TransferUtility.UploadAsync` and the stream copying are network I/O. Each fetch's outcome is an input. How the n-th upload of an invocation ends is the input function `transfers`.
- An exception thrown by `GetObjectAsync` itself is not modelled. A null response is modelled.
- Newtonsoft deserialisation of the nested S3 event is a foreign parser. Each record's `(bucket, key)` list is an input.
- The environment-variable scan is not modelled: it reads process state and its result is never used.
- `Convert` is not modelled: it is never called.
- Lambda logging is left out, except the fetch-failure lines, which are returned as a log sequence.
- The two `Function` constructors only create the S3 client, so they are left out.
- `async`/`await` is not modelled; the control flow is sequential.
- Paths: only `/` is a separator, as on the Lambda runtime. Windows `Path` behaviour is not modelled.
- DestinationKey: keys that are empty, start or end with `/`, or contain `//` are excluded by `WellFormedKey`. On such keys `Path.GetDirectoryName` returns null or normalises the path; the model does not cover that.
- ProcessRecord: requires well-formed keys for the entries whose fetch is OK, for the same reason.
- UploadResponses: requires well-formed kept keys, for the same reason.
- FunctionHandler: requires well-formed keys for the entries whose fetch is OK, for the same reason. It also requires one fetch outcome per entry.
- 32-bit `int` overflow does not arise: widths and heights are `int32` values and are never computed with.
