# Cosapi upload engine: a verified model

This project models the client object of the Tencent Cloud object storage
C++ SDK (`Tencentyun::Cosapi`, src/Cosapi.cpp). Its core is the resumable
upload engine:

- `genFileSHA1AndLen` hashes a file in 2 MiB blocks and renders the digest
  as lowercase hex.
- `upload_prepare` negotiates an upload session with the service.
- `upload_slice` checks the source file, prepares, classifies the
  service's reply and, on a go-ahead, hands the service's offset, slice
  size and session to the transfer loop.
- `upload_data` is the transfer loop. It sends one slice per pass,
  advances by the full slice size and stops at the first nonzero code.

Around the core sit:

- the one-shot `upload`;
- the metadata operations `createFolder`, `list`, `update`, `stat` and
  `del`;
- the builders of URLs, file ids, query strings, JSON bodies and multipart
  forms;
- the object's result state (`response_str`, `retCode`, `retMsg`,
  `retJson`), with `reset`, the libcurl write callback and the parsing at
  the end of `sendRequest`.

Modules, in dependency order:

| module | file | contents |
|---|---|---|
| `Common` | numerals.dfy | `Option`, `%lu`/`%d` decimal rendering and its parser |
| `Hex` | hex.dfy | the `hexBytes` table and hex rendering of a digest |
| `ContentHash` | content_hash.dfy | the block-feeding hash loop |
| `Wire` | wire.dfy | JSON values, requests, the response buffer, `reset`, the normalisation in `sendRequest`, and the environment |
| `Builders` | builders.dfy | URLs, file id, queries, JSON bodies, forms |
| `SliceTransfer` | transfer.dfy | the slice loop as a specification, and its schedule |
| `UploadFlow` | upload.dfy | `upload` and `upload_slice` as specifications |
| `Client` | cosapi.dfy | the `Cosapi` class: fields updated in place, and one method per operation |

Everything the object cannot see is a parameter of type `Wire.Env`:

- the file system, as path ↦ optional bytes;
- SHA-1, as an opaque function from the bytes fed to a 20-byte digest;
- the two signers, as opaque functions to token strings;
- the clock, as a number `now`;
- the network, as request ↦ the chunks the write callback receives;
- the JSON parser, as string ↦ optional value.

The class keeps a ghost log `sent` of the requests it has issued. Each
method of `Client.Cosapi` is proved to leave the state and append the
requests that its specification function in `Wire`, `SliceTransfer` or
`UploadFlow` describes. The lemmas about those functions state what the
source promises.

Three behaviours of `upload_slice` worth knowing, all modelled as the
source has them:

- A prepare reply with code 0 that lacks one of `offset`, `session` or
  `slice_size` ends `upload_slice` with code 0. The source does not report
  it as an error (src/Cosapi.cpp:310-314).
- A dedup hit ends with the prepare reply's code (0). The resource URL is
  only in `retJson` (src/Cosapi.cpp:305-308).
- A zero `slice_size` from the service is not rejected, and the loop would
  then never advance (src/Cosapi.cpp:418-460). The model excludes it by a
  precondition (see Left out).

## Model

| member | source | states |
|---|---|---|
| Common.Decimal | src/Cosapi.cpp:346 | the `%lu` text of a non-negative number: its decimal digits, most significant first |
| Common.SignedDecimal | src/Cosapi.cpp:516-519 | the `%d` text of an integer: a minus sign before the magnitude when negative |
| Common.DecimalDigits | src/Cosapi.cpp:346 | `%lu` output is a non-empty run of digits with no leading zero, except for 0 itself |
| Common.DecimalRoundTrip | src/Cosapi.cpp:346 | the `%lu` text of `filesize` (and of `offset` and `slice_size`) reads back as the number it was printed from |
| Common.DecimalInjective | src/Cosapi.cpp:432-433 | distinct offsets print as distinct texts, so a slice's `offset` field identifies its position |
| Common.SignedDecimalRoundTrip | src/Cosapi.cpp:516-519 | the `%d` text of `num` and `order`, negative values included, reads back as the value |
| Hex.HexBytesEntry | src/Cosapi.cpp:37-39 | entry `v` of the 16-entry table is a lowercase hex digit that denotes `v` |
| Hex.HexPair | src/Cosapi.cpp:73-74 | each digest byte contributes exactly two characters |
| Hex.HexEncode | src/Cosapi.cpp:71-75 | the rendering is twice as long as the digest |
| Hex.HexEncodeAt | src/Cosapi.cpp:71-75 | character 2i is the high nibble of byte i and character 2i+1 its low nibble, both lowercase hex digits |
| Hex.HexEncodeLowercase | src/Cosapi.cpp:71-75 | every character of the rendering is in `0-9a-f` |
| Hex.HexEncodeInjective | src/Cosapi.cpp:71-75 | distinct digests render to distinct strings |
| Hex.RenderHex | src/Cosapi.cpp:71-75 | the appending loop produces exactly the hex rendering of the digest |
| ContentHash.Blocks | src/Cosapi.cpp:60-65 | the blocks a `while (!eof) read(buf, 2 MiB)` loop obtains: full blocks, then a final short (possibly empty) one |
| ContentHash.BlocksConcat | src/Cosapi.cpp:60-65 | the blocks the read loop feeds concatenate to the whole file, for any block size |
| ContentHash.BlocksShape | src/Cosapi.cpp:60-65 | there are size/2MiB + 1 blocks: all full but the last, which holds the remainder and is empty when 2 MiB divides the size (the empty file included) |
| ContentHash.ReadStep | src/Cosapi.cpp:60-65 | one read takes the next block of the schedule, and the bytes fed so far grow by exactly that block |
| ContentHash.GenFileSha1AndLen | src/Cosapi.cpp:33-78 | an unopenable file gives "" and feeds nothing; otherwise the blocks fed are the schedule's (each at most 2 MiB), the length is the file's, and the result is the hex of the SHA-1 of the file's bytes |
| ContentHash.Sha1HexShape | src/Cosapi.cpp:71-75 | the rendered SHA-1 is 40 lowercase hex characters |
| Wire.AsInt | src/Cosapi.cpp:199 | `asInt()` of the reply's `code`: an integer in the C `int` range (non-converting kinds and out-of-range values read as 0) |
| Wire.AsString | src/Cosapi.cpp:320 | `asString()`: strings as they are, numbers as their decimal text, other kinds as "" |
| Wire.Member | src/Cosapi.cpp:305-320 | `v[key]` on an object: the member, or null when it is missing |
| Wire.UpToNul | src/Cosapi.cpp:25-28 | what one callback appends: the chunk up to its first NUL byte |
| Wire.Received | src/Cosapi.cpp:16-30 | the buffer after a reply arrives in chunks: each chunk's pre-NUL bytes, in order |
| Wire.Cleared | src/Cosapi.cpp:102 | jsoncpp `clear()`: an object or array loses its members and null stays null. `retJson` can only hold a scalar after a throwing `operator[]` (see Left out); the model maps a scalar to null |
| Wire.Reset | src/Cosapi.cpp:98-103 | `reset()` on the four result fields |
| Wire.Subscripted | src/Cosapi.cpp:199-200 | a non-const `retJson[key]`: a null value becomes an object, a missing key gets a null member, the key set grows by exactly that key, and every member reads as before |
| Wire.StoredReply | src/Cosapi.cpp:197-200 | `retJson` after the two reads: the parsed reply with a null `code` and `message` added where missing (a null reply becomes an object of just those two), every member reading as in the reply |
| Wire.Normalize | src/Cosapi.cpp:197-204 | the end of `sendRequest`: a parsed body becomes `retJson` as the two reads leave it, and supplies code and message; a failed parse gives the network-error code and message |
| Wire.Exchange | src/Cosapi.cpp:143-207 | `sendRequest`: the reply is appended to the buffer, then the whole buffer is parsed and normalised |
| Wire.Issue | src/Cosapi.cpp:98-207 | how every operation issues a request: `reset()`, then `sendRequest` |
| Wire.ReplyCode | src/Cosapi.cpp:197-204 | the code a reply stands for: its `code` member, or the network error when it does not parse |
| Wire.ReplyMessage | src/Cosapi.cpp:197-204 | the message a reply stands for: its `message` member, or "net work err..." when it does not parse |
| Wire.AsUInt64 | src/Cosapi.cpp:316-320 | a value read as `uint64_t` is below 2^64 |
| Wire.ReceivedWithoutNul | src/Cosapi.cpp:16-30 | a reply without NUL bytes reaches the buffer whole, however libcurl splits it |
| Wire.ResetClears | src/Cosapi.cpp:98-103 | after `reset()` the buffer and message are empty, the code is 0 and the JSON value is empty; resetting twice equals resetting once |
| Wire.IssueReply | src/Cosapi.cpp:197-204 | after reset-then-send, the code, the message and the buffer are the reply's own, whatever the state before, and when the reply parses `retJson` is the reply with the members the two reads add |
| Wire.IssueOutcome | src/Cosapi.cpp:197-204 | after reset-then-send the buffer is exactly the reply. A parsed reply supplies code and message, and `retJson` is the reply with the members the two reads add. An unparsable one gives the network-error code and message over an emptied `retJson` |
| Builders.GenerateResUrl | src/Cosapi.cpp:126-141 | the resource URL: endpoint, app id, "/", bucket, path |
| Builders.FileId | src/Cosapi.cpp:548-552 | the file id a single-use signature is bound to: "/", app id, "/", bucket, path |
| Builders.ListQuery | src/Cosapi.cpp:515-519 | the list query: `?op=list` and `num`, `pattern`, `offset`, `order` as `name=value` pieces joined by '&', pattern and offset unescaped |
| Builders.ResUrlRoundTrip | src/Cosapi.cpp:126-141 | the resource URL can be read back: the app id after the endpoint, then bucket followed by path |
| Builders.ResUrlEndsWithFileId | src/Cosapi.cpp:549-552 | the resource URL is the endpoint without its final '/' followed by the file id, so the signature and the request name the same resource |
| Builders.SplitOnJoinOn | src/Cosapi.cpp:516-519 | cutting a query at '&' recovers its pieces when no piece contains '&' |
| Builders.ParamOf | src/Cosapi.cpp:516-519 | a `name=value` piece reads back as that name and value when the name has no '=' |
| Builders.ListQuerySplit | src/Cosapi.cpp:516-519 | the list query is '?' followed by its five pieces joined by '&' |
| Builders.ListQueryParams | src/Cosapi.cpp:516-519 | when pattern and offset hold no '&', a server reads exactly `op=list`, `num`, `pattern`, `offset`, `order`, in order and with the given values |
| Builders.StatQueryParams | src/Cosapi.cpp:585-586 | the stat query carries the single parameter `op=stat` |
| Builders.CreateFolderFields | src/Cosapi.cpp:486-493 | the body has `op=create` always, `to_over_write=1` iff the flag is nonzero, and `biz_attr` iff it is non-empty |
| Builders.UpdateFields | src/Cosapi.cpp:562-566 | the body has `op=update` always and `biz_attr` iff it is non-empty |
| Builders.DeleteFields | src/Cosapi.cpp:628-629 | the body is `op=delete` alone |
| Builders.UploadForm | src/Cosapi.cpp:240-258 | the one-shot form names `op`, `sha`, `biz_attr`, `filecontent` once each, in order; each is found with its value, `biz_attr` even when empty, and the file by path |
| Builders.LookupAppend | src/Cosapi.cpp:341-384 | a part appended later never hides one added earlier under the same name |
| Builders.LookupAt | src/Cosapi.cpp:341-384 | in a form with distinct names, every part is found by its name |
| Builders.OptionalTextFacts | src/Cosapi.cpp:358-384 | a conditional part adds its name and value exactly when its condition holds and leaves every other lookup unchanged |
| Builders.PrepareForm | src/Cosapi.cpp:341-384 | the prepare form: `op`, `filesize`, `sha`, then each optional part only under its condition |
| Builders.PrepareFormNames | src/Cosapi.cpp:341-384 | the prepare form names `op`, `filesize`, `sha`, then `biz_attr` iff it is non-empty, `session` iff it is non-empty and `slice_size` iff the size is positive, in that order and each once |
| Builders.PrepareFormHead | src/Cosapi.cpp:341-356 | `op` is `upload_slice`, `filesize` is a decimal that reads back as the file size, and `sha` is the digest |
| Builders.PrepareFormOptional | src/Cosapi.cpp:358-384 | each optional part is present exactly under its condition and holds the caller's value; `slice_size` is the same decimal on both sides of the `DEFAULT_SLICE_SIZE` test |
| Builders.SliceForm | src/Cosapi.cpp:427-449 | one slice's form: `op=upload_slice`, the decimal offset, the session, and the bytes as a buffer part named "data" |
| Builders.UploadRequest | src/Cosapi.cpp:232-260 | the one-shot request: a POST to the resource URL with the signature header and the upload form |
| Builders.PrepareRequest | src/Cosapi.cpp:386-389 | the prepare request: a POST to the resource URL with the signature header and the prepare form |
| Builders.CreateFolderRequest | src/Cosapi.cpp:482-498 | a POST with the signature and JSON content-type headers and the createFolder body |
| Builders.ListRequest | src/Cosapi.cpp:521-533 | a GET to the resource URL plus the list query, with the signature header |
| Builders.UpdateRequest | src/Cosapi.cpp:558-571 | a POST with the signature and JSON content-type headers and the update body |
| Builders.StatRequest | src/Cosapi.cpp:588-600 | a GET to the resource URL plus `?op=stat`, with the signature header |
| Builders.DeleteRequest | src/Cosapi.cpp:624-634 | a POST with the signature and JSON content-type headers and the delete body |
| Builders.SliceFormShape | src/Cosapi.cpp:427-449 | a slice form names `op`, `offset`, `session`, `filecontent` once each; the offset reads back as the position, and the form carries the session and the bytes |
| SliceTransfer.Payload | src/Cosapi.cpp:415-422 | the bytes one read returns at cursor `pos`: up to one slice size of the file from there, none past the end |
| SliceTransfer.SliceRequest | src/Cosapi.cpp:409-451 | the request of the pass at `pos`: the slice form of that offset, session and payload, POSTed with the signature |
| SliceTransfer.SliceLoop | src/Cosapi.cpp:418-463 | the loop from `pos`: each pass resets and sends one request; a nonzero code ends it, otherwise the cursor advances by the full slice size while below the file size |
| SliceTransfer.Transfer | src/Cosapi.cpp:394-464 | `upload_data`'s run: the loop with the slice request of each offset |
| SliceTransfer.Offsets | src/Cosapi.cpp:417-460 | the cursor values of a run in which no slice fails: from the offset in steps of the slice size while below the file size |
| SliceTransfer.Sent | src/Cosapi.cpp:451-460 | the requests the loop sends, read off the replies alone |
| SliceTransfer.ShowsReply | src/Cosapi.cpp:197-204 | a client state shows a reply: its code, message and buffer, and, when it parses, the JSON value as `sendRequest` stores it |
| SliceTransfer.PayloadBounds | src/Cosapi.cpp:420-422 | a read returns at most one slice size of bytes. Inside the file it is non-empty. It is full unless it reaches the end, where it is the rest of the file |
| SliceTransfer.OffsetsAt | src/Cosapi.cpp:418-460 | scheduled offset k is `offset + k*sliceSize` and lies below the file size |
| SliceTransfer.OffsetsCount | src/Cosapi.cpp:418-460 | the schedule holds n offsets with (n-1)·sliceSize < fileSize-offset ≤ n·sliceSize; it is empty when the offset is at or past the end |
| SliceTransfer.SliceCount | src/Cosapi.cpp:418-460 | the number of slices is ceil((fileSize-offset)/sliceSize); it is exactly the quotient when the distance is a multiple, with no trailing empty slice |
| SliceTransfer.NineSlicesOfTwentyFiveMiB | src/Cosapi.cpp:418-460 | a 25 MiB file in 3 MiB slices from 0 takes nine slices, the last at offset 25165824 |
| SliceTransfer.SlicesCoverFile | src/Cosapi.cpp:415-422 | the scheduled slices, put together, are the file from the starting offset on |
| SliceTransfer.SliceLengths | src/Cosapi.cpp:415-422 | every scheduled slice is non-empty and at most one slice size long |
| SliceTransfer.LoopSent | src/Cosapi.cpp:418-463 | the loop sends what the replies alone dictate, whatever state it starts from. It ends showing the last reply (code, message, buffer, and the parsed JSON as `sendRequest` stores it), or in the starting state when it sends nothing |
| SliceTransfer.SentPrefix | src/Cosapi.cpp:418-461 | the requests sent are those of a prefix of the schedule, and none are sent exactly when the schedule is empty |
| SliceTransfer.SentFailFast | src/Cosapi.cpp:451-458 | every request sent before the last was accepted with code 0 |
| SliceTransfer.SentStopsOnlyOnFailure | src/Cosapi.cpp:451-460 | the loop stops short of the schedule only after a nonzero code |
| SliceTransfer.TransferFollowsSchedule | src/Cosapi.cpp:418-463 | `upload_data`'s run sends the slices of a prefix of the schedule; all but the last were accepted; the final state shows the last slice's reply, `retJson` as `sendRequest` stores it; it stops early only on a nonzero code; with nothing to send it returns the prior state |
| SliceTransfer.TransferOffsets | src/Cosapi.cpp:418-449 | slice k declares offset `offset + k*sliceSize`, inside the file, and carries the file's bytes from there |
| SliceTransfer.TransferSucceeds | src/Cosapi.cpp:418-463 | starting from code 0, the run ends with code 0 exactly when every scheduled slice was sent and accepted |
| UploadFlow.MultiUseSign | src/Cosapi.cpp:224-230 | the multi-use signature: valid for `EXPIRED_SECONDS` from now, bound to the bucket |
| UploadFlow.OneUseSign | src/Cosapi.cpp:548-556 | the single-use signature of `update` and `del`, bound to the file id |
| UploadFlow.NotReadable | src/Cosapi.cpp:217-222 | the state an unreadable source path leaves: reset, then `COSAPI_FILE_NOT_EXISTS` and its message |
| UploadFlow.OneShot | src/Cosapi.cpp:209-263 | `upload`: the access check, then one form with the file's hex digest and the file itself |
| UploadFlow.Negotiate | src/Cosapi.cpp:301-314 | how the prepare reply is read, in the source's order: nonzero code, `data.url`, a missing `offset`/`session`/`slice_size`, or the go-ahead with the service's three values |
| UploadFlow.PrepareFor | src/Cosapi.cpp:293-297 | the prepare request for a readable file: its length and digest, and the caller's slice size converted to `uint64_t` |
| UploadFlow.JobFor | src/Cosapi.cpp:316-320 | what the loop is handed on a go-ahead: the service's session and slice size, the file and its length |
| UploadFlow.SliceUpload | src/Cosapi.cpp:265-323 | `upload_slice`: reset, access check, prepare, and the loop only on a go-ahead, from the service's offset |
| UploadFlow.ToUInt64 | src/Cosapi.cpp:296-297 | passing the `int` slice size to the `uint64_t` parameter keeps non-negative values. A negative value wraps to a number above `DEFAULT_SLICE_SIZE` (congruent modulo 2^64) |
| UploadFlow.OneShotOutcome | src/Cosapi.cpp:209-263 | an unreadable path gives `COSAPI_FILE_NOT_EXISTS` and sends nothing. A readable one sends one form to the resource URL, with the 40-digit hex SHA-1 of the file's bytes and the file, and returns the reply's code |
| UploadFlow.SliceUploadNotReadable | src/Cosapi.cpp:273-280 | an unreadable path gives `COSAPI_FILE_NOT_EXISTS` before any request |
| UploadFlow.SliceUploadBranches | src/Cosapi.cpp:301-320 | the prepare request goes first, and its reply alone decides, in order. A nonzero code ends the call showing that reply. A `data.url` ends with 0, showing that reply, so the URL is in `retJson`. A missing `offset`/`session`/`slice_size` ends with 0, showing that reply. Otherwise the loop runs with the service's offset, slice size and session, not the caller's |
| UploadFlow.SliceUploadSlices | src/Cosapi.cpp:316-320 | on a go-ahead, slice k after the prepare declares `offset + k*step` inside the file and carries the file's bytes under the service's session; all but the last were accepted; the call ends showing the last slice's reply, `retJson` as `sendRequest` stores it; it returns 0 exactly when every scheduled slice was sent and accepted |
| Client.Cosapi.constructor | src/Cosapi.cpp:111-120 | a new client holds its credentials, an empty result state and no requests |
| Client.Cosapi.Reset | src/Cosapi.cpp:98-103 | the object's fields become those of `reset()`, and no request is issued |
| Client.Cosapi.OnData | src/Cosapi.cpp:16-30 | the buffer grows by the chunk's bytes before its first NUL, nothing else changes, and the whole chunk is reported consumed |
| Client.Cosapi.SendRequest | src/Cosapi.cpp:143-207 | after the chunk-by-chunk callbacks and the parse, the fields are the normalised exchange and exactly this request is logged |
| Client.Cosapi.Upload | src/Cosapi.cpp:209-263 | the object ends as the one-shot specification says, with its requests logged, and returns the final code |
| Client.Cosapi.UploadPrepare | src/Cosapi.cpp:325-392 | the form built field by field is the prepare form, and one request to the resource URL is issued with the signature |
| Client.Cosapi.UploadData | src/Cosapi.cpp:394-464 | the `while (fileSize > pos)` loop leaves exactly the state and requests of the specified run from the service's offset, and returns the final code |
| Client.Cosapi.UploadSlice | src/Cosapi.cpp:265-323 | the object ends as the resumable-upload specification says, prepare request and slices included, and returns the final code |
| Client.Cosapi.CreateFolder | src/Cosapi.cpp:466-500 | one POST to the resource URL with the multi-use signature, a JSON content type and the createFolder body; the state is that reply's |
| Client.Cosapi.List | src/Cosapi.cpp:502-536 | one GET to the resource URL plus the list query, with the multi-use signature; the state is that reply's |
| Client.Cosapi.Update | src/Cosapi.cpp:538-573 | one POST with the single-use signature bound to the file id and the update body; the state is that reply's |
| Client.Cosapi.Stat | src/Cosapi.cpp:575-603 | one GET to the resource URL plus `?op=stat`, with the multi-use signature; the state is that reply's |
| Client.Cosapi.Del | src/Cosapi.cpp:605-636 | one POST with the single-use signature bound to the file id and the delete body; the state is that reply's |

## Left out

- Transport: libcurl (`curl_easy_*`, form and header plumbing, the 120 s timeout, `global_init`/`global_finit`) is left out. A request is a value, and the network is a function from a request to the chunks of its reply. The return code of `curl_easy_perform`, which `sendRequest` returns and every caller ignores, is not modelled.
- `dump_res` is not modelled, because it is console output.
- JSON serialisation (`Json::FastWriter`): bodies are modelled as field maps.
- JSON parsing (`Json::Reader`): parsing is an opaque function to an optional value. On a failed parse, `retJson` is modelled as left as `reset()` cleared it, although jsoncpp may have stored a partial value.
- SHA-1 (`SHA1_Init/Update/Final`) and the signers `Auth::appSign_more`/`Auth::appSign_once` are opaque function parameters.
- The error-code constants of Cosapi.h are not part of this model. `COSAPI_NETWORK_ERROR` and `COSAPI_FILE_NOT_EXISTS` are given placeholder negative values, since only their being nonzero matters to the client's logic.
- `time(NULL)` is the parameter `now`.
- `access` and `ifstream` are one file map, so a file that changes between the check and the read (a race) is not modelled.
- Out of `genFileSHA1AndLen`'s `seekg`/`tellg`, the model keeps only the file's length, so a `tellg` failure is not represented.
- Wire.AsInt, Wire.AsUInt64 and Wire.AsString cover only the conversions that do not throw. jsoncpp throws on, for example, a `code` outside the C `int` range, a negative `offset` read as `uint64_t` or an object read as a string. The model reads those as 0 or "" instead of an exception.
- Wire.Json has no real-number kind. A reply whose `code`, `offset` or `slice_size` is a JSON real, which jsoncpp would convert by truncation, cannot be represented.
- Wire.Member: `retJson["data"]` in `upload_slice` (src/Cosapi.cpp:305-320) inserts a null `data` member into `retJson`. The model reads a missing member as null without changing `retJson` there; only the `code` and `message` reads of `sendRequest` (src/Cosapi.cpp:199-200) are modelled as inserting, by Wire.Subscripted.
- Wire.Subscripted: `operator[]` on an array or a scalar throws in jsoncpp. The exception is not modelled; the value is kept.
- Strings are not NUL-terminated. A NUL inside an argument passed through `c_str()` or a `%s` format would truncate it in the source, but not in the model.
- `snprintf` truncation into the fixed 1024- and 10240-byte buffers is not modelled: every rendered URL, file id and query is taken whole.
- `upload_data` allocates its slice buffer on the stack with the service's size. Stack exhaustion is not modelled.
- Client.Cosapi.UploadData requires a positive slice size whenever the loop would run, and requires `fileSize + sliceSize` to fit in 64 bits. With a zero size from the service the source never terminates, and near 2^64 its `pos += sliceSize` wraps. Neither behaviour is modelled.
- Client.Cosapi.UploadSlice requires `UploadFlow.GoAheadUsable` for the same two reasons, applied to the service's go-ahead.
- SliceTransfer.Transfer and UploadFlow.SliceUpload share that precondition.
- The lemmas about the schedule assume a positive slice size.
- ContentHash.GenFileSha1AndLen models file lengths as unbounded, whereas the source holds them in `uint64_t`.
- Builders.ListQueryParams assumes `pattern` and `offset` contain no '&'. The source inserts them without escaping, and with a '&' the query reads back as different parameters.
- `MIN_SLICE_FILE_SIZE` is declared in the source but never used, so it has no counterpart.
- Client.Cosapi.constructor starts `retCode` at 0, whereas the C++ constructor leaves it uninitialised.
