# Trados webhook gate, modelled in Dafny

This project models the inbound-webhook authentication gate of a Trados Cloud
integration written in PHP. Trados Cloud posts batches of events to
`v1/webhooks.php` with an `x-lc-signature` header. The header holds a detached
JWS (RFC 7515) signed with RS256 over the digest of an empty body. The gate
works in these steps:

- It fetches the sender's JSON Web Key Set once and caches it.
- It finds the first key whose `kid` matches the token's.
- It rebuilds an RSA public key from the JWK's `n` and `e`. It does this by packing DER by hand and wrapping it in PEM.
- It has OpenSSL verify the signature.
- It checks the issuer, audience, `exp` and `iat` claims.

An authenticated batch is then filtered. Only `PROJECT.TASK.CREATED` events for
`file-delivery` tasks are stored and handed to the deployment hook.

Three smaller pieces of the same repository are modelled too:

- the paged table view of `database-viewer.php`;
- the directory listing of `v1/scan-translation-files.php`;
- the merged "recent events" feed of `v1/get-recent-webhook-events.php`.

Modules, one per file:

| module | models |
|---|---|
| `Wrappers` | `Option` and `Result` |
| `Json` | decoded JSON as PHP hands it over. `PhpArray` is the array `json_decode` builds from an object (one entry per key, the last value winning), `Lookup` is `$v['k'] ?? null`, `Truthy` is PHP truthiness, `Elements` is what `foreach` visits |
| `Bytes` | bytes, `chr`, big-endian values |
| `Base64Url` | `base64_encode`, PHP's non-strict `base64_decode`, `strtr`, `rtrim`, `str_pad`, and `base64UrlEncode` / `base64UrlDecode` |
| `RsaPem` | `createWorkingRsaPem`, plus an independent PEM/DER reader that the builder is proved against |
| `Claims` | `validateJwsClaims` |
| `KeySource` | `convertJwkToPublicKey`, and `getTradosPublicKey` with its static key cache as the class `KeyCache` |
| `Jws` | `validateJwsSignature`: `explode`, the verdict in source order, the empty-body digest |
| `Webhooks` | `v1/webhooks.php`: method dispatch, the signature gate and the batch loop |
| `DatabaseViewer` | page, offset and page count, the table whitelist, the ORDER BY choice, the pagination bar |
| `ScanFiles` | the directory filter and its count |
| `RecentEvents` | the limit clamp, the merge, the in-place newest-first sort and the cut |

These become parameters:

- OpenSSL (`openssl_verify`, `openssl_pkey_get_public`) and `json_decode` are fields of `Jws.Crypto`;
- the downloaded key set;
- `time()`;
- the request's method, headers and decoded body;
- the deployment hook;
- database rows and directory entries.

SHA-256 appears only as its value on the empty string. The model proves that
the base64url form of that value is the constant the code compares it with.

The model follows the code, which:

- never fails in `base64UrlDecode`. PHP's non-strict `base64_decode` skips characters outside the alphabet. The padding `str_pad` asks for is `strlen % 4` characters in total, which never exceeds the input, so nothing is ever added (`Base64Url.PadNeverApplies`).
- never examines the middle (payload) segment of the token (`Jws.PayloadSegmentIgnored`).
- does not reject a header without `kid`. Its kid is null, which matches the first key without a `kid`.
- does not refuse an empty modulus or exponent in the DER builder. Only OpenSSL's import can turn the PEM down.
- keeps the key set in a `static` variable, which lives for one request. It is the field `KeyCache.keys`, kept between calls for as long as the object lives.

## Model

| member | source | states |
|---|---|---|
| Bytes.Chr | includes/functions.php:340 | `chr` of a length below 256 is that length |
| Bytes.BigEndianLeadingZero | includes/functions.php:330-335 | a leading zero octet does not change the big-endian value |
| Json.LookupFindsLast | includes/functions.php:119-120 | `$v[key] ?? null` is the value of the last member with that key, and null when no member has the key or the value is not an object |
| Json.PhpArray | v1/webhooks.php:52 | the array `json_decode` builds has distinct keys, exactly the keys of the members, no more entries than members, and under each key the value `Lookup` finds |
| Json.PhpArrayOfDistinct | v1/webhooks.php:52 | members whose keys are distinct are stored as they are |
| Json.Elements | v1/webhooks.php:89 | foreach visits a list's items; for an object, one value per distinct key, in order of first appearance, each the value `Lookup` finds under that key; nothing for a scalar |
| Json.ElementsOfDistinct | v1/webhooks.php:89 | an object with distinct keys yields its members' values, in order |
| Base64Url.Base64UrlEncode | includes/functions.php:453-455 | the result is the URL-alphabet encoding of the input's sextets, `ceil(4n/3)` characters, with no `+`, `/` or `=` |
| Base64Url.Base64UrlDecode | includes/functions.php:457-459 | the result is at most 3/4 as long as the input |
| Base64Url.UrlEncodeIsUnpadded | includes/functions.php:454 | `rtrim(strtr(base64_encode(b)), '=')` is exactly the padding-free URL-alphabet encoding |
| Base64Url.TrimPadding | includes/functions.php:454 | `rtrim` removes exactly the `=` padding that `base64_encode` appended |
| Base64Url.PadNeverApplies | includes/functions.php:458 | padding to `strlen % 4` never adds a character, so decoding is plain decoding of the translated input |
| Base64Url.DecodeEncodeSextets | includes/functions.php:454-458 | regrouping the sextets of any byte string gives the bytes back |
| Base64Url.Base64RoundTrip | includes/functions.php:454-458 | `base64_decode(base64_encode(b)) == b` for every byte string |
| Base64Url.Base64UrlRoundTrip | includes/functions.php:453-459 | `base64UrlDecode(base64UrlEncode(b)) == b` for every byte string, including empty and lengths not divisible by 3 |
| RsaPem.PositiveInteger | includes/functions.php:330-335 | one 0x00 is prepended iff the first octet is >= 0x80; the input is a suffix of the result; the value is unchanged and reads as non-negative |
| RsaPem.LengthOctets | includes/functions.php:338-345 | below 0x80 one octet; below 0x100 `0x81` and one octet; otherwise `0x82` and two big-endian octets (exact below 65536) |
| RsaPem.ExponentShortForm | includes/functions.php:348-349 | the exponent INTEGER, always written with one length octet, equals the standard encoding when the padded exponent is shorter than 128 octets |
| RsaPem.LengthRoundTrip | includes/functions.php:355-361 | an X.690 reader recovers every length below 65536 that the three-tier writer produced |
| RsaPem.TlvRoundTrip | includes/functions.php:370-376 | a TLV written with those length octets parses back to its content and leaves what follows |
| RsaPem.SpkiRoundTrip | includes/functions.php:352-388 | the DER is SEQUENCE(15-byte rsaEncryption AlgorithmIdentifier, BIT STRING(0x00, SEQUENCE(INTEGER n, INTEGER e))), read back to the padded n and e |
| RsaPem.ChunkSplit | includes/functions.php:392 | `chunk_split` output ends with a newline |
| RsaPem.ChunkSplitLineLength | includes/functions.php:392 | every 65 consecutive characters of `chunk_split` output contain a newline, so no line is longer than 64 |
| RsaPem.ChunkSplitSextets | includes/functions.php:391-392 | line breaks carry no base64 data |
| RsaPem.CreateWorkingRsaPem | includes/functions.php:327-408 | the PEM starts with the BEGIN line and ends with the END line, every 65 consecutive characters hold a newline (no line longer than 64), and a PEM reader decodes its body back to the DER SubjectPublicKeyInfo of n and e |
| RsaPem.PemRoundTrip | includes/functions.php:327-408 | a standards-following reader gets back the modulus and exponent values from the PEM |
| Claims.ValidateJwsClaims | includes/functions.php:410-450 | checks in source order: wrong issuer first, then wrong audience, then an `exp` more than 60 s in the past, then an `iat` more than 60 s in the future, each outcome as an if-and-only-if; a valid outcome implies issuer and audience match |
| Claims.ClaimsTimeWindow | includes/functions.php:430-442 | with non-zero integer `exp` and `iat`, the claims hold iff `iat - 60 <= now <= exp + 60` |
| Claims.ClaimsTimeChecks | includes/functions.php:410-450 | with `exp` and `iat` each absent or an integer, in any combination, the claims hold iff issuer and audience match, a non-zero `exp` is at least `now - 60` and a non-zero `iat` at most `now + 60` |
| Claims.MissingTimesTolerated | includes/functions.php:431-442 | a missing or zero `exp` and `iat` is never checked: the outcome does not depend on the time |
| Claims.ClaimsValidBetween | includes/functions.php:430-442 | the instants at which the claims hold form an interval |
| KeySource.ConvertJwkToPublicKey | includes/functions.php:261-325 | a key is produced iff `kty` is "RSA", `n` and `e` are strings and OpenSSL accepts the PEM built from them; each failure names its cause |
| KeySource.ConvertedKeyMatchesJwk | includes/functions.php:282-300 | the key handle's PEM carries exactly the JWK's decoded modulus and exponent |
| KeySource.FirstMatch | includes/functions.php:237-250 | the position of a key whose kid is identical to the token's, with no such key before it; none iff no key matches |
| KeySource.FirstMatchIs | includes/functions.php:237-250 | a match with no match before it is the first match |
| KeySource.KeyFor | includes/functions.php:237-253 | KeyNotFound iff no key has the kid; otherwise the conversion of the first key that has it |
| KeySource.ScanKeys | includes/functions.php:237-253 | the `foreach` returns the conversion of the first key with the requested kid, or KeyNotFound, as `KeyFor` states |
| KeySource.LoadKeys | includes/functions.php:190-220 | the cached key set wins; otherwise a failed download gives FetchFailed, a falsy document InvalidJwksJson, a document without `keys` NoKeysMember, and else the document's `keys` is loaded |
| KeySource.CacheAfter | includes/functions.php:184-222 | a filled cache never changes; the cache is filled iff a key set was loaded, and then holds that key set |
| KeySource.PublicKeyFor | includes/functions.php:183-259 | a failure to load the key set is returned as is; with keys loaded, no key with the kid gives KeyNotFound and otherwise the result is the conversion of the first key with that kid; a returned key always comes from such a first match |
| KeySource.CachedKeysWin | includes/functions.php:184-190 | once the cache is filled, later downloads have no influence |
| KeySource.KeyCache.constructor | includes/functions.php:184 | the cache starts empty |
| KeySource.KeyCache.GetTradosPublicKey | includes/functions.php:183-259 | the result is `PublicKeyFor` of the cache before the call; the new cache is `CacheAfter` |
| Jws.Explode | includes/functions.php:102 | `explode('.')` gives at least one piece, no piece holds a dot, and joining the pieces with dots gives the input back |
| Jws.ExplodeOfDotFree | includes/functions.php:102 | a dot-free string explodes into itself alone |
| Jws.ExplodeDotFree | includes/functions.php:102 | a dot-free prefix followed by a dot splits off as one piece |
| Jws.ExplodeImplode | includes/functions.php:102 | explode undoes implode when no piece holds a dot |
| Jws.ThreeSegments | includes/functions.php:102-108 | three dot-free segments joined by dots explode into exactly those three |
| Jws.ThreePiecesShape | includes/functions.php:102-108 | a token that explodes into three pieces is those pieces joined by two dots |
| Jws.EmptyBodyDigestMatches | includes/functions.php:137-141 | `base64UrlEncode(sha256(''))` equals the constant `47DEQpj8HBSa-_TImW-5JCeuQeRkm5NMpJWZG3hSuFU` |
| Jws.JwsVerdict | includes/functions.php:92-181 | the token is rejected as malformed iff it does not have exactly three parts |
| Jws.SegmentsVerdict | includes/functions.php:110-161 | once the token has split into three, the verdict depends only on the header and signature segments, is never a malformed-token rejection, and is never a digest mismatch |
| Jws.CacheAfterValidation | includes/functions.php:124-131 | a token refused before the key lookup leaves the key cache as it was; a token that reaches the lookup leaves it as `getTradosPublicKey` does; a filled cache never changes |
| Jws.AcceptIff | includes/functions.php:98-161 | accepted iff there are three parts, the header is truthy and names RS256, a key is found for its kid, `openssl_verify(header . "." . 47DEQ…, sig, key) === 1`, and the claims hold |
| Jws.DigestNeverRejects | includes/functions.php:140-144 | the empty-body digest check never rejects a token |
| Jws.PayloadSegmentIgnored | includes/functions.php:108-146 | tokens that differ only in the middle segment get the same verdict |
| Jws.AcceptedTokenShape | includes/functions.php:102-106 | an accepted token is three dot-free segments joined by dots |
| Jws.AlgorithmCheckedFirst | includes/functions.php:124-131 | a header not naming RS256 is refused before any key is fetched; neither the cache nor the download matters, and the cache is unchanged |
| Jws.ValidateJwsSignature | includes/functions.php:92-181 | returns true iff the verdict is Accepted; the request body plays no part; the cache is updated as `CacheAfterValidation` |
| Webhooks.Status | v1/webhooks.php:105-146 | the status is "skipped" iff the event was not handled |
| Webhooks.EventsOf | v1/webhooks.php:87 | the `events` list when present, else the single-element list of the payload |
| Webhooks.ClassifyEvent | v1/webhooks.php:92-150 | skipped as "not PROJECT.TASK.CREATED" iff the type differs; handled iff the event is a file-delivery task creation; handled status follows the hook's success |
| Webhooks.FileDeliveries | v1/webhooks.php:113-128 | no more file deliveries than events |
| Webhooks.FileDeliveriesExactly | v1/webhooks.php:104-128 | an event is among the file deliveries iff it is in the batch and is a PROJECT.TASK.CREATED event for a file-delivery task |
| Webhooks.StoredRows | v1/webhooks.php:259-276 | one row per event, whose instance_id is the event's accountId, event_type its eventType, payload the event, and task_type its data.taskType.key |
| Webhooks.StoredRowsAreFileDeliveries | v1/webhooks.php:113-138 | every stored row holds an event of the batch, with event type PROJECT.TASK.CREATED, task type file-delivery and that event's accountId |
| Webhooks.HandledCount | v1/webhooks.php:143-150 | the handled results are at most all results |
| Webhooks.ProcessBatch | v1/webhooks.php:82-151 | `total_events` is the number of events, one result per event in input order, `file_delivery_events` counts exactly the file deliveries and the handled results, is <= `total_events`, and exactly those events are stored |
| Webhooks.BatchResults | v1/webhooks.php:89-150 | one result per event, in order, each the `ClassifyEvent` of its event |
| Webhooks.HandledCountIsFileDeliveries | v1/webhooks.php:128-150 | the number of handled results equals the number of file-delivery events |
| Webhooks.StatusCode | v1/webhooks.php:14-77 | every response is 200, 400, 401 or 405, and 401 exactly for a missing or invalid signature |
| Webhooks.SignatureHeader | v1/webhooks.php:62 | the lower-case header when present; else the mixed-case one when present; none when neither is present |
| Webhooks.WebhookResponse | v1/webhooks.php:13-172 | OPTIONS is a preflight, GET the active notice, any other non-POST 405; a POST with a non-JSON body 400; without a truthy signature header 401; with a token not accepted 401; an accepted POST processes its events, reporting their number, the file deliveries and one result each, and stores the file deliveries; nothing is stored otherwise |
| Webhooks.HandleWebhook | v1/webhooks.php:13-172 | the response and stored events are `WebhookResponse` of the request and the cache before it; the cache changes only for a request that reaches the signature check, and then as the validation changes it |
| Webhooks.UnauthenticatedStoresNothing | v1/webhooks.php:60-77 | a POST without a truthy signature header, or with a token that is not accepted, gets 401 and stores nothing |
| Webhooks.BatchSummaryConsistent | v1/webhooks.php:153-163 | a processed batch came from a POST with a JSON body; its total is the number of events and results; its file-delivery count equals the handled results and the stored rows and is <= the total |
| Webhooks.SingleEventBatch | v1/webhooks.php:87 | a body without `events` is processed as a batch of one |
| DatabaseViewer.Page | database-viewer.php:6 | the page is at least 1, and equals the request when the request is at least 1 |
| DatabaseViewer.OffsetSelectsPage | database-viewer.php:8 | the offset is a non-negative multiple of 50 that gives the page back; consecutive pages are 50 rows apart |
| DatabaseViewer.TotalPages | database-viewer.php:335 | `ceil(totalRows / 50)`: enough pages for every row, and no empty last page |
| DatabaseViewer.PageHasRowsIff | database-viewer.php:335-359 | a page has rows iff it is one of the TotalPages pages |
| DatabaseViewer.RowsOnPage | database-viewer.php:353-357 | the number of rows returned is the number of the table's row positions in [offset, offset + 50): at most 50, and some iff the offset is below the row count |
| DatabaseViewer.CheckTable | database-viewer.php:326-329 | a table is accepted iff it is one of the six; otherwise the error is "Invalid table name" |
| DatabaseViewer.ChooseOrderBy | database-viewer.php:343-350 | `timestamp` if present, else `created_at`, else `id`, else `rowid`, each as an if-and-only-if |
| DatabaseViewer.PaginationLinks | database-viewer.php:425-436 | the bar satisfies `IsPaginationBar`: Previous iff page > 1, Next iff page < totalPages, links for consecutive pages from max(1, page-2) to min(totalPages, page+2), all within [1, totalPages], the current page marked |
| DatabaseViewer.ViewTable | database-viewer.php:324-440 | error iff the table is not whitelisted; no data iff the page is beyond the last; otherwise the view names the table, orders by `ChooseOrderBy` of its columns, starts at the page's offset, shows `RowsOnPage` rows, and carries a pagination bar exactly when there is more than one page, and that bar is the `IsPaginationBar` of the page |
| ScanFiles.LastDot | v1/scan-translation-files.php:60 | the position of a dot with no dot after it, or -1 |
| ScanFiles.Extension | v1/scan-translation-files.php:60 | the dot-free text after the last dot, or "" without a dot |
| ScanFiles.ToLower | v1/scan-translation-files.php:60 | the extension is lower-cased character by character |
| ScanFiles.ListedFiles | v1/scan-translation-files.php:54-74 | never more files than entries |
| ScanFiles.ScanTranslationFiles | v1/scan-translation-files.php:50-85 | the files are `ListedFiles` of the entries, and the count is their number |
| ScanFiles.ListedFilesAppend | v1/scan-translation-files.php:54-74 | listing keeps directory-iteration order |
| ScanFiles.ListedFilesExactly | v1/scan-translation-files.php:55-65 | a file is listed iff its entry is not a dot entry, not a directory, not hidden, and has an allowed extension |
| ScanFiles.ListedFileShape | v1/scan-translation-files.php:51-63 | a listed file is not hidden, and its lower-cased extension is one of txt, docx, xlsx, pptx, html, xml, json, csv |
| RecentEvents.ClampLimit | v1/get-recent-webhook-events.php:11 | the limit lies in [1, 50], is 20 by default, and is the request when the request is in range |
| RecentEvents.SortNewestFirst | v1/get-recent-webhook-events.php:39-41 | after the sort, timestamps do not increase, and the rows are a permutation of the rows before |
| RecentEvents.InsertNewest | v1/get-recent-webhook-events.php:39-41 | one insertion step makes the first i+1 rows newest first, leaves the rows after position i in place, and only permutes the array |
| RecentEvents.CutSplitsRows | v1/get-recent-webhook-events.php:44 | the cut keeps part of the rows, and what it drops is the rest |
| RecentEvents.CutOrdersRows | v1/get-recent-webhook-events.php:44 | in a newest-first list, no row after the cut is newer than a row before it |
| RecentEvents.CutKeepsNewest | v1/get-recent-webhook-events.php:39-44 | the cut of a sorted arrangement keeps rows of the input, newest first, and every row dropped is no newer than every row kept |
| RecentEvents.GetRecentWebhookEvents | v1/get-recent-webhook-events.php:10-50 | count = number of events = min(limit, rows of both sources); newest first; drawn from the concatenation of activity and webhook rows; no dropped row is newer than a kept one |

## Left out

- Network I/O: downloading the key set with `file_get_contents` is a parameter (`None` when the download fails). `checkJwsKeysAvailable` and `checkWebhookEndpoint` are not modelled.
- Cryptography: `openssl_verify`, `openssl_pkey_get_public` and `hash('sha256')` are foreign calls. The first two are parameters; the hash is the constant `Jws.Sha256OfEmpty`.
- `json_decode` is a parameter. Floating-point JSON numbers are not modelled.
- Logging (`logActivity`, `error_log`) and the loops that collect `openssl_error_string` messages only write diagnostics.
- `storeWebhookEvent` and all other SQL: the stored rows are returned as a list, and table contents are inputs.
- `processFileDeliveryTask` and `getUserApiKey`: the deployment hook is a parameter.
- The `catch (Exception ...)` branches of `validateJwsSignature`, `getTradosPublicKey` and `v1/webhooks.php`: the Exceptions `convertJwkToPublicKey` throws are caught inside it and appear in the model as `KeyError` values; no other modelled step throws one. A key-set entry that is a string would make PHP raise an `Error` when its `kty` is read. The model reads such an entry as an object without members.
- KeySource.LoadKeys: two PHP 8 `TypeError`s are not modelled. A truthy downloaded document that is not an array and has no `keys` hits `array_keys` (includes/functions.php:218). A `keys` member that is a scalar hits `count` (includes/functions.php:223). No `catch (Exception ...)` catches a `TypeError`, so PHP ends the request with HTTP 500. The model instead answers NoKeysMember in the first case and finds no key in the second, which gives 401.
- `date()` (`processed_at`, the GET reply's timestamp, file modification times) and `strtotime`: timestamps are integers.
- The `(int)` casts of the `page` and `limit` query parameters: the model takes the integers.
- HTML output of `database-viewer.php`, including its overview branch shown when no table is chosen.
- In `v1/scan-translation-files.php`: the `instanceId` check (400/404), `mkdir`, and the OPTIONS reply.
- `webhook-events.php`, `api/send-webhook.php`, `formatBytes`, `generateInstanceId`, `sanitizeInput` and `translation-files-processor.php` are not part of this model.
- Claims.ValidateJwsClaims: only integer and boolean `exp` and `iat` are compared as PHP 8 does. A claim of another JSON type is treated as never expired and never in the future, while PHP would compare numeric strings numerically.
- Claims.ClaimsValidBetween: stated for an `iat` that is not a JSON boolean. `"iat": true` fails the check only at `now == -60`, so those instants are not an interval.
- KeySource.ConvertJwkToPublicKey: an `n` or `e` that is present but not a string is refused (`ComponentNotString`). PHP would decode the string form of a number, and raise an `Error` for a list or object.
- KeySource.ConvertedKeyMatchesJwk: proved for non-empty `n` and `e`, `e` shorter than 127 octets, and the two together at most 65000 octets. The builder's length octets cover 65535 at most, and it writes the exponent length in one octet.
- RsaPem.PemRoundTrip: proved under the same bounds.
- RsaPem.SpkiRoundTrip: proved under the same bounds, without the non-empty requirement.
- Base64Url.Base64UrlDecode: its contract gives only a length bound. Its full behaviour is PHP's non-strict decoder: characters outside the alphabet are skipped, and a lone trailing sextet is dropped.
- Jws.JwsVerdict: the reason for each rejection is recorded, but only the malformed-token case is stated in its own contract. `Jws.AcceptIff` gives the rest.
- RecentEvents.GetRecentWebhookEvents: the order of rows with equal timestamps is not stated. The sort is stable, as `usort` is since PHP 8.0, so activity rows come before webhook rows at equal times.
- The header lookup (`Webhooks.SignatureHeader`) uses the names exactly as `getallheaders()` reports them. Case folding by the web server is not modelled.
