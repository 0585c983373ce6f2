# gred core, modelled in Dafny

gred is a Redis server written in Go. This project models five sequential
pieces of it and proves properties of each:

- **The RESP2 reply encoder** (`resp/encode.go`), in module `Resp`.
  - It frames simple strings, errors, integers, bulk strings and arrays.
  - The null bulk string and the null array are kept apart from the empty ones.
  - A value of any other type is refused with `ErrInvalidValue`.
  - The writer is a class whose byte buffer the encoding methods append to.
  - Each method is proved to write exactly `Encoding(v)` and return its error.
- **The hash commands** (`cmd/hashes/hashes.go`), in module `Hashes`. It
  states three things:
  - each command's declared argument counts, numeric argument positions,
    HMSET validator and missing-key policy;
  - the command bodies, run against a keyspace `map<string, Value>`;
  - that the writes change only their own key and never leave an empty hash
    stored (HDEL deletes the key of a hash it empties).
  - Reads are functions of the keyspace. Writes are transition functions, and
    methods of a `Db` object proved to make those transitions.
  - The hash operations the bodies call (`types.Hash`) are given as map
    functions with contracts, in module `Types`.
- **The null-object default key and value** (`srv/defkey.go`), in module
  `DefaultKey`. Every operation is a constant function, and the lemmas compare
  its answers with those of a real empty hash, list, string or set.
- **LINSERT BEFORE/AFTER, LRANGE and LREM on a list value**, as the table tests
  of `vals/list_test.go` fix them, in module `Lists`.
  - LRANGE is a function.
  - The inserts and LREM are methods of a `List` object, proved against
    specification functions on sequences.
- **`extractCommands` of the load tool** (`tools/dreadis/jsonfile.go`), in
  module `JsonFile`.
  - A decoded JSON array becomes single commands and pipelines, or the first
    error in document order.
  - The loop is a method proved equal to a recursive specification.

Module `Decimal` models Go's base-10 `strconv` rendering and parsing of
integers, and proves that rendering then parsing gives back the number.
Module `Wrappers` holds `Option` and `Result`.

## Model

| member | source | states |
|---|---|---|
| Resp.Writer.Write | resp/encode.go:100 | a write appends the buffer to what was written and never fails |
| Resp.PrefixedBuffer | resp/encode.go:96-99 | the buffer built is the prefix byte, the payload copied unchanged, then CR LF |
| Resp.EncodePrefixed | resp/encode.go:95-102 | exactly that frame is appended to the writer |
| Resp.PrefixedFrameLayout | resp/encode.go:95-101 | a frame is the payload's length + 3 bytes: the prefix first, then the payload, then CR LF |
| Resp.Encode | resp/encode.go:13-15 | the writer gains exactly `Encoding(v).bytes` and the error returned is `Encoding(v).err` |
| Resp.EncodeValue | resp/encode.go:18-33 | dispatching on the kind writes `Encoding(v).bytes` and returns `Encoding(v).err`; any other type writes nothing and returns ErrInvalidValue |
| Resp.EncodeSimpleString | resp/encode.go:85-87 | writes and returns what `Encoding` gives for a simple string ('+' frame, no error) |
| Resp.EncodeErrorMessage | resp/encode.go:90-92 | writes and returns what `Encoding` gives for an error ('-' frame, no error) |
| Resp.EncodeInteger | resp/encode.go:80-82 | writes and returns what `Encoding` gives for an integer (':' and its base-10 rendering) |
| Resp.EncodeBulkString | resp/encode.go:61-77 | null writes "$-1" CR LF; otherwise the length header, then the bytes and CR LF |
| Resp.EncodeArray | resp/encode.go:36-58 | null writes "*-1" CR LF; otherwise the count header, then the elements as `EncodingAll` gives them |
| Resp.EncodeElements | resp/encode.go:51-57 | the loop writes the elements' encodings in order and stops at, and returns, the first error |
| Resp.EncodingAllAppend | resp/encode.go:51-56 | encoding p + q is encoding p, then q only when p succeeded |
| Resp.SimpleStringAndErrorFrames | resp/encode.go:85-92 | simple strings and errors are '+' or '-', the payload verbatim, CR LF |
| Resp.IntegerFrame | resp/encode.go:80-82 | an integer is ':', a decimal rendering that parses back to the same int64, CR LF |
| Resp.NullBulkStringFrame | resp/encode.go:63-66 | a null bulk string is exactly "$-1\r\n" |
| Resp.BulkStringFrame | resp/encode.go:68-76 | '$', the length, CR LF, the bytes unchanged, CR LF; the declared length parses back to the byte count |
| Resp.NullArrayFrame | resp/encode.go:38-41 | a null array is exactly "*-1\r\n" |
| Resp.EmptyIsNotNull | resp/encode.go:38-45 | an empty bulk string is "$0\r\n\r\n" and an empty array "*0\r\n", both different from the null frames |
| Resp.UnrecognizedWritesNothing | resp/encode.go:30-31 | a value of no known kind writes nothing and gives ErrInvalidValue |
| Resp.EncodingSucceedsIffRecognized | resp/encode.go:18-33 | encoding fails exactly when an unrecognised value sits at some depth |
| Resp.EncodingAllSucceedsIffRecognized | resp/encode.go:51-57 | the element loop succeeds exactly when every element is recognised, and then writes their encodings concatenated |
| Resp.ArrayFrame | resp/encode.go:43-57 | a recognised array is '*', the count (which parses back to the number of elements), CR LF, then each element's encoding in order |
| Resp.ArrayStopsAtFirstFailure | resp/encode.go:44-56 | at the first failing element: the header, the earlier elements and that element's output stay written, and ErrInvalidValue is returned |
| Resp.FrameOpensWithTypeByte | resp/encode.go:18-29 | a recognised value's encoding opens with its kind's type byte and ends with CR LF |
| Decimal.FormatInt | resp/encode.go:81 | the rendering is non-empty, ASCII, signed with '-' exactly for negative numbers, digits otherwise, and canonical: no leading zero except "0" itself |
| Decimal.FormatIntRoundTrip | resp/encode.go:81 | parsing the rendering of any int64 gives the number back |
| Decimal.FormatIntInjective | resp/encode.go:81 | distinct int64 values never share a rendering |
| Decimal.ParseInt | cmd/hashes/hashes.go:125 | a parsed integer argument always lies in the int64 range |
| Types.HDel | cmd/hashes/hashes.go:48 | the listed fields are gone and nothing else; the count is the number of fields that went; it is 0 exactly when none was present |
| Types.HGet | cmd/hashes/hashes.go:93 | found exactly when the field is present, and then its value |
| Types.HMGet | cmd/hashes/hashes.go:221 | one entry per requested field: its value when present, nil otherwise |
| Types.HSet | cmd/hashes/hashes.go:267 | the field holds the value afterwards; true exactly when the field was new |
| Types.HSetNx | cmd/hashes/hashes.go:286 | stores only into an absent field; true exactly when it stored |
| Types.HMSet | cmd/hashes/hashes.go:247 | the fields become the old ones plus the pair fields; untouched fields keep their values; every pair field holds the value of its last pair |
| Types.HIncrBy | cmd/hashes/hashes.go:136 | an absent field counts as 0; success exactly when the stored value parses as an integer; the returned value is the parsed value plus the increment, and the sum is stored as its decimal rendering; failure changes nothing |
| Types.HKeys | cmd/hashes/hashes.go:183 | every field exactly once |
| Types.HVals | cmd/hashes/hashes.go:305 | one value per field, in the order of `HKeys` |
| Types.HGetAll | cmd/hashes/hashes.go:116 | field, value, field, value, ... for every field, in the order of `HKeys` |
| Types.HSetThenHGet | cmd/hashes/hashes.go:267 | a field written by HSet reads back and the other fields are unchanged |
| Types.HSetNxKeepsExisting | cmd/hashes/hashes.go:286 | HSetNx on an existing field reports false and changes nothing |
| Types.HIncrByReadsBack | cmd/hashes/hashes.go:136 | after a successful increment the stored field parses back to the returned int64 |
| Hashes.ArityTable | cmd/hashes/hashes.go:27-297 | HGETALL, HKEYS, HLEN, HVALS take exactly 1 argument; HEXISTS, HGET exactly 2; HSET, HSETNX, HINCRBY, HINCRBYFLOAT exactly 3; HDEL, HMGET at least 2; HMSET at least 3 |
| Hashes.PolicyTable | cmd/hashes/hashes.go:27-297 | a missing key creates an empty hash exactly for HSET, HSETNX, HMSET, HINCRBY, HINCRBYFLOAT; only HDEL runs against the whole database |
| Hashes.NumericArguments | cmd/hashes/hashes.go:121-152 | only HINCRBY parses an integer (position 2) and only HINCRBYFLOAT a float (position 2) |
| Hashes.HMSetValidation | cmd/hashes/hashes.go:226-236 | HMSET accepts exactly an odd count of at least 3; an even count gives the wrong-number-of-arguments error naming "hmset"; no other command validates |
| Hashes.Created | cmd/hashes/hashes.go:258 | under the creating policy the key is present afterwards, holding its old value or, when it was missing, an empty hash; no other key changes |
| Hashes.HExistsFn | cmd/hashes/hashes.go:68-77 | InvalidValType on a non-hash; otherwise whether the field is in the key's hash (empty for a missing key) |
| Hashes.HGetFn | cmd/hashes/hashes.go:87-100 | InvalidValType on a non-hash; the field's value when present, a nil reply otherwise |
| Hashes.HGetAllFn | cmd/hashes/hashes.go:110-119 | InvalidValType on a non-hash; otherwise field, value, field, value, ... for every field exactly once, in the order of `Types.HKeys` |
| Hashes.HKeysFn | cmd/hashes/hashes.go:177-186 | InvalidValType on a non-hash; otherwise the hash's fields, each exactly once, in the order of `Types.HKeys` |
| Hashes.HValsFn | cmd/hashes/hashes.go:299-308 | InvalidValType on a non-hash; otherwise one value per field, in the order of `Types.HKeys` |
| Hashes.HLenFn | cmd/hashes/hashes.go:196-205 | InvalidValType on a non-hash; otherwise the number of fields (0 for a missing key) |
| Hashes.HMGetFn | cmd/hashes/hashes.go:215-224 | InvalidValType on a non-hash; otherwise one entry per requested field, nil for an absent one |
| Hashes.HDelOutcome | cmd/hashes/hashes.go:34-58 | InvalidValType and no change on a non-hash; 0 and no change for a missing key; otherwise the count deleted, and the key goes exactly when something was deleted and nothing is left |
| Hashes.HSetOutcome | cmd/hashes/hashes.go:261-270 | InvalidValType and no change on a non-hash; otherwise the field is stored and the reply is whether it was new |
| Hashes.HSetNxOutcome | cmd/hashes/hashes.go:280-289 | InvalidValType and no change on a non-hash; otherwise stores only into an absent field and replies whether it did |
| Hashes.HMSetOutcome | cmd/hashes/hashes.go:241-251 | InvalidValType and no change on a non-hash; otherwise all pairs are applied and the reply is OK |
| Hashes.HIncrByOutcome | cmd/hashes/hashes.go:130-143 | InvalidValType on a non-hash; HashFieldNotInt with no change on a non-integer field; otherwise the sum is stored and returned |
| Hashes.Db.GetKey | cmd/hashes/hashes.go:38 | the lookup yields the stored value or the default; the creating policy first stores an empty hash for a missing key |
| Hashes.Db.DelKey | cmd/hashes/hashes.go:52 | the key is removed and nothing else changes |
| Hashes.Db.HDel | cmd/hashes/hashes.go:34-58 | the reply and the new keyspace are those of `HDelOutcome` |
| Hashes.Db.HSet | cmd/hashes/hashes.go:261-270 | the reply and the new keyspace are those of `HSetOutcome` |
| Hashes.Db.HSetNx | cmd/hashes/hashes.go:280-289 | the reply and the new keyspace are those of `HSetNxOutcome` |
| Hashes.Db.HMSet | cmd/hashes/hashes.go:241-251 | the reply and the new keyspace are those of `HMSetOutcome` |
| Hashes.Db.HIncrBy | cmd/hashes/hashes.go:130-143 | the reply and the new keyspace are those of `HIncrByOutcome` |
| Hashes.HDelRemovesKeyIffEmptied | cmd/hashes/hashes.go:46-55 | HDEL deletes the key exactly when the hash had fields and all of them were listed; the reply counts the listed fields the hash held |
| Hashes.HDelMissingKey | cmd/hashes/hashes.go:38-55 | HDEL on a missing key replies 0 and does not create the key |
| Hashes.NonHashReadRejected | cmd/hashes/hashes.go:68-308 | every hash read on a key holding another kind of value fails with InvalidValType |
| Hashes.NonHashWriteRejected | cmd/hashes/hashes.go:34-289 | every hash write on such a key fails with InvalidValType and leaves the keyspace unchanged |
| Hashes.MissingKeyReadsAsEmptyHash | cmd/hashes/hashes.go:60-224 | through the default value, a missing key reads exactly as a key holding an empty hash |
| Hashes.HDelKeepsNoEmptyHashes | cmd/hashes/hashes.go:46-55 | HDEL changes no other key and never leaves an empty hash stored |
| Hashes.HSetKeepsNoEmptyHashes | cmd/hashes/hashes.go:261-270 | HSET changes no other key and never leaves an empty hash stored |
| Hashes.HSetNxKeepsNoEmptyHashes | cmd/hashes/hashes.go:280-289 | HSETNX changes no other key and never leaves an empty hash stored |
| Hashes.HMSetKeepsNoEmptyHashes | cmd/hashes/hashes.go:241-251 | HMSET changes no other key and never leaves an empty hash stored |
| Hashes.HIncrByKeepsNoEmptyHashes | cmd/hashes/hashes.go:130-143 | HINCRBY changes no other key and never leaves an empty hash stored |
| Hashes.HSetThenHGet | cmd/hashes/hashes.go:261-270 | after HSET, HGET of the field answers the stored value |
| Hashes.HIncrByThenHGet | cmd/hashes/hashes.go:130-143 | after a successful HINCRBY, HGET answers the sum's rendering, which parses back to the sum |
| Hashes.HIncrByFailureChangesNothing | cmd/hashes/hashes.go:136-140 | a failed HINCRBY leaves the keyspace as it was |
| Hashes.CreatedHashIsNotEmpty | cmd/hashes/hashes.go:241-289 | HSET, HSETNX and HMSET on a missing key store a hash with exactly the named field |
| Hashes.IncrementCreatesHash | cmd/hashes/hashes.go:121-143 | HINCRBY on a missing key stores a one-field hash holding the increment and replies with it |
| DefaultKey.KeyAnswers | srv/defkey.go:23-32 | the key reports its own name and the shared value; TTL is 0; Expire and Abort report true |
| DefaultKey.HashReadsAsEmpty | srv/defkey.go:48-58 | HExists, HGet, HLen, HMGet, HKeys, HVals and HGetAll answer as on an empty hash |
| DefaultKey.HMGetOneNilPerField | srv/defkey.go:54 | HMGet answers one nil per requested field |
| DefaultKey.MutatorsReportNothing | srv/defkey.go:39-82 | HDel, LPush, RPush, SAdd, SRem, Append and SetRange answer 0; HSet, HSetNx and LSet answer false; Set, HMSet and LTrim have no result |
| DefaultKey.HashWritesDifferFromEmpty | srv/defkey.go:56-57 | HSet and HSetNx answer false where an empty hash would report a new field |
| DefaultKey.ListReadsAsEmpty | srv/defkey.go:61-72 | LRange, LLen and LRem answer as on an empty list; LIndex, LPop and RPop answer ("", false) |
| DefaultKey.InsertReportsMissingKey | srv/defkey.go:62-63 | LInsertBefore and LInsertAfter answer 0, not the -1 of an empty list without the pivot |
| DefaultKey.StringReadsAsEmpty | srv/defkey.go:39-45 | Get, GetSet and GetRange answer "" and StrLen 0 |
| DefaultKey.SetReadsAsEmpty | srv/defkey.go:75-82 | SCard 0, SIsMember false, and SMembers, SDiff, SInter and SUnion empty |
| Lists.FirstIndex | vals/list_test.go:14-20 | -1 exactly when the pivot is absent; otherwise an index holding the pivot with none before it |
| Lists.InsertedBefore | vals/list_test.go:8-35 | with the pivot present, the value goes in at the pivot's index, the rest is unchanged, and the new length is returned; otherwise -1 and no change |
| Lists.InsertedAfter | vals/list_test.go:37-64 | the same, at the pivot's index + 1 |
| Lists.LRange | vals/list_test.go:66-91 | the elements whose index lies between the resolved start and stop (negative counts from the end), in order |
| Lists.WindowIsSlice | vals/list_test.go:74-81 | that window is the slice between the clamped bounds, or empty when they cross |
| Lists.LRangeWithinList | vals/list_test.go:66-91 | LRANGE returns at most the list's length, and only elements of the list |
| Lists.LRangeEmptyCases | vals/list_test.go:72-81 | an empty list, a start past the end, a stop before the start or before index 0 gives the empty list |
| Lists.LRangeTable | vals/list_test.go:72-81 | the ten LRANGE cases of the test table |
| Lists.RemoveFromHeadCount | vals/list_test.go:105-107 | walking from the head removes min(k, occurrences) elements, all equal to the value |
| Lists.RemoveFromTailCount | vals/list_test.go:108-110 | walking from the tail removes min(k, occurrences) elements, all equal to the value |
| Lists.RemoveFromHeadIsPrefixCut | vals/list_test.go:106-107 | the removed occurrences are the first ones: some prefix loses exactly them and the rest is untouched |
| Lists.RemoveFromTailIsSuffixCut | vals/list_test.go:108-110 | the removed occurrences are the last ones: some suffix loses exactly them and the part before it is untouched |
| Lists.LRemZeroRemovesAll | vals/list_test.go:105 | count 0 removes every occurrence and the reply is how many there were |
| Lists.LRemRemovesOnlyValue | vals/list_test.go:100-110 | LREM removes min(budget, occurrences) elements, all equal to the value, and keeps every other element in order |
| Lists.LRemAbsent | vals/list_test.go:100-104 | a value not in the list removes nothing, whatever the count |
| Lists.LRemHeadTable | vals/list_test.go:100-107 | the head-walking cases of the LREM table: each resulting list and each reply, the number of elements removed |
| Lists.LRemTailTable | vals/list_test.go:104-108 | the count -1 cases of the LREM table: each resulting list and each reply |
| Lists.LRemTailExhaustedTable | vals/list_test.go:109-110 | the count -4 cases of the LREM table: each resulting list and each reply |
| Lists.InsertBeforeTable | vals/list_test.go:14-20 | the LINSERT BEFORE table: replies and where the value lands |
| Lists.InsertAfterTable | vals/list_test.go:43-49 | the LINSERT AFTER table: replies and where the value lands |
| Lists.List.Find | vals/list_test.go:24 | the scan finds `FirstIndex` of the pivot |
| Lists.List.LInsertBefore | vals/list_test.go:24-32 | the new list and the reply are those of `InsertedBefore` |
| Lists.List.LInsertAfter | vals/list_test.go:53-61 | the new list and the reply are those of `InsertedAfter` |
| Lists.List.LRem | vals/list_test.go:114-120 | the new list is `Removed(old list, count, value)` and the reply is the number of elements that went |
| Lists.RemoveHeadward | vals/list_test.go:105-107 | the head scan keeps `RemoveFromHead` and removes at most k |
| Lists.RemoveTailward | vals/list_test.go:108-110 | the tail scan keeps `RemoveFromTail` and removes at most k |
| JsonFile.OnlyKey | tools/dreadis/jsonfile.go:90 | a one-key object's key is the only key |
| JsonFile.Commands | tools/dreadis/jsonfile.go:106-113 | runners that are all commands convert to those commands, one for one |
| JsonFile.ExtractCommands | tools/dreadis/jsonfile.go:80-122 | the loop's result is `Extract`: all runners in order, or the first error |
| JsonFile.ExtractPipeline | tools/dreadis/jsonfile.go:98-114 | a nested array's result is `Convert`: a pipeline of its commands, or the first error |
| JsonFile.ExtractOkIffAllConvert | tools/dreadis/jsonfile.go:83-121 | a list reads successfully exactly when every element does |
| JsonFile.ExtractOneRunnerPerElement | tools/dreadis/jsonfile.go:83-121 | on success there is one runner per element, each that element's conversion, in order |
| JsonFile.ExtractFailsAtFirstFailure | tools/dreadis/jsonfile.go:83-119 | the error is the first failing element's; no runners are returned with it |
| JsonFile.ErrorsNameTheFile | tools/dreadis/jsonfile.go:80-122 | every error names the file being read |
| JsonFile.ConvertErrorNamesTheFile | tools/dreadis/jsonfile.go:84-118 | the same for one element, nested pipelines included |
| JsonFile.OneKeyObjectIsCommand | tools/dreadis/jsonfile.go:85-95 | a one-key object with an array value is the command named by the key with that array as arguments |
| JsonFile.ObjectNeedsSingleKey | tools/dreadis/jsonfile.go:87-89 | an object with no key or several keys gives the single-key error |
| JsonFile.CommandArgsMustBeArray | tools/dreadis/jsonfile.go:91-94 | a one-key object whose value is not an array gives the args-must-be-an-array error |
| JsonFile.MessagesTellReasonsApart | tools/dreadis/jsonfile.go:88-117 | every message starts with the file path, and different reasons are worded differently |
| JsonFile.ScalarIsRefused | tools/dreadis/jsonfile.go:116-117 | null, booleans, numbers and strings give the "type ..." error naming their decoded Go type |
| JsonFile.PipelineOfCommands | tools/dreadis/jsonfile.go:98-114 | a nested array of commands is a pipeline of those commands, in order |
| JsonFile.NestedPipelineIsRefused | tools/dreadis/jsonfile.go:107-111 | a nested array inside a pipeline gives the pipeline-must-contain-only-commands error |

## Left out

- Locking. The key and database locks (`XLockGetKey`, `Lock`/`RLock` and the deferred unlocks in cmd/hashes/hashes.go) exist for concurrency; each command is one atomic transition on the keyspace here, and the default key's lock methods return the unit value.
- Time. `Expire`, `TTL` and `Abort` on the default key are their constant answers only; the expiry duration and callback are ignored, as in the source.
- `hincrbyfloat`'s body (cmd/hashes/hashes.go:154-167): it works on floating point. Only its declared data (arity, float position, create policy) is kept; the `HashFieldNotFloat` error is declared but no modelled body returns it.
- The command dispatcher (`cmd.NewSingleKeyCmd`, `cmd.NewDBCmd`) is not part of this model. `Accepts` states the declared argument counts and validator the dispatcher enforces before a body runs. HINCRBY's body takes the increment as the dispatcher parsed it.
- `cmd.Register` in `init`: it only fills a global registry; `Name` keeps the registered names.
- `defVal.Type()` (srv/defkey.go:36) panics on every call and has no answer to model.
- The error message text of `WrongNumberOfArgs`: its format string is not part of this model, so the error carries only the command name.
- Writer failures in resp/encode.go: the writer is an infallible append, so the `if err != nil` returns after a header are never taken.
- The slice aliasing of `append(v, '\r', '\n')` at resp/encode.go:75 is not modelled: byte strings are values here.
- There is no RESP decoder in the source, so there is no decode round trip; the frame lemmas instead show that each length or count header parses back to the payload's size.
- `loadJSONFile`, `command.run`, `pipeline.run` and `jsonFile.exec` in tools/dreadis/jsonfile.go, and all of tools/dreadis/worker.go: file I/O, JSON decoding, network connections, goroutines and stop channels.
- JSON numbers keep their literal text: the reader never looks at them, only at their decoded type name.
- The `types.Hash` implementation and the `vals` list implementation are not part of this model. The hash operations are given by contracts on maps; the list operations are built from the test tables.
- A nil list and an empty list are both the empty sequence (LREM's table expects nil in one case and an empty list in another).
- Types.HIncrBy: does not model int64 overflow of the sum, because the hash implementation that would wrap or refuse it is not part of this model; the read-back lemmas hold for sums in the int64 range.
- Types.HKeys: the field order is the hash implementation's enumeration order, which is unspecified; the model fixes one order chosen by the verifier, and only states that every field appears exactly once.
- Decimal.ParseInt: models `strconv.ParseInt(s, 10, 64)` (optional sign, digits only, int64 range); the dispatcher that calls it is not part of this model.
