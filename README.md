# Blueprint service, modelled in Dafny

This project models the CRUD pipeline of the blueprint service and the small
decision tables around it:

- **Records** (`Models`). The storage row, the domain object, its metadata
  sub-document, the two request shapes and the response, each with its
  declared defaults.
- **Mapper** (`Mapper`). The conversions between those records. JSON encoding
  of the metadata column is a parameter (`JsonCodec`). The identifier
  generator and the clock are parameters of the create and update
  conversions.
- **The `blueprints` table and its SQL statements** (`Queries`). The table is
  a map from primary key to row. Each statement is a function from the table
  and its parameters to the rows returned and the table left behind.
  - `ORDER BY name` is a parameter: any total preorder, so rows with equal
    names may come back in any order.
  - `LIMIT`/`OFFSET` is `Page`.
- **`BlueprintRepository`** (`Repository`). A class over that table.
  - Its fields are the rows, whether the store is reachable, and a ghost
    record of the calls made on it.
  - Each method is specified by a function of the old table (`GetByIdOutcome`,
    `CreateOutcome`, …).
  - `GetAllAsync` scans the table with a loop that inserts each row into a
    listing kept in name order. It is specified by the set of results the
    query may give (`IsGetAllOutcome`).
  - Store failures are the `Err` case of `Result` and are passed on, except
    by `HealthCheckAsync`, which never fails.
- **`BlueprintService`** (`Service`). It refuses an empty name before any
  repository call. Update is a read followed by a write. Every operation is
  specified by a function of the repository state (`CreateResponse`,
  `UpdateResponse`, …) and by the sequence of repository calls it makes.
- **The gRPC façade** (`BlueprintProto`, `GrpcService`).
  - Identifier parsing and formatting are a parameter (`GuidFormat`).
  - The page offset is computed in unchecked 32-bit arithmetic.
  - Absent wire metadata becomes the default metadata.
  - Each handler turns a service outcome into a reply or an `RpcException`
    status.
- **Configuration** (`Configuration`, `Validation`, `ValidationProperties`,
  `Formatting`).
  - The two configuration records and their defaults.
  - Both validator overloads, which collect one message per failing check in
    check order and fail once with all of them joined.
  - The text of `int.ToString()`, `TimeSpan.ToString()` and `string.Join`
    that those messages interpolate.
- **Health checks** (`HealthChecks`) and **error middleware**
  (`ErrorHandling`). The classifiers that map a probe result to a health
  status, and an exception to an HTTP status and message.

Exceptions are values:

- An `ArgumentException` is `Err(ArgumentError(message))`.
- A database client exception is `Err(StoreError(fault))`.
- A thrown `RpcException` is the `RpcException(status)` case of a reply.

Identifiers are natural numbers (`Guid.Empty` is 0). Instants and spans are
tick counts.

## Model

| member | source | states |
|---|---|---|
| Models.DefaultMetadata | services/blueprint-service/src/Models/Blueprint.cs:28-33 | default metadata has owner "", version "1.0.0" and no tags |
| Models.RecordDefaults | services/blueprint-service/src/Models/Blueprint.cs:6-59 | every record starts with empty name and description; the entity's metadata text is "" and every structured metadata field starts as the default metadata |
| Mapper.MapToDomainModel | services/blueprint-service/src/Data/Mappers/BlueprintMapper.cs:10-36 | id, name, description and both timestamps are copied; non-empty column text that parses gives exactly the parsed metadata, empty or unparseable text gives the default metadata; it never fails |
| Mapper.DecodeMetadata | services/blueprint-service/src/Data/Mappers/BlueprintMapper.cs:14-26 | non-empty text that parses gives the parsed metadata; empty text, unparseable text or a JSON null give the default metadata |
| Mapper.MapToDomainModels | services/blueprint-service/src/Data/Repositories/BlueprintRepository.cs:77 | one domain object per row, in row order, each the row's mapping |
| Mapper.MapToEntity | services/blueprint-service/src/Data/Mappers/BlueprintMapper.cs:39-63 | the five scalar fields are copied; when serialization succeeds the column holds exactly its output, and "{}" when it throws |
| Mapper.MapToResponse | services/blueprint-service/src/Data/Mappers/BlueprintMapper.cs:66-77 | the response carries the domain object's id, name, description, metadata and both timestamps |
| Mapper.MapToResponses | services/blueprint-service/src/Services/BlueprintService.cs:42-46 | one response per domain object, in order, each its mapping |
| Mapper.MapFromCreateRequest | services/blueprint-service/src/Data/Mappers/BlueprintMapper.cs:80-91 | the fresh id, the request's name, description and metadata, and the two clock readings |
| Mapper.MapFromUpdateRequest | services/blueprint-service/src/Data/Mappers/BlueprintMapper.cs:94-103 | keeps the existing id and creation time; takes name, description and metadata from the request; the update time is now |
| Mapper.MetadataFallback | services/blueprint-service/src/Data/Mappers/BlueprintMapper.cs:14-26 | empty text, a malformed document and a JSON null all decode to the default metadata, exactly as an empty column does |
| Mapper.EntityRoundTrip | services/blueprint-service/src/Data/Mappers/BlueprintMapper.cs:10-63 | reading back a stored domain object gives the same object, when the serializer round-trips |
| Mapper.SerializeFailureLosesMetadata | services/blueprint-service/src/Data/Mappers/BlueprintMapper.cs:45-52 | when serialization throws, the row holds "{}" and the object read back has default metadata in place of its own |
| Mapper.ResponseMirrorsBlueprint | services/blueprint-service/src/Data/Mappers/BlueprintMapper.cs:66-77 | the response mapping is one-to-one and onto: the response has exactly the domain object's fields |
| Mapper.DefaultsCorrespond | services/blueprint-service/src/Models/Blueprint.cs:6-59 | a default row decodes to the default domain object, whose response is the default response |
| Mapper.CreateTimestampsFollowClock | services/blueprint-service/src/Data/Mappers/BlueprintMapper.cs:87-88 | the new blueprint's two timestamps are equal exactly when the two clock readings are |
| Mapper.UpdateIgnoresRequestIdAndIsIdempotent | services/blueprint-service/src/Data/Mappers/BlueprintMapper.cs:96-102 | the request's id does not affect the result, and applying the same request again at the same instant changes nothing |
| Queries.PrependSorted | services/blueprint-service/src/Data/Queries/BlueprintQueries.cs:42-43 | a row no greater than every row of a name-sorted listing can go in front of it |
| Queries.InsertByName | services/blueprint-service/src/Data/Queries/BlueprintQueries.cs:42-43 | inserting a row into a listing adds exactly that row (as a multiset) |
| Queries.InsertByNameKeepsOrder | services/blueprint-service/src/Data/Queries/BlueprintQueries.cs:42-43 | inserting into a name-sorted listing keeps it name-sorted, for any total preorder on names |
| Queries.Page | services/blueprint-service/src/Data/Queries/BlueprintQueries.cs:44-47 | skips `offset` entries and keeps at most `limit`: the length and each element in terms of the listing |
| Queries.AdjacentPages | services/blueprint-service/src/Data/Queries/BlueprintQueries.cs:44-47 | two consecutive pages of one size together are the page of twice the size: no overlap and no gap |
| Queries.FourRowsInTwoPages | services/blueprint-service/src/Data/Queries/BlueprintQueries.cs:44-47 | a four-row listing read two at a time gives its two halves |
| Queries.SortedListingUnique | services/blueprint-service/src/Data/Queries/BlueprintQueries.cs:42-43 | two name-sorted arrangements of the same rows are equal when the collation is strict and names are distinct |
| Queries.NameOrderingUnique | services/blueprint-service/src/Data/Queries/BlueprintQueries.cs:32-48 | with a strict collation and distinct names, ORDER BY name has exactly one answer |
| Queries.SelectById | services/blueprint-service/src/Data/Queries/BlueprintQueries.cs:18-30 | returns the row with that id if one is stored, and otherwise no row has that id |
| Queries.InsertRow | services/blueprint-service/src/Data/Queries/BlueprintQueries.cs:50-72 | fails exactly on a duplicate id; otherwise adds exactly the new row, keeps every other row and the key invariant, and returns the stored row |
| Queries.UpdateRow | services/blueprint-service/src/Data/Queries/BlueprintQueries.cs:74-91 | returns a row exactly when one had the id; changes only name, description, updated_at and metadata of that row; otherwise leaves the table alone |
| Queries.SetColumns | services/blueprint-service/src/Data/Queries/BlueprintQueries.cs:77-83 | the updated row keeps the stored id and created_at and takes name, description, updated_at and metadata from the new values |
| Queries.DeleteRow | services/blueprint-service/src/Data/Queries/BlueprintQueries.cs:93-98 | removes exactly the row with that id and reports 1 affected row exactly when it was there |
| Queries.CountRows | services/blueprint-service/src/Data/Queries/BlueprintQueries.cs:100-105 | COUNT(*) is zero exactly for the empty table |
| Queries.CountTracksChanges | services/blueprint-service/src/Data/Queries/BlueprintQueries.cs:50-105 | COUNT(*) grows by one with a successful insert, shrinks by the rows a delete affected, and an update leaves it unchanged |
| Queries.VisitStep | services/blueprint-service/src/Data/Queries/BlueprintQueries.cs:32-48 | one step of a table scan visits exactly one new row |
| Queries.VisitedAll | services/blueprint-service/src/Data/Queries/BlueprintQueries.cs:32-48 | a finished scan has visited every row |
| Repository.GetByIdOutcome | services/blueprint-service/src/Data/Repositories/BlueprintRepository.cs:37-59 | fails exactly when the store is unreachable; otherwise yields a blueprint exactly when the id is stored, and then the mapped row |
| Repository.CreateOutcome | services/blueprint-service/src/Data/Repositories/BlueprintRepository.cs:86-110 | succeeds exactly when reachable with a new id, adding exactly the mapped row and returning it read back; a failure leaves the table unchanged |
| Repository.UpdateOutcome | services/blueprint-service/src/Data/Repositories/BlueprintRepository.cs:112-136 | yields a blueprint exactly when the id is stored, replacing the four writable columns of that row only; otherwise the table is unchanged |
| Repository.DeleteOutcome | services/blueprint-service/src/Data/Repositories/BlueprintRepository.cs:138-160 | reports true exactly when the id was stored, and the table loses exactly that id |
| Repository.CountOutcome | services/blueprint-service/src/Data/Repositories/BlueprintRepository.cs:162-180 | the number of rows as a 32-bit int; an unreachable store fails, and a table of more than Int32.MaxValue rows fails with ScalarOverflow, as the int conversion of the bigint COUNT(*) throws |
| Repository.BlueprintRepository.constructor | services/blueprint-service/src/Data/Repositories/BlueprintRepository.cs:27-29 | an empty, reachable table with no calls made |
| Repository.BlueprintRepository.GetByIdAsync | services/blueprint-service/src/Data/Repositories/BlueprintRepository.cs:37-59 | the result is GetByIdOutcome of the table; the table is unchanged and the call is recorded |
| Repository.BlueprintRepository.ScanOrderedByName | services/blueprint-service/src/Data/Queries/BlueprintQueries.cs:32-48 | the listing holds every row of the table once, in name order |
| Repository.BlueprintRepository.GetAllAsync | services/blueprint-service/src/Data/Repositories/BlueprintRepository.cs:61-84 | fails on an unreachable store or negative paging; otherwise one mapped row per row of a page of some name-ordered listing of the table |
| Repository.ConsecutiveCallsGiveAdjacentPages | services/blueprint-service/src/Data/Repositories/BlueprintRepository.cs:61-84 | with a strict collation and distinct names, two separate calls for consecutive pages of one size succeed and together give exactly the double-size page: no overlap, no gap |
| Repository.MapToDomainModelsAppend | services/blueprint-service/src/Data/Repositories/BlueprintRepository.cs:77 | mapping rows commutes with joining listings |
| Repository.BlueprintRepository.CreateAsync | services/blueprint-service/src/Data/Repositories/BlueprintRepository.cs:86-110 | the new table and result are CreateOutcome of the old table; the key invariant holds after |
| Repository.BlueprintRepository.UpdateAsync | services/blueprint-service/src/Data/Repositories/BlueprintRepository.cs:112-136 | the new table and result are UpdateOutcome of the old table |
| Repository.BlueprintRepository.DeleteAsync | services/blueprint-service/src/Data/Repositories/BlueprintRepository.cs:138-160 | the new table and result are DeleteOutcome of the old table |
| Repository.BlueprintRepository.DeleteByAnotherClient | services/blueprint-service/src/Data/Queries/BlueprintQueries.cs:93-98 | a DELETE by another client removes exactly that id and records no call on this repository |
| Repository.BlueprintRepository.CountAsync | services/blueprint-service/src/Data/Repositories/BlueprintRepository.cs:162-180 | the result is CountOutcome of the table, including the overflow failure past Int32.MaxValue rows |
| Repository.BlueprintRepository.HealthCheckAsync | services/blueprint-service/src/Data/Repositories/BlueprintRepository.cs:182-199 | never fails: true exactly when the store answers |
| Service.GetByIdResponse | services/blueprint-service/src/Services/BlueprintService.cs:25-32 | a response exactly when the id is stored, namely the mapped row; store failures pass through |
| Service.CreateResponse | services/blueprint-service/src/Services/BlueprintService.cs:51-66 | an empty name fails with "Name cannot be empty" and the table unchanged; otherwise succeeds exactly when the store accepts the new id, and the response has that id, the request's fields and both clock readings |
| Service.CreateCalls | services/blueprint-service/src/Services/BlueprintService.cs:56-65 | create issues no repository call exactly when the name is missing, and otherwise the single insert |
| Service.UpdateResponse | services/blueprint-service/src/Services/BlueprintService.cs:68-91 | an empty name fails before storage; otherwise it yields a response exactly when the id is stored and is still stored at the write, carrying the request's fields, the stored creation time and the new update time; a row deleted by another client between the read and the write gives absent and a table without that row; otherwise the table keeps its keys |
| Service.UpdateCalls | services/blueprint-service/src/Services/BlueprintService.cs:74-90 | update issues no call exactly when the name is missing, otherwise starts with the read, and issues the write exactly when the store answers and the read finds the row |
| Service.BlueprintService.constructor | services/blueprint-service/src/Services/BlueprintService.cs:21-23 | the service is bound to the given repository |
| Service.BlueprintService.GetByIdAsync | services/blueprint-service/src/Services/BlueprintService.cs:25-32 | the result is GetByIdResponse of the repository state; one GetById call |
| Service.BlueprintService.GetAllAsync | services/blueprint-service/src/Services/BlueprintService.cs:34-49 | one response per blueprint the repository returned, in the same order |
| Service.BlueprintService.CreateAsync | services/blueprint-service/src/Services/BlueprintService.cs:51-66 | the new table and result are CreateResponse of the old table; no repository call when the name is empty |
| Service.BlueprintService.UpdateAsync | services/blueprint-service/src/Services/BlueprintService.cs:68-91 | the new table and result are UpdateResponse of the old table, including a deletion by another client between the read and the write; the calls are none, the read alone, or the read and the write |
| Service.BlueprintService.DeleteAsync | services/blueprint-service/src/Services/BlueprintService.cs:93-99 | passes the repository's DeleteOutcome through |
| Service.BlueprintService.CountAsync | services/blueprint-service/src/Services/BlueprintService.cs:101-106 | passes the repository's CountOutcome through |
| Service.EmptyNameRejectedBeforeStorage | services/blueprint-service/src/Services/BlueprintService.cs:56-59 | create and update with an empty name (NameMissing) fail with "Name cannot be empty", leave the table and make no repository call |
| Service.BlankNameAccepted | services/blueprint-service/src/Services/BlueprintService.cs:56 | NameMissing tests emptiness only: a name of spaces is not refused |
| Service.CreatedResponseContents | services/blueprint-service/src/Services/BlueprintService.cs:61-65 | a created blueprint comes back with the new id, the request's contents and the two clock readings |
| Service.CreateThenGetById | services/blueprint-service/src/Services/BlueprintService.cs:25-66 | reading right after creating returns the created response, and while the count fits an int it grows by one |
| Service.UpdateReplacesWholeRecord | services/blueprint-service/src/Services/BlueprintService.cs:79-90 | updating a stored record replaces name, description and metadata, keeps id and creation time, stamps the update time, and reads then writes |
| Service.UpdateOfMissingIsAbsent | services/blueprint-service/src/Services/BlueprintService.cs:80-84 | updating an id that is not stored yields absent, leaves the table and never issues the write |
| Service.UpdateOfVanishedRowIsAbsent | services/blueprint-service/src/Services/BlueprintService.cs:87-90 | when the row the read found is gone at the write, the update yields absent after issuing both the read and the write, and the table is what the deletion left, in which the id is absent |
| Service.UpdateIsIdempotent | services/blueprint-service/src/Services/BlueprintService.cs:68-91 | repeating an update with the same request at the same instant changes nothing more |
| Service.DeleteThenGetByIdIsAbsent | services/blueprint-service/src/Services/BlueprintService.cs:93-99 | delete reports whether the id was stored, and afterwards the id reads as absent |
| Service.CreateReadDeleteScenario | services/blueprint-service/src/Services/BlueprintService.cs:25-99 | create with default metadata, read back, delete, read again: the read sees the creation and the last read sees nothing |
| Common.Wrap32 | services/blueprint-service/src/GrpcServices/BlueprintGrpcService.cs:69 | unchecked `int` arithmetic: congruent to the exact value modulo 2^32, and equal to it when it fits |
| GrpcService.PageOffset | services/blueprint-service/src/GrpcServices/BlueprintGrpcService.cs:67-70 | `(PageNumber - 1) * PageSize` in 32-bit wrap-around: exact when the product fits, congruent modulo 2^32 always |
| GrpcService.ConsecutivePageOffsets | services/blueprint-service/src/GrpcServices/BlueprintGrpcService.cs:67-70 | without overflow, page n + 1 starts where page n ends |
| GrpcService.PageOffsetEdges | services/blueprint-service/src/GrpcServices/BlueprintGrpcService.cs:69 | page 65537 of size 65536 wraps to offset 0; page 0 asks for a negative offset |
| GrpcService.WireMetadataRoundTrip | services/blueprint-service/src/GrpcServices/BlueprintGrpcService.cs:31-43 | wire metadata read back as request metadata is the response's metadata, without tags for the initializer alone |
| GrpcService.WireBlueprintInjective | services/blueprint-service/src/GrpcServices/BlueprintGrpcService.cs:24-43 | distinct responses give distinct wire blueprints when identifiers parse back |
| GrpcService.WireBlueprintWithoutTags | services/blueprint-service/src/GrpcServices/BlueprintGrpcService.cs:24-37 | the wire blueprint carries the formatted id, the name, description, both timestamps, owner and version, and no tags |
| GrpcService.WireBlueprint | services/blueprint-service/src/GrpcServices/BlueprintGrpcService.cs:24-43 | the initializer's wire blueprint with the response's tags added, in order |
| GrpcService.ToModelMetadata | services/blueprint-service/src/GrpcServices/BlueprintGrpcService.cs:117-122 | absent wire metadata becomes the default metadata (owner "", version "1.0.0", no tags); present metadata is copied field by field |
| GrpcService.ToCreateRequest | services/blueprint-service/src/GrpcServices/BlueprintGrpcService.cs:113-123 | the create request carries the wire name and description and the converted metadata |
| GrpcService.ToUpdateRequest | services/blueprint-service/src/GrpcServices/BlueprintGrpcService.cs:162-173 | the update request carries the parsed id, the wire name and description and the converted metadata |
| GrpcService.BuildWireBlueprint | services/blueprint-service/src/GrpcServices/BlueprintGrpcService.cs:24-43 | the wire blueprint with every tag added, in order |
| GrpcService.BuildListResponse | services/blueprint-service/src/GrpcServices/BlueprintGrpcService.cs:72-97 | one wire blueprint per response, in order |
| GrpcService.GetReply | services/blueprint-service/src/GrpcServices/BlueprintGrpcService.cs:18-59 | a reply exactly when the service found the blueprint; absent is NotFound; any failure is Internal |
| GrpcService.ListReply | services/blueprint-service/src/GrpcServices/BlueprintGrpcService.cs:65-105 | a reply exactly when the service succeeded, carrying each blueprint in order; every failure is Internal |
| GrpcService.CreateReply | services/blueprint-service/src/GrpcServices/BlueprintGrpcService.cs:125-152 | a reply with the tag-less wire blueprint exactly on success; an argument error is InvalidArgument with its message, others Internal |
| GrpcService.UpdateReply | services/blueprint-service/src/GrpcServices/BlueprintGrpcService.cs:175-217 | a reply exactly when the service updated; absent is NotFound; an argument error is InvalidArgument with its message; others Internal |
| GrpcService.DeleteReply | services/blueprint-service/src/GrpcServices/BlueprintGrpcService.cs:226-244 | a reply exactly when the service deleted; false is NotFound; every failure is Internal |
| GrpcService.BlueprintGrpcService.constructor | services/blueprint-service/src/GrpcServices/BlueprintGrpcService.cs:10-13 | the façade is bound to the given service |
| GrpcService.BlueprintGrpcService.GetBlueprint | services/blueprint-service/src/GrpcServices/BlueprintGrpcService.cs:15-60 | an unparseable id is InvalidArgument with no call made; otherwise GetReply of the service outcome |
| GrpcService.BlueprintGrpcService.ListBlueprints | services/blueprint-service/src/GrpcServices/BlueprintGrpcService.cs:62-106 | calls with limit PageSize and the wrapped page offset; the reply is ListReply of a possible service outcome |
| GrpcService.BlueprintGrpcService.CreateBlueprint | services/blueprint-service/src/GrpcServices/BlueprintGrpcService.cs:108-153 | the table and reply follow CreateResponse of the converted request, defaulting absent metadata |
| GrpcService.BlueprintGrpcService.UpdateBlueprint | services/blueprint-service/src/GrpcServices/BlueprintGrpcService.cs:155-218 | an unparseable id is InvalidArgument and changes nothing; otherwise the table and reply follow UpdateResponse, including a row deleted by another client between the read and the write, which gives NotFound |
| GrpcService.BlueprintGrpcService.DeleteBlueprint | services/blueprint-service/src/GrpcServices/BlueprintGrpcService.cs:220-245 | an unparseable id is InvalidArgument and changes nothing; otherwise the table and reply follow DeleteOutcome |
| GrpcService.InternalDetailIsFixed | services/blueprint-service/src/GrpcServices/BlueprintGrpcService.cs:55-243 | an Internal status from any of the five handlers carries only the fixed text "An internal error occurred" |
| GrpcService.ListFailuresAreInternal | services/blueprint-service/src/GrpcServices/BlueprintGrpcService.cs:101-105 | an unreachable store or negative paging makes List reply Internal |
| GrpcService.PageZeroIsInternal | services/blueprint-service/src/GrpcServices/BlueprintGrpcService.cs:69 | page 0 of a positive size asks for a negative offset, which ends as Internal |
| GrpcService.CreateReplyOmitsTags | services/blueprint-service/src/GrpcServices/BlueprintGrpcService.cs:127-142 | the create reply has no tags, while reading the same blueprint back carries the request's tags, all else equal |
| GrpcService.UnsetMetadataIsDefault | services/blueprint-service/src/GrpcServices/BlueprintGrpcService.cs:117-122 | absent wire metadata becomes the default metadata, on create and update |
| Configuration.DefaultBlueprintConfiguration | services/blueprint-service/src/Configuration/BlueprintConfiguration.cs:5-11 | "BlueprintService", 3 retries, 30 seconds, 100 concurrent requests |
| Configuration.DefaultDatabaseConfiguration | services/blueprint-service/src/Configuration/BlueprintConfiguration.cs:13-19 | empty connection string, timeout 30, pool of 100, 5 minutes idle |
| Formatting.DigitChar | services/blueprint-service/src/Configuration/ConfigurationValidator.cs:15 | the decimal digit character of a value below ten |
| Formatting.FormatNatDigits | services/blueprint-service/src/Configuration/ConfigurationValidator.cs:15 | the decimal text of a number is non-empty, all digits, with no leading zero |
| Formatting.DigitsValueOfFormatNat | services/blueprint-service/src/Configuration/ConfigurationValidator.cs:15 | the digits read back give the number |
| Formatting.FormatIntSign | services/blueprint-service/src/Configuration/ConfigurationValidator.cs:15 | FormatInt: the text starts with '-' exactly for negative numbers |
| Formatting.ParseFormatInt | services/blueprint-service/src/Configuration/ConfigurationValidator.cs:15 | FormatInt: the integer text parses back to the integer |
| Formatting.PadLeftShape | services/blueprint-service/src/Configuration/ConfigurationValidator.cs:17 | padding adds only leading zeros, and only up to the width |
| Formatting.PaddedDigits | services/blueprint-service/src/Configuration/ConfigurationValidator.cs:17 | a zero-padded number is all digits and at least as wide as the width |
| Formatting.Decompose | services/blueprint-service/src/Configuration/ConfigurationValidator.cs:17 | a TimeSpan's hours, minutes, seconds and fraction are in range and the sign is kept |
| Formatting.RecomposeDecompose | services/blueprint-service/src/Configuration/ConfigurationValidator.cs:17 | the shown components make up exactly the TimeSpan |
| Formatting.FormatTimeSpanSign | services/blueprint-service/src/Configuration/ConfigurationValidator.cs:17 | FormatTimeSpan: the text starts with '-' exactly for negative spans and always shows at least "hh:mm:ss" |
| Formatting.FormatZeroSpan | services/blueprint-service/src/Configuration/ConfigurationValidator.cs:17 | TimeSpan.Zero prints "00:00:00" |
| Formatting.FormatThirtySeconds | services/blueprint-service/src/Configuration/BlueprintConfiguration.cs:9 | thirty seconds prints "00:00:30" |
| Formatting.FormatNegativeSpan | services/blueprint-service/src/Configuration/ConfigurationValidator.cs:17 | minus one second prints "-00:00:01" |
| Formatting.FormatOneDay | services/blueprint-service/src/Configuration/ConfigurationValidator.cs:48 | one day prints "1.00:00:00" |
| Formatting.PadOneTick | services/blueprint-service/src/Configuration/ConfigurationValidator.cs:17 | the fraction of one tick pads to "0000001" |
| Formatting.FormatOneTick | services/blueprint-service/src/Configuration/ConfigurationValidator.cs:17 | one tick prints "00:00:00.0000001" |
| Formatting.JoinAppend | services/blueprint-service/src/Configuration/ConfigurationValidator.cs:23 | Join: one more part adds one separator and the part |
| Formatting.JoinPair | services/blueprint-service/src/Configuration/ConfigurationValidator.cs:23 | Join: two parts are joined by one separator |
| Validation.FailureMessagesEmptyIffNoneFailed | services/blueprint-service/src/Configuration/ConfigurationValidator.cs:11-21 | no message exactly when no check fails, and never more messages than checks |
| Validation.FourChecks | services/blueprint-service/src/Configuration/ConfigurationValidator.cs:13-19 | four checks report, in order, what each contributes |
| Validation.BlueprintChecks | services/blueprint-service/src/Configuration/ConfigurationValidator.cs:13-19 | four checks in source order, failing exactly on an empty name, negative retries, a non-positive timeout, non-positive concurrency |
| Validation.DatabaseChecks | services/blueprint-service/src/Configuration/ConfigurationValidator.cs:31-49 | four checks in source order, failing exactly on an empty connection string, a non-positive command timeout, pool size, idle timeout |
| Validation.Verdict | services/blueprint-service/src/Configuration/ConfigurationValidator.cs:21-24 | passes exactly when there is no message; otherwise an ArgumentError whose text is the prefix followed by the messages joined by ", " |
| Validation.ValidateConfiguration | services/blueprint-service/src/Configuration/ConfigurationValidator.cs:9-25 | fails exactly with the prefix and the messages of the failing checks, in check order, joined by ", " |
| Validation.ValidateDatabaseConfiguration | services/blueprint-service/src/Configuration/ConfigurationValidator.cs:27-55 | fails exactly with the database prefix and the messages of the failing checks, in check order, joined by ", " |
| Validation.VerdictOfTwo | services/blueprint-service/src/Configuration/ConfigurationValidator.cs:21-24 | two messages appear after the prefix, separated by one ", " |
| Validation.FirstAndThirdFail | services/blueprint-service/src/Configuration/ConfigurationValidator.cs:13-19 | when the first and third checks fail, exactly their messages appear, in that order |
| ValidationProperties.BlueprintRejectsIffAnyCheckFails | services/blueprint-service/src/Configuration/ConfigurationValidator.cs:13-24 | the blueprint overload passes exactly when the name is set, retries are non-negative, and timeout and concurrency are positive |
| ValidationProperties.DatabaseRejectsIffAnyCheckFails | services/blueprint-service/src/Configuration/ConfigurationValidator.cs:31-54 | the database overload passes exactly when the connection string is set and the other three settings are positive |
| ValidationProperties.ZeroRetriesAccepted | services/blueprint-service/src/Configuration/ConfigurationValidator.cs:15 | zero retries pass; minus one fails with "RetryAttempts must be non-negative, but was -1" alone |
| ValidationProperties.DefaultConfigurationPasses | services/blueprint-service/src/Configuration/BlueprintConfiguration.cs:7-10 | the default blueprint configuration is valid |
| ValidationProperties.DefaultDatabaseConfigurationFails | services/blueprint-service/src/Configuration/BlueprintConfiguration.cs:15-18 | the default database configuration fails with the connection-string message only |
| ValidationProperties.ZeroTimeoutMessage | services/blueprint-service/src/Configuration/ConfigurationValidator.cs:17 | a zero request timeout is printed as "00:00:00" in its message |
| ValidationProperties.TwoFailuresInCheckOrder | services/blueprint-service/src/Configuration/ConfigurationValidator.cs:11-19 | an empty name and a zero timeout give exactly two messages, the name first |
| HealthChecks.DatabaseHealth | services/blueprint-service/src/Configuration/HealthChecks.cs:13-27 | Healthy exactly for true, Degraded exactly for false, Unhealthy exactly for an exception, which is kept; the descriptions |
| HealthChecks.ServiceHealth | services/blueprint-service/src/Configuration/HealthChecks.cs:34-41 | Healthy exactly when a service name is set, otherwise Degraded (never Unhealthy, never an exception), with the matching description |
| HealthChecks.ValidConfigurationIsHealthy | services/blueprint-service/src/Configuration/HealthChecks.cs:38-40 | every configuration the validator accepts is reported healthy |
| HealthChecks.HealthyConfigurationMayBeInvalid | services/blueprint-service/src/Configuration/HealthChecks.cs:38-40 | a configuration the validator refuses can still be reported healthy |
| HealthChecks.DatabaseHealthCheck.constructor | services/blueprint-service/src/Configuration/HealthChecks.cs:9-11 | the check is bound to the given repository |
| HealthChecks.DatabaseHealthCheck.CheckHealthAsync | services/blueprint-service/src/Configuration/HealthChecks.cs:13-27 | over this repository the check is never Unhealthy: Healthy exactly when the store answers, otherwise Degraded |
| ErrorHandling.Classify | services/blueprint-service/src/Configuration/ErrorHandlingMiddleware.cs:32-54 | 400 exactly for the argument and invalid-operation families, with their message; 401 exactly for unauthorized access, with a fixed text; 500 otherwise, with the generic text |
| ErrorHandling.OnlyBadRequestEchoesMessage | services/blueprint-service/src/Configuration/ErrorHandlingMiddleware.cs:46-53 | for 401 and 500 the response does not depend on the exception's text |
| ErrorHandling.HandleException | services/blueprint-service/src/Configuration/ErrorHandlingMiddleware.cs:30-68 | the body's status equals the response status; JSON content type; the request's trace id |
| ErrorHandling.Invoke | services/blueprint-service/src/Configuration/ErrorHandlingMiddleware.cs:18-28 | a normal completion passes through; an exception is absorbed into the error response |
| ErrorHandling.FailureResponses | services/blueprint-service/src/Configuration/ErrorHandlingMiddleware.cs:38-53 | an argument error becomes 400 with its message; a store failure becomes 500 without the client's text |

## Left out

- Network and database I/O. Connections, Npgsql, Dapper column binding, command timeouts and cancellation tokens are not modelled. The store is an in-memory map, and its failures are two flags: `reachable`, plus the faults the statements themselves raise.
- Concurrency and `async`. Each operation runs to completion on its own. The one interleaving the code handles, a row deleted by another client between the read and the write of an update, is the `vanished` parameter of `UpdateResponse` and `BlueprintService.UpdateAsync`.
- Service.UpdateResponse: the store becoming unreachable, or the row being changed rather than deleted, between the read and the write is not modelled; `reachable` is read once per operation.
- JSON syntax. The serializer is the `JsonCodec` parameter, and properties that need it to round-trip say so in their requires (`RoundTrips`).
- The text form of identifiers. `Guid.Parse` and `Guid.ToString()` are the `GuidFormat` parameter.
- The clock and `Guid.NewGuid()`. They are parameters (`newId`, `createdAt`, `updatedAt`, `now`).
- Null strings and null arrays. Every string is a `seq<char>`, so `IsNullOrEmpty` is emptiness.
- Culture-dependent formatting. `int.ToString()` and `TimeSpan.ToString()` follow the invariant culture.
- Logging, tracing activities, telemetry and `Console.Error`. They have no effect on results.
- Program.cs and TelemetrySetup.cs are not part of this model.
- The protobuf `Timestamp` conversion. `DateTime.SpecifyKind` and `Timestamp.FromDateTime` carry the same tick count; a DateTime outside the protobuf range is not modelled.
- ErrorHandling.HandleException: writing to the response is not modelled. Setting `ContentType` and `StatusCode`, and serialising the body with `WriteAsync`, become the returned `ErrorResponse`; a response that has already started is not modelled.
- ErrorHandling.Classify: exception types are a closed list of the standard types in each family. User-defined subclasses are not modelled.
- HealthChecks.DatabaseHealthCheck.CheckHealthAsync: the catch branch cannot fire over this repository, because its probe never throws. It is stated for any probe by `HealthChecks.DatabaseHealth`.
- Repository.BlueprintRepository.GetAllAsync: PostgreSQL's refusal of a negative `LIMIT` or `OFFSET` is modelled as the `NegativePaging` store fault. Likewise, an `INSERT` of a stored id is modelled as `UniqueViolation`.
- The CreatedAt == UpdatedAt promise for a new blueprint. The code reads the clock twice, so the model follows the code: `Mapper.CreateTimestampsFollowClock` states that the two are equal only when the two readings are.
- Dapper column binding is assumed to map `created_at` and `updated_at` to `CreatedAt` and `UpdatedAt`. Dapper's default type map matches column names ignoring case but not underscores, so these bind only with `DefaultTypeMap.MatchNamesWithUnderscores` enabled, and none of the modelled files sets it. Without it the returned timestamps are `DateTime.MinValue`. `Service.CreatedResponseContents`, `Service.CreateThenGetById` and `Service.UpdateReplacesWholeRecord` hold only under this binding.
- Queries.InsertRow: the `TIMESTAMPTZ` columns keep microseconds, so PostgreSQL rounds the 100 ns ticks of a `DateTime`. The model stores and returns the ticks unrounded, in `InsertRow`, `UpdateRow` and the lemmas that read timestamps back.
- Queries.InsertRow: PostgreSQL refuses a U+0000 character in a `TEXT` column and a `\u0000` escape in the `@Metadata::jsonb` cast, so a create whose name, description or metadata carries one throws in the store. The model accepts it: its "fails exactly on a duplicate id" covers only the faults modelled.
- Queries.InsertRow: `RETURNING metadata` gives back jsonb's normalized text (spacing, key order, a duplicate key kept once), not the serializer's text. The model returns the text it stored. `Service.CreateThenGetById` and the other read-back lemmas that assume `RoundTrips` therefore also assume that the codec reads the normalized text as it reads its own output.
- Queries.UpdateRow: the same two gaps as `InsertRow`. A U+0000 in the new name or description, or a `\u0000` in the metadata, makes the `UPDATE` throw, where the model succeeds. The returned metadata is the stored text, not jsonb's normalization. `Service.UpdateReplacesWholeRecord` carries the same assumption about the codec.
- Repository.BlueprintRepository.GetAllAsync: the default arguments `limit = 100` and `offset = 0` (BlueprintRepository.cs:61, and BlueprintService.cs:34 for the service) are not modelled. Both are always passed, and the gRPC handler, the only caller, passes both.
