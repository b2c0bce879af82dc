/** The messages of the BlueprintService gRPC contract. Identifiers travel as
    text; timestamps are carried as the same tick counts as in the domain. A
    message-typed field of a request may be unset, hence the Option. */
module BlueprintProto {
  import opened Common

  datatype BlueprintMetadata = BlueprintMetadata(owner: string, version: string, tags: seq<string>)

  datatype Blueprint = Blueprint(
    id: string,
    name: string,
    description: string,
    createdAt: Timestamp,
    updatedAt: Timestamp,
    metadata: BlueprintMetadata)

  datatype GetBlueprintRequest = GetBlueprintRequest(id: string)
  datatype GetBlueprintResponse = GetBlueprintResponse(blueprint: Blueprint)

  /** `page_number` is 1-based; both fields are 32-bit signed integers. */
  datatype ListBlueprintsRequest = ListBlueprintsRequest(pageNumber: Int32, pageSize: Int32)
  datatype ListBlueprintsResponse = ListBlueprintsResponse(blueprints: seq<Blueprint>)

  datatype CreateBlueprintRequest = CreateBlueprintRequest(
    name: string,
    description: string,
    metadata: Option<BlueprintMetadata>)
  datatype CreateBlueprintResponse = CreateBlueprintResponse(blueprint: Blueprint)

  datatype UpdateBlueprintRequest = UpdateBlueprintRequest(
    id: string,
    name: string,
    description: string,
    metadata: Option<BlueprintMetadata>)
  datatype UpdateBlueprintResponse = UpdateBlueprintResponse(blueprint: Blueprint)

  datatype DeleteBlueprintRequest = DeleteBlueprintRequest(id: string)
  datatype DeleteBlueprintResponse = DeleteBlueprintResponse
}
