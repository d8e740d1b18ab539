/** The auditor's vocabulary: what it can report, and about what. */
module Anomalies {
  import opened ByteOrder

  datatype Tree = CatalogTree | ExtentsTree
  datatype NodeDetail = UndocumentedKind | LeafAtHeightZero | HeaderKindElsewhere | LinksToItself | ChainLoopsBack
  datatype TimeDetail = ModifiedBeforeCreation | BeforeBoundary(which: Stamp) | AfterVolume(which: Stamp)
  datatype Stamp = Creation | ContentModification
  datatype PayloadDetail = ShortHeader | UndocumentedType | EmptyResourceFork | ResourceWithoutBlocks | NoInlinePayload

  datatype Anomaly =
    | BtreeNodeInvalid(tree: Tree, node: u32, detail: NodeDetail)
    | CatalogExtentsMismatch(cnid: u32, name: string, logical: u64, allocatedBlocks: u32, neededBlocks: u32)
    | DeletedButReferenced(cnid: u32, parent: u32, name: string)
    | TimeAnomaly(cnid: u32, name: string, time: TimeDetail)
    | DecmpfsMissingResource(cnid: u32, name: string, compressionType: u32, payload: PayloadDetail)

  function If<T>(c: bool, x: T): seq<T> {
    if c then [x] else []
  }
}
