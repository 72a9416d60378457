/**
 * The data that the selection-and-scheduling core works on: the children of a
 * viewable in a derivative manifest, the viewables themselves, and the page
 * descriptors built from them.
 */
module Manifest {
  import opened Wrappers

  /** The role of the node that holds a page's PDF. */
  const PdfPageRole: string := "pdf-page"
  /** The role of a node that holds one thumbnail image of a page. */
  const ThumbnailRole: string := "thumbnail"
  /** The only `type` a downloadable node may have. */
  const ResourceType: string := "resource"

  /**
   * A child node of a viewable. Each field is None when the manifest node
   * has no such key (or has it set to null); `typ` stands for the `type` key.
   */
  datatype ResourceNode = ResourceNode(role: Option<string>, typ: Option<string>, urn: Option<string>)

  /** One viewable (one page) of the first derivative, with its child nodes in manifest order. */
  datatype Viewable = Viewable(name: Option<string>, children: seq<ResourceNode>)

  /** The in-memory page descriptor `{ name, file, thumbnails }`; `file` is None for null/undefined. */
  datatype Page = Page(name: Option<string>, file: Option<ResourceNode>, thumbnails: seq<ResourceNode>)

  /** A node is selected for (role, typ) when it has both keys and both values match. */
  predicate IsEligible(node: ResourceNode, role: string, typ: string)
  {
    node.role == Some(role) && node.typ == Some(typ)
  }
}
