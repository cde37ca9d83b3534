/**
 * The records of the SQLite tables kept by the storage engine and the rows
 * its queries return. A NULL column is `None`.
 */
module Rows {
  import opened Wrappers

  /** One row of the `items` table. */
  datatype ItemRecord = ItemRecord(
    content: string,
    contentType: Option<string>,
    contentText: Option<string>,
    contentBlob: Option<Bytes>,
    previewText: Option<string>,
    previewBlob: Option<Bytes>,
    createdAt: int,
    lastUsedAt: Option<int>,
    pinned: bool,
    pinnedAt: Option<int>,
    groupId: int)

  /** One row of the `groups` table, once every position has been backfilled. */
  datatype GroupRecord = GroupRecord(name: string, position: int)

  /** One row of the `subitems` table; `icons` is the list the JSON column encodes. */
  datatype SubitemRecord = SubitemRecord(
    itemId: int,
    text: string,
    icons: seq<string>,
    tag: Option<string>,
    createdAt: int)

  /**
   * A result row of an item query. `contentLength` and `hasFullContent` are
   * `None` when the query does not select those columns.
   */
  datatype Row = Row(
    id: int,
    content: string,
    contentType: Option<string>,
    contentText: Option<string>,
    contentBlob: Option<Bytes>,
    previewText: Option<string>,
    previewBlob: Option<Bytes>,
    contentLength: Option<int>,
    lastUsedAt: Option<int>,
    createdAt: int,
    pinned: bool,
    pinnedAt: Option<int>,
    groupId: int,
    hasFullContent: Option<bool>)

  /** Python's `value or default` for a possibly NULL text column. */
  function TextOr(value: Option<string>, default: string): string
  {
    if value.Some? && value.value != "" then value.value else default
  }

  /** `COALESCE(a, b)`: the first non-NULL of two columns. */
  function Coalesce<T>(a: Option<T>, b: Option<T>): Option<T>
  {
    if a.Some? then a else b
  }
}
