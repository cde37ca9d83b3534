/**
 * The read side of the storage layer: which rows a query selects, the order
 * it returns them in, and how `previews_only` projects each row.
 */
module Queries {
  import opened Wrappers
  import opened Rows
  import opened Sorting
  import opened SqlLike
  import opened Retention

  // Item order of `list_items`.

  /** `COALESCE(pinned_at, created_at)`. */
  function PinTime(rec: ItemRecord): int
  {
    if rec.pinnedAt.Some? then rec.pinnedAt.value else rec.createdAt
  }

  /**
   * Sort key of `ORDER BY pinned DESC, pin time ASC, id ASC` for pinned rows,
   * then `use time DESC, id DESC` for unpinned rows. Ids that are not items sort last.
   */
  function ItemRank(items: map<int, ItemRecord>, id: int): (int, int, int)
  {
    if id !in items then (2, 0, id)
    else if items[id].pinned then (0, PinTime(items[id]), id)
    else (1, -UseTime(items[id]), -id)
  }

  predicate ListBefore(items: map<int, ItemRecord>, a: int, b: int)
  {
    LexLess(ItemRank(items, a), ItemRank(items, b))
  }

  /** The order of `list_items` as a comparison function. */
  function ListLt(items: map<int, ItemRecord>): (int, int) -> bool
  {
    (a: int, b: int) => ListBefore(items, a, b)
  }

  lemma ItemRankInjective(items: map<int, ItemRecord>, a: int, b: int)
    requires ItemRank(items, a) == ItemRank(items, b)
    ensures a == b
  {
    var ra, rb := ItemRank(items, a), ItemRank(items, b);
    if ra.0 == 1 {
      assert ra.2 == -a && rb.2 == -b;
    } else {
      assert ra.2 == a && rb.2 == b;
    }
  }

  lemma ListOrder(items: map<int, ItemRecord>)
    ensures StrictTotalOrder(ListLt(items))
  {
    forall a, b, c | ListBefore(items, a, b) && ListBefore(items, b, c)
      ensures ListBefore(items, a, c)
    {
      LexLessTransitive(ItemRank(items, a), ItemRank(items, b), ItemRank(items, c));
    }
    forall a, b | a != b
      ensures ListBefore(items, a, b) || ListBefore(items, b, a)
    {
      if ItemRank(items, a) == ItemRank(items, b) {
        ItemRankInjective(items, a, b);
      }
    }
  }

  /**
   * What the `list_items` order means for the rows it returns: pinned rows
   * first, pinned rows oldest pin first, unpinned rows most recently used first,
   * ties broken by id (ascending among pinned, descending among unpinned).
   */
  lemma ListOrderMeaning(items: map<int, ItemRecord>, ids: seq<int>, i: int, j: int)
    requires SortedBy(ListLt(items), ids)
    requires forall k :: 0 <= k < |ids| ==> ids[k] in items
    requires 0 <= i < j < |ids|
    ensures items[ids[j]].pinned ==> items[ids[i]].pinned
    ensures items[ids[i]].pinned && items[ids[j]].pinned ==>
      PinTime(items[ids[i]]) < PinTime(items[ids[j]])
      || (PinTime(items[ids[i]]) == PinTime(items[ids[j]]) && ids[i] < ids[j])
    ensures !items[ids[i]].pinned && !items[ids[j]].pinned ==>
      UseTime(items[ids[i]]) > UseTime(items[ids[j]])
      || (UseTime(items[ids[i]]) == UseTime(items[ids[j]]) && ids[i] > ids[j])
  {
    assert ListBefore(items, ids[i], ids[j]);
  }

  /** Two arrangements of the same ids in `list_items` order are equal: the order is deterministic. */
  lemma ListItemsDeterministic(items: map<int, ItemRecord>, a: seq<int>, b: seq<int>)
    requires SortedBy(ListLt(items), a)
    requires SortedBy(ListLt(items), b)
    requires forall x :: x in a <==> x in b
    ensures a == b
  {
    ListOrder(items);
    forall x: int
      ensures x in a <==> x in b
    {
    }
    SortedUnique<int>(ListLt(items), a, b);
  }

  // Selection of `list_items`.

  /**
   * The WHERE clause: `group_id=?` when a group is given, and
   * `content_text LIKE '%q%'` when the query is non-empty. The search reads
   * the stored `content_text` column, not the projected one.
   */
  predicate Matches(rec: ItemRecord, gid: Option<int>, query: Option<string>)
  {
    (gid.None? || rec.groupId == gid.value)
    && (query.None? || query.value == ""
        || (rec.contentText.Some? && Like(rec.contentText.value, "%" + query.value + "%")))
  }

  function Selected(items: map<int, ItemRecord>, gid: Option<int>, query: Option<string>): (r: set<int>)
    ensures forall id :: id in r <==> id in items && Matches(items[id], gid, query)
  {
    set id | id in items && Matches(items[id], gid, query)
  }

  /** With neither a group nor a query, every item is listed. */
  lemma SelectedEverything(items: map<int, ItemRecord>, query: Option<string>)
    requires query.None? || query.value == ""
    ensures Selected(items, None, query) == items.Keys
  {
  }

  /** A query without wildcards keeps the rows whose text contains it, ignoring ASCII case. */
  lemma SelectedByText(items: map<int, ItemRecord>, gid: Option<int>, q: string, id: int)
    requires q != "" && NoWildcards(q) && id in items && items[id].contentText.Some?
    ensures id in Selected(items, gid, Some(q)) <==>
      (gid.None? || items[id].groupId == gid.value)
      && Strings.Contains(Strings.Lower(items[id].contentText.value), Strings.Lower(q))
  {
    LikeIsContains(items[id].contentText.value, q);
  }

  // Projection.

  function TextLength(t: Option<string>): int
  {
    if t.Some? then |t.value| else 0
  }

  predicate IsType(rec: ItemRecord, t: string)
  {
    rec.contentType == Some(t)
  }

  /**
   * One row of `list_items`. With `previews_only`, `content_text` becomes the
   * preview text unless the item is a draw.io diagram, the blob is dropped
   * when a preview image exists (except for HTML), and `has_full_content`
   * says whether the row still carries the full content.
   */
  function Project(id: int, rec: ItemRecord, previewsOnly: bool): (r: Row)
    ensures r.id == id && r.content == rec.content && r.contentType == rec.contentType
    ensures r.previewText == rec.previewText && r.previewBlob == rec.previewBlob
    ensures r.lastUsedAt == rec.lastUsedAt && r.createdAt == rec.createdAt
    ensures r.pinned == rec.pinned && r.pinnedAt == rec.pinnedAt && r.groupId == rec.groupId
    ensures r.contentLength == Some(TextLength(rec.contentText))
    ensures r.hasFullContent.Some?
  {
    if previewsOnly then
      Row(id, rec.content, rec.contentType,
          if IsType(rec, "drawio") then rec.contentText else Coalesce(rec.previewText, rec.contentText),
          if IsType(rec, "html") || rec.previewBlob.None? then rec.contentBlob else None,
          rec.previewText, rec.previewBlob, Some(TextLength(rec.contentText)),
          rec.lastUsedAt, rec.createdAt, rec.pinned, rec.pinnedAt, rec.groupId,
          Some(IsType(rec, "html") || (rec.previewBlob.None? && rec.previewText.None?)))
    else
      Row(id, rec.content, rec.contentType, rec.contentText, rec.contentBlob,
          rec.previewText, rec.previewBlob, Some(TextLength(rec.contentText)),
          rec.lastUsedAt, rec.createdAt, rec.pinned, rec.pinnedAt, rec.groupId, Some(true))
  }

  /** The row of `get_item` and `get_latest_item`: every column as stored. */
  function FullRow(id: int, rec: ItemRecord): (r: Row)
    ensures r.contentText == rec.contentText && r.contentBlob == rec.contentBlob
    ensures r.hasFullContent == Some(true)
  {
    Project(id, rec, false)
  }

  /** Without `previews_only`, a listed row is the full row. */
  lemma ProjectFull(id: int, rec: ItemRecord)
    ensures Project(id, rec, false) == FullRow(id, rec)
    ensures Project(id, rec, false).hasFullContent == Some(true)
  {
  }

  /**
   * With `previews_only`: a row claims full content exactly when it is HTML or
   * has no preview at all; such a row carries the stored blob. Any row but a
   * draw.io one shows its preview text in place of the content text when it
   * has one, and the stored text otherwise. The stored blob is kept for HTML
   * and for rows without a preview image, and dropped for every other row.
   */
  lemma ProjectPreview(id: int, rec: ItemRecord)
    ensures var r := Project(id, rec, true);
      (r.hasFullContent == Some(true) <==> IsType(rec, "html") || (rec.previewText.None? && rec.previewBlob.None?))
      && (r.hasFullContent == Some(true) ==> r.contentBlob == rec.contentBlob)
      && (rec.previewText.None? ==> r.contentText == rec.contentText)
      && (!IsType(rec, "drawio") && rec.previewText.Some? ==> r.contentText == rec.previewText)
      && (IsType(rec, "html") || rec.previewBlob.None? ==> r.contentBlob == rec.contentBlob)
      && (!IsType(rec, "html") && rec.previewBlob.Some? ==> r.contentBlob.None?)
  {
  }

  /** A draw.io row keeps its full text even when previews only are listed. */
  lemma ProjectDrawioKeepsText(id: int, rec: ItemRecord)
    requires IsType(rec, "drawio")
    ensures Project(id, rec, true).contentText == rec.contentText
  {
  }

  /** A row that lost its blob to a preview image still has the preview image. */
  lemma ProjectDropsBlobOnlyForPreview(id: int, rec: ItemRecord)
    ensures var r := Project(id, rec, true);
      r.contentBlob != rec.contentBlob ==> r.contentBlob.None? && rec.previewBlob.Some? && !IsType(rec, "html")
  {
  }

  // Group order of `list_groups` and subitem order of `list_subitems`.

  /** `ORDER BY position ASC, id ASC`; ids that are not groups sort last. */
  function GroupRank(groups: map<int, GroupRecord>, id: int): (int, int, int)
  {
    if id in groups then (0, groups[id].position, id) else (1, 0, id)
  }

  predicate GroupBefore(groups: map<int, GroupRecord>, a: int, b: int)
  {
    LexLess(GroupRank(groups, a), GroupRank(groups, b))
  }

  /** The order of `list_groups` as a comparison function. */
  function GroupLt(groups: map<int, GroupRecord>): (int, int) -> bool
  {
    (a: int, b: int) => GroupBefore(groups, a, b)
  }

  lemma GroupOrder(groups: map<int, GroupRecord>)
    ensures StrictTotalOrder(GroupLt(groups))
  {
    forall a, b, c | GroupBefore(groups, a, b) && GroupBefore(groups, b, c)
      ensures GroupBefore(groups, a, c)
    {
      LexLessTransitive(GroupRank(groups, a), GroupRank(groups, b), GroupRank(groups, c));
    }
    forall a, b | a != b
      ensures GroupBefore(groups, a, b) || GroupBefore(groups, b, a)
    {
      assert GroupRank(groups, a) != GroupRank(groups, b);
    }
  }

  /** `ORDER BY created_at ASC, id ASC`; ids that are not subitems sort last. */
  function SubitemRank(subitems: map<int, SubitemRecord>, id: int): (int, int, int)
  {
    if id in subitems then (0, subitems[id].createdAt, id) else (1, 0, id)
  }

  predicate SubitemBefore(subitems: map<int, SubitemRecord>, a: int, b: int)
  {
    LexLess(SubitemRank(subitems, a), SubitemRank(subitems, b))
  }

  /** The order of `list_subitems` as a comparison function. */
  function SubitemLt(subitems: map<int, SubitemRecord>): (int, int) -> bool
  {
    (a: int, b: int) => SubitemBefore(subitems, a, b)
  }

  lemma SubitemOrder(subitems: map<int, SubitemRecord>)
    ensures StrictTotalOrder(SubitemLt(subitems))
  {
    forall a, b, c | SubitemBefore(subitems, a, b) && SubitemBefore(subitems, b, c)
      ensures SubitemBefore(subitems, a, c)
    {
      LexLessTransitive(SubitemRank(subitems, a), SubitemRank(subitems, b), SubitemRank(subitems, c));
    }
    forall a, b | a != b
      ensures SubitemBefore(subitems, a, b) || SubitemBefore(subitems, b, a)
    {
      assert SubitemRank(subitems, a) != SubitemRank(subitems, b);
    }
  }

  // Positions written by `update_group_positions`.

  /** The `executemany` of `update_group_positions`: the k-th listed id gets position k + 1, in list order. */
  function Reposition(groups: map<int, GroupRecord>, ids: seq<int>): map<int, GroupRecord>
  {
    if ids == [] then groups
    else
      var before := Reposition(groups, ids[..|ids| - 1]);
      var last := ids[|ids| - 1];
      if last in before then before[last := before[last].(position := |ids|)] else before
  }

  /**
   * Repositioning keeps the groups and their names, leaves unlisted groups
   * where they are, and gives a listed group the position after its last
   * occurrence in the list.
   */
  lemma {:induction false} RepositionMeaning(groups: map<int, GroupRecord>, ids: seq<int>)
    ensures Reposition(groups, ids).Keys == groups.Keys
    ensures forall g :: g in groups ==> Reposition(groups, ids)[g].name == groups[g].name
    ensures forall g :: g in groups && g !in ids ==> Reposition(groups, ids)[g] == groups[g]
    ensures forall i :: 0 <= i < |ids| && ids[i] in groups && ids[i] !in ids[i + 1..] ==>
      Reposition(groups, ids)[ids[i]].position == i + 1
  {
    if ids != [] {
      var init := ids[..|ids| - 1];
      RepositionMeaning(groups, init);
      var r := Reposition(groups, ids);
      forall i | 0 <= i < |ids| && ids[i] in groups && ids[i] !in ids[i + 1..]
        ensures r[ids[i]].position == i + 1
      {
        if i < |ids| - 1 {
          assert init[i] == ids[i];
          assert init[i + 1..] <= ids[i + 1..];
          assert ids[|ids| - 1] in ids[i + 1..];
        }
      }
      forall g | g in groups && g !in ids
        ensures r[g] == groups[g]
      {
        assert g !in init;
      }
    }
  }
}
