/**
 * The storage engine: four tables (groups, items, subitems, settings) with
 * auto-increment ids, kept as maps. Each method is one atomic step of the
 * SQL it issues; timestamps are parameters.
 */
module Storage {
  import opened Wrappers
  import opened Rows
  import opened Strings
  import opened Sorting
  import opened Retention
  import opened Queries

  const DefaultMaxStoragePerGroup := 300

  /** The per-group cap: a missing or non-positive request falls back to the default. */
  function EffectiveCap(requested: Option<int>): (r: int)
    ensures r > 0
    ensures r == DefaultMaxStoragePerGroup || (requested.Some? && r == requested.value)
    ensures requested.Some? && requested.value > 0 <==> requested.Some? && r == requested.value
  {
    if requested.Some? && requested.value > 0 then requested.value else DefaultMaxStoragePerGroup
  }

  // Migration of an existing database.

  /** A group row of an older database, whose `position` column may be NULL or missing. */
  datatype LegacyGroup = LegacyGroup(name: string, position: Option<int>)

  /**
   * The database file as opened: its tables and, per table, the largest id
   * ever handed out (SQLite's `sqlite_sequence`).
   */
  datatype Snapshot = Snapshot(
    groups: map<int, LegacyGroup>,
    items: map<int, ItemRecord>,
    subitems: map<int, SubitemRecord>,
    settings: map<string, string>,
    groupSeq: int,
    itemSeq: int,
    subitemSeq: int)

  /** What SQLite guarantees of a database file: ids within the sequences, unique group names. */
  predicate WellFormed(db: Snapshot)
  {
    db.groupSeq >= 0 && db.itemSeq >= 0 && db.subitemSeq >= 0
    && (forall g :: g in db.groups ==> 1 <= g <= db.groupSeq)
    && (forall i :: i in db.items ==> 1 <= i <= db.itemSeq)
    && (forall s :: s in db.subitems ==> 1 <= s <= db.subitemSeq)
    && (forall a, b :: a in db.groups && b in db.groups && a != b ==> db.groups[a].name != db.groups[b].name)
  }

  /** `UPDATE groups SET position=id WHERE position IS NULL`. */
  function BackfillGroups(gs: map<int, LegacyGroup>): (r: map<int, GroupRecord>)
    ensures r.Keys == gs.Keys
    ensures forall g :: g in gs ==> r[g].name == gs[g].name
    ensures forall g :: g in gs && gs[g].position.Some? ==> r[g].position == gs[g].position.value
  {
    map g | g in gs :: GroupRecord(gs[g].name, gs[g].position.GetOr(g))
  }

  /** Every item has its text, and every pinned item its pin time. */
  predicate Backfilled(rec: ItemRecord)
  {
    rec.contentText.Some? && (rec.pinned ==> rec.pinnedAt.Some?)
  }

  /**
   * `content_text=content WHERE content_text IS NULL`, then
   * `pinned_at=created_at WHERE pinned=1 AND pinned_at IS NULL`.
   */
  function BackfillItem(rec: ItemRecord): (r: ItemRecord)
    ensures Backfilled(r)
    ensures r.(contentText := rec.contentText, pinnedAt := rec.pinnedAt) == rec
    ensures rec.contentText.Some? ==> r.contentText == rec.contentText
    ensures rec.pinnedAt.Some? || !rec.pinned ==> r.pinnedAt == rec.pinnedAt
  {
    rec.(contentText := if rec.contentText.Some? then rec.contentText else Some(rec.content),
         pinnedAt := if rec.pinned && rec.pinnedAt.None? then Some(rec.createdAt) else rec.pinnedAt)
  }

  /** Migrating a migrated row changes nothing. */
  lemma BackfillItemIdempotent(rec: ItemRecord)
    ensures BackfillItem(BackfillItem(rec)) == BackfillItem(rec)
  {
  }

  function BackfillItems(items: map<int, ItemRecord>): (r: map<int, ItemRecord>)
    ensures r.Keys == items.Keys
    ensures forall i :: i in items ==> r[i] == BackfillItem(items[i])
  {
    map i | i in items :: BackfillItem(items[i])
  }

  // Helpers over the tables.

  function NamesOf(groups: map<int, GroupRecord>): (r: set<string>)
    ensures forall g :: g in groups ==> groups[g].name in r
    ensures forall n :: n in r ==> exists g :: g in groups && groups[g].name == n
  {
    set g | g in groups :: groups[g].name
  }

  predicate UniqueNames(groups: map<int, GroupRecord>)
  {
    forall a, b :: a in groups && b in groups && a != b ==> groups[a].name != groups[b].name
  }

  /** A group whose name is not taken keeps the names unique. */
  lemma UniqueNamesAdd(groups: map<int, GroupRecord>, id: int, rec: GroupRecord)
    requires UniqueNames(groups) && id !in groups && rec.name !in NamesOf(groups)
    ensures UniqueNames(groups[id := rec])
  {
  }

  /** `COALESCE(MAX(position), 0) + 1` is `p`. */
  ghost predicate IsNextPosition(groups: map<int, GroupRecord>, p: int)
  {
    (groups == map[] ==> p == 1)
    && (groups != map[] ==>
          (forall g :: g in groups ==> groups[g].position < p)
          && exists g :: g in groups && groups[g].position == p - 1)
  }

  /** The subitems that do not belong to any of `ids`. */
  function SubitemsNotOf(subitems: map<int, SubitemRecord>, ids: set<int>): (r: map<int, SubitemRecord>)
    ensures forall s :: s in r <==> s in subitems && subitems[s].itemId !in ids
    ensures forall s :: s in r ==> r[s] == subitems[s]
  {
    map s | s in subitems && subitems[s].itemId !in ids :: subitems[s]
  }

  /** The items of one group. */
  function InGroup(items: map<int, ItemRecord>, gid: int): (r: set<int>)
    ensures forall i :: i in r <==> i in items && items[i].groupId == gid
  {
    set i | i in items && items[i].groupId == gid
  }

  /** The row `add_item` inserts. */
  function NewItem(contentType: string, contentText: string, contentBlob: Option<Bytes>,
                   previewText: Option<string>, previewBlob: Option<Bytes>, createdAt: int, groupId: int): (r: ItemRecord)
    ensures Backfilled(r) && !r.pinned && r.pinnedAt.None? && r.lastUsedAt.None?
    ensures r.content == contentText && r.contentText == Some(contentText)
  {
    ItemRecord(contentText, Some(contentType), Some(contentText), contentBlob, previewText, previewBlob,
               createdAt, None, false, None, groupId)
  }

  /** `LOWER(tag)=LOWER(?)` on a subitem of the given item. */
  predicate TagMatches(rec: SubitemRecord, itemId: int, tag: string)
  {
    rec.itemId == itemId && rec.tag.Some? && Lower(rec.tag.value) == Lower(tag)
  }

  /** The backfilled tables of a well-formed database keep its unique names, and every item is backfilled. */
  lemma OpenedTablesValid(db: Snapshot)
    requires WellFormed(db)
    ensures UniqueNames(BackfillGroups(db.groups))
    ensures forall i :: i in BackfillItems(db.items) ==> Backfilled(BackfillItems(db.items)[i])
  {
  }

  /** A row of `list_groups`. */
  datatype GroupRow = GroupRow(id: int, name: string, position: int)

  /** A row of `list_subitems`. */
  datatype SubitemRow = SubitemRow(id: int, itemId: int, text: string, icons: seq<string>, tag: Option<string>)

  /** The rows of `list_groups` for the given ids, in their order. */
  function GroupRowsOf(gs: map<int, GroupRecord>, ids: seq<int>): (rows: seq<GroupRow>)
    requires forall k :: 0 <= k < |ids| ==> ids[k] in gs
    ensures |rows| == |ids|
    ensures forall k :: 0 <= k < |rows| ==> rows[k] == GroupRow(ids[k], gs[ids[k]].name, gs[ids[k]].position)
  {
    seq(|ids|, k requires 0 <= k < |ids| => GroupRow(ids[k], gs[ids[k]].name, gs[ids[k]].position))
  }

  /** Listing every group id in group order gives each group once, in that order. */
  lemma ListedGroups(gs: map<int, GroupRecord>, ids: seq<int>)
    requires SortedBy(GroupLt(gs), ids)
    requires forall x :: x in ids <==> x in gs.Keys
    requires |ids| == |gs|
    ensures forall k :: 0 <= k < |ids| ==> ids[k] in gs
    ensures var rows := GroupRowsOf(gs, ids);
      |rows| == |gs|
      && (forall k :: 0 <= k < |rows| ==>
            rows[k].id in gs && rows[k] == GroupRow(rows[k].id, gs[rows[k].id].name, gs[rows[k].id].position))
      && (forall g :: g in gs ==> exists k :: 0 <= k < |rows| && rows[k].id == g)
      && (forall i, j :: 0 <= i < j < |rows| ==> GroupBefore(gs, rows[i].id, rows[j].id))
  {
    IdsInGroups(gs, ids);
    var rows := GroupRowsOf(gs, ids);
    GroupRowsCover(gs, ids);
    GroupRowsOrdered(gs, ids);
  }

  lemma GroupRowsOrdered(gs: map<int, GroupRecord>, ids: seq<int>)
    requires SortedBy(GroupLt(gs), ids)
    requires forall k :: 0 <= k < |ids| ==> ids[k] in gs
    ensures forall i, j :: 0 <= i < j < |ids| ==> GroupBefore(gs, GroupRowsOf(gs, ids)[i].id, GroupRowsOf(gs, ids)[j].id)
  {
    var rows := GroupRowsOf(gs, ids);
    forall i, j | 0 <= i < j < |ids|
      ensures GroupBefore(gs, rows[i].id, rows[j].id)
    {
      assert GroupLt(gs)(ids[i], ids[j]);
    }
  }

  lemma IdsInGroups(gs: map<int, GroupRecord>, ids: seq<int>)
    requires forall x :: x in ids <==> x in gs.Keys
    ensures forall k :: 0 <= k < |ids| ==> ids[k] in gs
  {
    forall k | 0 <= k < |ids|
      ensures ids[k] in gs
    {
      var x := ids[k];
      assert x in ids;
      assert x in gs.Keys;
    }
  }

  lemma GroupRowsCover(gs: map<int, GroupRecord>, ids: seq<int>)
    requires forall x :: x in ids <==> x in gs.Keys
    requires forall k :: 0 <= k < |ids| ==> ids[k] in gs
    ensures forall g :: g in gs ==> exists k :: 0 <= k < |GroupRowsOf(gs, ids)| && GroupRowsOf(gs, ids)[k].id == g
  {
    var rows := GroupRowsOf(gs, ids);
    forall g | g in gs
      ensures exists k :: 0 <= k < |rows| && rows[k].id == g
    {
      var k := IndexOf(ids, g);
      assert rows[k].id == g;
    }
  }

  /** The rows of `list_items` for the given ids, in their order. */
  function ItemRowsOf(its: map<int, ItemRecord>, ids: seq<int>, previewsOnly: bool): (rows: seq<Row>)
    requires forall k :: 0 <= k < |ids| ==> ids[k] in its
    ensures |rows| == |ids|
    ensures forall k :: 0 <= k < |rows| ==> rows[k] == Project(ids[k], its[ids[k]], previewsOnly)
  {
    seq(|ids|, k requires 0 <= k < |ids| => Project(ids[k], its[ids[k]], previewsOnly))
  }

  /** Listing the chosen item ids in item order gives each chosen item once, in that order. */
  lemma ListedItems(its: map<int, ItemRecord>, chosen: set<int>, ids: seq<int>, previewsOnly: bool)
    requires chosen <= its.Keys
    requires SortedBy(ListLt(its), ids)
    requires forall x :: x in ids <==> x in chosen
    requires |ids| == |chosen|
    ensures forall k :: 0 <= k < |ids| ==> ids[k] in its
    ensures var rows := ItemRowsOf(its, ids, previewsOnly);
      |rows| == |chosen|
      && (forall k :: 0 <= k < |rows| ==>
            rows[k].id in chosen && rows[k] == Project(rows[k].id, its[rows[k].id], previewsOnly))
      && (forall id :: id in chosen ==> exists k :: 0 <= k < |rows| && rows[k].id == id)
      && (forall i, j :: 0 <= i < j < |rows| ==> ListBefore(its, rows[i].id, rows[j].id))
  {
    forall k | 0 <= k < |ids|
      ensures ids[k] in chosen
    {
      Member(ids, k);
    }
    var rows := ItemRowsOf(its, ids, previewsOnly);
    forall id | id in chosen
      ensures exists k :: 0 <= k < |rows| && rows[k].id == id
    {
      var k := IndexOf(ids, id);
      assert rows[k].id == id;
    }
    assert forall i, j :: 0 <= i < j < |ids| ==> ListLt(its)(ids[i], ids[j]);
  }

  const UniqueViolation := "UNIQUE constraint failed: groups.name"
  const NoneNotIterable := "argument of type 'NoneType' is not iterable"

  class Storage {
    const cap: int
    var groups: map<int, GroupRecord>
    var items: map<int, ItemRecord>
    var subitems: map<int, SubitemRecord>
    var settings: map<string, string>
    var nextGroupId: int
    var nextItemId: int
    var nextSubitemId: int

    ghost predicate Valid()
      reads this
    {
      cap > 0 && nextGroupId >= 1 && nextItemId >= 1 && nextSubitemId >= 1
      && (forall g :: g in groups ==> 1 <= g < nextGroupId)
      && (forall i :: i in items ==> 1 <= i < nextItemId)
      && (forall s :: s in subitems ==> 1 <= s < nextSubitemId)
      && UniqueNames(groups)
      && (forall i :: i in items ==> Backfilled(items[i]))
    }

    /**
     * Opening a database: the cap is fixed, legacy rows are backfilled, and a
     * group named "Default" is created when there is none.
     */
    constructor(requested: Option<int>, db: Snapshot)
      requires WellFormed(db)
      ensures Valid()
      ensures cap == EffectiveCap(requested)
      ensures items == BackfillItems(db.items)
      ensures subitems == db.subitems && settings == db.settings
      ensures "Default" in NamesOf(groups)
      ensures "Default" in NamesOf(BackfillGroups(db.groups)) ==> groups == BackfillGroups(db.groups)
      ensures "Default" !in NamesOf(BackfillGroups(db.groups)) ==>
        groups.Keys == db.groups.Keys + {db.groupSeq + 1}
        && forall g :: g in db.groups ==> groups[g] == BackfillGroups(db.groups)[g]
    {
      cap := EffectiveCap(requested);
      groups := BackfillGroups(db.groups);
      items := BackfillItems(db.items);
      subitems := db.subitems;
      settings := db.settings;
      nextGroupId := db.groupSeq + 1;
      nextItemId := db.itemSeq + 1;
      nextSubitemId := db.subitemSeq + 1;
      OpenedTablesValid(db);
      new;
      assert Valid();
      EnsureDefaultGroup();
    }

    /** The start-up step that creates the "Default" group when no group has that name. */
    method EnsureDefaultGroup()
      requires Valid()
      modifies this
      ensures Valid()
      ensures "Default" in NamesOf(groups)
      ensures "Default" in NamesOf(old(groups)) ==> groups == old(groups)
      ensures "Default" !in NamesOf(old(groups)) ==>
        groups.Keys == old(groups).Keys + {old(nextGroupId)}
        && forall g :: g in old(groups) ==> groups[g] == old(groups)[g]
      ensures items == old(items) && subitems == old(subitems) && settings == old(settings)
      ensures nextItemId == old(nextItemId) && nextSubitemId == old(nextSubitemId)
    {
      var existing := GetGroupByName("Default");
      if existing.None? {
        var created := CreateGroup("Default");
        assert created.value in groups && groups[created.value].name == "Default";
      }
    }

    // Groups.

    /** `SELECT COALESCE(MAX(position), 0) + 1 FROM groups`. */
    method NextPosition() returns (p: int)
      ensures IsNextPosition(groups, p)
    {
      p := 1;
      var rest := groups.Keys;
      var first := true;
      ghost var top := 0;
      while rest != {}
        invariant rest <= groups.Keys
        invariant first ==> p == 1 && rest == groups.Keys
        invariant forall g :: g in groups && g !in rest ==> groups[g].position < p
        invariant !first ==> top in groups && groups[top].position == p - 1
        decreases |rest|
      {
        var g := Pick(rest);
        if first || groups[g].position >= p {
          p := groups[g].position + 1;
          top := g;
        }
        first := false;
        rest := rest - {g};
      }
      if groups != map[] {
        assert groups.Keys != {};
      } else {
        assert groups.Keys == {};
      }
    }

    /** `create_group`: a new group after the last position; a taken name raises and changes nothing. */
    method CreateGroup(name: string) returns (r: Result<int, string>)
      requires Valid()
      modifies this
      ensures Valid()
      ensures name in NamesOf(old(groups)) ==>
        r == Err(UniqueViolation) && groups == old(groups) && nextGroupId == old(nextGroupId)
      ensures name !in NamesOf(old(groups)) ==>
        r == Ok(old(nextGroupId)) && nextGroupId == old(nextGroupId) + 1
        && r.value !in old(groups) && r.value in groups
        && groups == old(groups)[r.value := GroupRecord(name, groups[r.value].position)]
        && IsNextPosition(old(groups), groups[r.value].position)
      ensures items == old(items) && subitems == old(subitems) && settings == old(settings)
      ensures nextItemId == old(nextItemId) && nextSubitemId == old(nextSubitemId)
    {
      if name in NamesOf(groups) {
        return Err(UniqueViolation);
      }
      var position := NextPosition();
      var id := nextGroupId;
      UniqueNamesAdd(groups, id, GroupRecord(name, position));
      groups := groups[id := GroupRecord(name, position)];
      nextGroupId := nextGroupId + 1;
      r := Ok(id);
    }

    /** `rename_group`: renames an existing group unless another group has the name. */
    method RenameGroup(id: int, name: string) returns (r: Result<(), string>)
      requires Valid()
      modifies this
      ensures Valid()
      ensures r.Err? <==> id in old(groups) && name in NamesOf(old(groups) - {id})
      ensures r.Err? ==> r.error == UniqueViolation && groups == old(groups)
      ensures r.Ok? && id in old(groups) ==> groups == old(groups)[id := old(groups)[id].(name := name)]
      ensures r.Ok? && id !in old(groups) ==> groups == old(groups)
      ensures items == old(items) && subitems == old(subitems) && settings == old(settings)
      ensures nextGroupId == old(nextGroupId) && nextItemId == old(nextItemId) && nextSubitemId == old(nextSubitemId)
    {
      if id in groups && name in NamesOf(groups - {id}) {
        return Err(UniqueViolation);
      }
      if id in groups {
        forall g | g in groups && g != id
          ensures groups[g].name != name
        {
          assert g in groups - {id};
        }
        groups := groups[id := groups[id].(name := name)];
      }
      r := Ok(());
    }

    /** `delete_group`: the group's items' subitems, then its items, then the group. */
    method DeleteGroup(gid: int)
      requires Valid()
      modifies this
      ensures Valid()
      ensures groups == old(groups) - {gid}
      ensures items == old(items) - InGroup(old(items), gid)
      ensures subitems == SubitemsNotOf(old(subitems), InGroup(old(items), gid))
      ensures settings == old(settings)
      ensures nextGroupId == old(nextGroupId) && nextItemId == old(nextItemId) && nextSubitemId == old(nextSubitemId)
    {
      var doomed := InGroup(items, gid);
      subitems := SubitemsNotOf(subitems, doomed);
      items := items - doomed;
      groups := groups - {gid};
    }

    /** `list_groups`: every group, by position then id. */
    method ListGroups() returns (rows: seq<GroupRow>)
      requires Valid()
      ensures |rows| == |groups|
      ensures forall k :: 0 <= k < |rows| ==>
        rows[k].id in groups && rows[k] == GroupRow(rows[k].id, groups[rows[k].id].name, groups[rows[k].id].position)
      ensures forall g :: g in groups ==> exists k :: 0 <= k < |rows| && rows[k].id == g
      ensures forall i, j :: 0 <= i < j < |rows| ==> GroupBefore(groups, rows[i].id, rows[j].id)
    {
      var gs := groups;
      GroupOrder(gs);
      var ids := SortSet(GroupLt(gs), gs.Keys);
      ListedGroups(gs, ids);
      rows := GroupRowsOf(gs, ids);
    }

    /** `update_group_positions`: the k-th listed id gets position k + 1; unknown ids are skipped. */
    method UpdateGroupPositions(orderedIds: seq<int>)
      requires Valid()
      modifies this
      ensures Valid()
      ensures groups == Reposition(old(groups), orderedIds)
      ensures items == old(items) && subitems == old(subitems) && settings == old(settings)
      ensures nextGroupId == old(nextGroupId) && nextItemId == old(nextItemId) && nextSubitemId == old(nextSubitemId)
    {
      var i := 0;
      while i < |orderedIds|
        invariant 0 <= i <= |orderedIds|
        invariant groups == Reposition(old(groups), orderedIds[..i])
        invariant Valid()
        invariant items == old(items) && subitems == old(subitems) && settings == old(settings)
        invariant nextGroupId == old(nextGroupId) && nextItemId == old(nextItemId) && nextSubitemId == old(nextSubitemId)
      {
        var gid := orderedIds[i];
        assert orderedIds[..i + 1][..i] == orderedIds[..i];
        if gid in groups {
          groups := groups[gid := groups[gid].(position := i + 1)];
        }
        i := i + 1;
      }
      assert orderedIds[..i] == orderedIds;
    }

    method GroupExists(id: int) returns (b: bool)
      ensures b <==> id in groups
    {
      b := id in groups;
    }

    /** `get_group_by_name`: the (id, name) of the group with exactly this name. */
    method GetGroupByName(name: string) returns (r: Option<(int, string)>)
      requires Valid()
      ensures r.None? <==> name !in NamesOf(groups)
      ensures r.Some? ==> r.value.0 in groups && groups[r.value.0].name == name && r.value.1 == name
    {
      var matching := set g | g in groups && groups[g].name == name;
      if matching == {} {
        assert forall g :: g in groups ==> g in matching || groups[g].name != name;
        return None;
      }
      var g := Pick(matching);
      r := Some((g, name));
    }

    method GetGroupById(id: int) returns (r: Option<(int, string)>)
      ensures r.Some? <==> id in groups
      ensures r.Some? ==> r.value == (id, groups[id].name)
    {
      r := if id in groups then Some((id, groups[id].name)) else None;
    }

    // Settings.

    method GetSetting(key: string, default: Option<string>) returns (r: Option<string>)
      ensures key in settings ==> r == Some(settings[key])
      ensures key !in settings ==> r == default
    {
      r := if key in settings then Some(settings[key]) else default;
    }

    /** `set_setting`: an upsert. */
    method SetSetting(key: string, value: string)
      requires Valid()
      modifies this
      ensures Valid()
      ensures settings == old(settings)[key := value]
      ensures groups == old(groups) && items == old(items) && subitems == old(subitems)
      ensures nextGroupId == old(nextGroupId) && nextItemId == old(nextItemId) && nextSubitemId == old(nextSubitemId)
    {
      settings := settings[key := value];
    }

    // Items.

    /**
     * `add_item`: inserts an unpinned row whose `content` is its text, then
     * prunes the group. The new id is returned even when the prune removed it.
     */
    method AddItem(contentType: string, contentText: string, contentBlob: Option<Bytes>,
                   previewText: Option<string>, previewBlob: Option<Bytes>, createdAt: int, groupId: int)
      returns (newId: int)
      requires Valid()
      modifies this
      ensures Valid()
      ensures newId == old(nextItemId) && newId !in old(items) && nextItemId == newId + 1
      ensures var added := old(items)[newId := NewItem(contentType, contentText, contentBlob, previewText, previewBlob, createdAt, groupId)];
        items == added - Stale(added, groupId, cap)
        && subitems == SubitemsNotOf(old(subitems), Stale(added, groupId, cap))
      ensures |Candidates(items, groupId)| <= cap
      ensures groups == old(groups) && settings == old(settings)
      ensures nextGroupId == old(nextGroupId) && nextSubitemId == old(nextSubitemId)
    {
      newId := nextItemId;
      items := items[newId := NewItem(contentType, contentText, contentBlob, previewText, previewBlob, createdAt, groupId)];
      nextItemId := nextItemId + 1;
      PruneGroupItems(groupId, cap);
    }

    /**
     * `list_items`: the selected rows, pinned first by pin time, then the rest
     * most recently used first, each projected for `previews_only`.
     */
    method ListItems(gid: Option<int>, query: Option<string>, previewsOnly: bool) returns (rows: seq<Row>)
      ensures |rows| == |Selected(items, gid, query)|
      ensures forall k :: 0 <= k < |rows| ==>
        rows[k].id in Selected(items, gid, query) && rows[k] == Project(rows[k].id, items[rows[k].id], previewsOnly)
      ensures forall id :: id in Selected(items, gid, query) ==> exists k :: 0 <= k < |rows| && rows[k].id == id
      ensures forall i, j :: 0 <= i < j < |rows| ==> ListBefore(items, rows[i].id, rows[j].id)
    {
      var chosen := Selected(items, gid, query);
      var its := items;
      ListOrder(its);
      var ids := SortSet(ListLt(its), chosen);
      ListedItems(its, chosen, ids, previewsOnly);
      rows := ItemRowsOf(its, ids, previewsOnly);
    }

    /** `set_pinned`: pins with the current time or unpins; unpinning an existing item prunes its group. */
    method SetPinned(id: int, pin: bool, now: int)
      requires Valid()
      modifies this
      ensures Valid()
      ensures id !in old(items) ==> items == old(items) && subitems == old(subitems)
      ensures id in old(items) ==>
        var changed := old(items)[id := old(items)[id].(pinned := pin, pinnedAt := if pin then Some(now) else None)];
        var gid := old(items)[id].groupId;
        if pin then items == changed && subitems == old(subitems)
        else items == changed - Stale(changed, gid, cap) && subitems == SubitemsNotOf(old(subitems), Stale(changed, gid, cap))
      ensures groups == old(groups) && settings == old(settings)
      ensures nextGroupId == old(nextGroupId) && nextItemId == old(nextItemId) && nextSubitemId == old(nextSubitemId)
    {
      if id in items {
        var gid := items[id].groupId;
        items := items[id := items[id].(pinned := pin, pinnedAt := if pin then Some(now) else None)];
        if !pin {
          PruneGroupItems(gid, cap);
        }
      }
    }

    /** `move_item_to_group`: reassigns the item, then prunes the target group whether or not the item exists. */
    method MoveItemToGroup(id: int, gid: int)
      requires Valid()
      modifies this
      ensures Valid()
      ensures var moved := if id in old(items) then old(items)[id := old(items)[id].(groupId := gid)] else old(items);
        items == moved - Stale(moved, gid, cap) && subitems == SubitemsNotOf(old(subitems), Stale(moved, gid, cap))
      ensures |Candidates(items, gid)| <= cap
      ensures groups == old(groups) && settings == old(settings)
      ensures nextGroupId == old(nextGroupId) && nextItemId == old(nextItemId) && nextSubitemId == old(nextSubitemId)
    {
      if id in items {
        items := items[id := items[id].(groupId := gid)];
      }
      PruneGroupItems(gid, cap);
    }

    /** `touch_item_last_used`: the given time, or now. */
    method TouchItemLastUsed(id: int, ts: Option<int>, now: int)
      requires Valid()
      modifies this
      ensures Valid()
      ensures id in old(items) ==> items == old(items)[id := old(items)[id].(lastUsedAt := Some(ts.GetOr(now)))]
      ensures id !in old(items) ==> items == old(items)
      ensures groups == old(groups) && subitems == old(subitems) && settings == old(settings)
      ensures nextGroupId == old(nextGroupId) && nextItemId == old(nextItemId) && nextSubitemId == old(nextSubitemId)
    {
      if id in items {
        items := items[id := items[id].(lastUsedAt := Some(ts.GetOr(now)))];
      }
    }

    /** `delete_item`: the item's subitems, then the item. */
    method DeleteItem(id: int)
      requires Valid()
      modifies this
      ensures Valid()
      ensures items == old(items) - {id}
      ensures subitems == SubitemsNotOf(old(subitems), {id})
      ensures groups == old(groups) && settings == old(settings)
      ensures nextGroupId == old(nextGroupId) && nextItemId == old(nextItemId) && nextSubitemId == old(nextSubitemId)
    {
      subitems := SubitemsNotOf(subitems, {id});
      items := items - {id};
    }

    /** `get_item`: the full row, or nothing. */
    method GetItem(id: int) returns (r: Option<Row>)
      ensures r.Some? <==> id in items
      ensures r.Some? ==> r.value == FullRow(id, items[id]) && r.value.id == id
    {
      r := if id in items then Some(FullRow(id, items[id])) else None;
    }

    /** `update_preview`: a None text raises before anything is written. */
    method UpdatePreview(id: int, previewText: Option<string>, previewBlob: Option<Bytes>) returns (r: Result<(), string>)
      requires Valid()
      modifies this
      ensures Valid()
      ensures r.Err? <==> previewText.None?
      ensures r.Err? ==> r.error == NoneNotIterable && items == old(items)
      ensures r.Ok? && id in old(items) ==>
        items == old(items)[id := old(items)[id].(previewText := previewText, previewBlob := previewBlob)]
      ensures r.Ok? && id !in old(items) ==> items == old(items)
      ensures groups == old(groups) && subitems == old(subitems) && settings == old(settings)
      ensures nextGroupId == old(nextGroupId) && nextItemId == old(nextItemId) && nextSubitemId == old(nextSubitemId)
    {
      if previewText.None? {
        return Err(NoneNotIterable);
      }
      if id in items {
        items := items[id := items[id].(previewText := previewText, previewBlob := previewBlob)];
      }
      r := Ok(());
    }

    /**
     * `get_latest_item`: a row of the group with the greatest
     * `COALESCE(last_used_at, created_at)`. The query has no tie-break, so
     * among equal times any one may be returned.
     */
    method GetLatestItem(gid: int) returns (r: Option<Row>)
      ensures r.None? <==> InGroup(items, gid) == {}
      ensures r.Some? ==>
        var id := r.value.id;
        id in InGroup(items, gid) && r.value == FullRow(id, items[id])
        && forall j :: j in InGroup(items, gid) ==> UseTime(items[j]) <= UseTime(items[id])
    {
      var rest := InGroup(items, gid);
      if rest == {} {
        return None;
      }
      var best := Pick(rest);
      rest := rest - {best};
      while rest != {}
        invariant rest <= InGroup(items, gid) && best in InGroup(items, gid)
        invariant forall j :: j in InGroup(items, gid) && j !in rest ==> UseTime(items[j]) <= UseTime(items[best])
        decreases |rest|
      {
        var j := Pick(rest);
        if UseTime(items[j]) > UseTime(items[best]) {
          best := j;
        }
        rest := rest - {j};
      }
      r := Some(FullRow(best, items[best]));
    }

    // Subitems.

    /** `add_subitem`: `icons or []`, stamped with the current time. */
    method AddSubitem(itemId: int, text: string, icons: Option<seq<string>>, tag: Option<string>, now: int)
      returns (newId: int)
      requires Valid()
      modifies this
      ensures Valid()
      ensures newId == old(nextSubitemId) && newId !in old(subitems) && nextSubitemId == newId + 1
      ensures subitems == old(subitems)[newId := SubitemRecord(itemId, text, icons.GetOr([]), tag, now)]
      ensures groups == old(groups) && items == old(items) && settings == old(settings)
      ensures nextGroupId == old(nextGroupId) && nextItemId == old(nextItemId)
    {
      newId := nextSubitemId;
      subitems := subitems[newId := SubitemRecord(itemId, text, icons.GetOr([]), tag, now)];
      nextSubitemId := nextSubitemId + 1;
    }

    /** `delete_subitem`: a missing or negative id is ignored. */
    method DeleteSubitem(id: Option<int>)
      requires Valid()
      modifies this
      ensures Valid()
      ensures id.None? || id.value < 0 ==> subitems == old(subitems)
      ensures id.Some? && id.value >= 0 ==> subitems == old(subitems) - {id.value}
      ensures groups == old(groups) && items == old(items) && settings == old(settings)
      ensures nextGroupId == old(nextGroupId) && nextItemId == old(nextItemId) && nextSubitemId == old(nextSubitemId)
    {
      if id.None? || id.value < 0 {
        return;
      }
      subitems := subitems - {id.value};
    }

    /** `delete_subitems_by_tag`: drops the item's subitems whose tag matches ignoring case; an empty tag does nothing. */
    method DeleteSubitemsByTag(itemId: int, tag: Option<string>)
      requires Valid()
      modifies this
      ensures Valid()
      ensures tag.None? || tag.value == "" ==> subitems == old(subitems)
      ensures tag.Some? && tag.value != "" ==>
        (forall s :: s in subitems <==> s in old(subitems) && !TagMatches(old(subitems)[s], itemId, tag.value))
        && forall s :: s in subitems ==> subitems[s] == old(subitems)[s]
      ensures groups == old(groups) && items == old(items) && settings == old(settings)
      ensures nextGroupId == old(nextGroupId) && nextItemId == old(nextItemId) && nextSubitemId == old(nextSubitemId)
    {
      if tag.None? || tag.value == "" {
        return;
      }
      subitems := map s | s in subitems && !TagMatches(subitems[s], itemId, tag.value) :: subitems[s];
    }

    /** `list_subitems`: the item's subitems, oldest first, ties by id. */
    method ListSubitems(itemId: int) returns (rows: seq<SubitemRow>)
      ensures forall k :: 0 <= k < |rows| ==>
        var s := rows[k].id;
        s in subitems && subitems[s].itemId == itemId
        && rows[k] == SubitemRow(s, itemId, subitems[s].text, subitems[s].icons, subitems[s].tag)
      ensures forall s :: s in subitems && subitems[s].itemId == itemId ==> exists k :: 0 <= k < |rows| && rows[k].id == s
      ensures forall i, j :: 0 <= i < j < |rows| ==> SubitemBefore(subitems, rows[i].id, rows[j].id)
    {
      var mine := set s | s in subitems && subitems[s].itemId == itemId;
      var subs := subitems;
      SubitemOrder(subs);
      var ids := SortSet(SubitemLt(subs), mine);
      assert forall k :: 0 <= k < |ids| ==> ids[k] in mine by {
        forall k | 0 <= k < |ids| ensures ids[k] in mine { Member(ids, k); }
      }
      rows := seq(|ids|, k requires 0 <= k < |ids| =>
        SubitemRow(ids[k], itemId, subs[ids[k]].text, subs[ids[k]].icons, subs[ids[k]].tag));
      forall s | s in subitems && subitems[s].itemId == itemId
        ensures exists k :: 0 <= k < |rows| && rows[k].id == s
      {
        assert s in mine;
        var k := IndexOf(ids, s);
        assert rows[k].id == s;
      }
    }

    // Retention.

    /**
     * `_prune_group_items`: lists the unpinned items of the group freshest
     * first and deletes, with their subitems, every one after the first `limit`.
     */
    method PruneGroupItems(gid: int, limit: int)
      requires Valid()
      modifies this
      ensures Valid()
      ensures items == old(items) - Stale(old(items), gid, limit)
      ensures subitems == SubitemsNotOf(old(subitems), Stale(old(items), gid, limit))
      ensures limit > 0 ==> |Candidates(items, gid)| <= limit
      ensures groups == old(groups) && settings == old(settings)
      ensures nextGroupId == old(nextGroupId) && nextItemId == old(nextItemId) && nextSubitemId == old(nextSubitemId)
    {
      if limit <= 0 {
        assert items - {} == items;
        assert SubitemsNotOf(subitems, {}) == subitems;
        return;
      }
      var its := items;
      PruneBound(its, gid, limit);
      PruneOrder(its);
      var ids := SortSet(PruneLt(its), Candidates(its, gid));
      StaleIsSortedTail(its, gid, limit, ids);
      DeleteAll(ids[Min(limit, |ids|)..]);
    }

    /** `delete_item` for each id in turn. */
    method DeleteAll(ids: seq<int>)
      requires Valid()
      modifies this
      ensures Valid()
      ensures items == old(items) - (set x | x in ids)
      ensures subitems == SubitemsNotOf(old(subitems), set x | x in ids)
      ensures groups == old(groups) && settings == old(settings)
      ensures nextGroupId == old(nextGroupId) && nextItemId == old(nextItemId) && nextSubitemId == old(nextSubitemId)
    {
      ghost var items0, subitems0 := items, subitems;
      ghost var groups0, settings0 := groups, settings;
      ghost var ids0, ids1, ids2 := nextGroupId, nextItemId, nextSubitemId;
      ghost var done: set<int> := {};
      var i := 0;
      assert items - {} == items;
      assert SubitemsNotOf(subitems, {}) == subitems;
      while i < |ids|
        invariant 0 <= i <= |ids|
        invariant done == set x | x in ids[..i]
        invariant items == items0 - done
        invariant subitems == SubitemsNotOf(subitems0, done)
        invariant Valid()
        invariant groups == groups0 && settings == settings0
        invariant nextGroupId == ids0 && nextItemId == ids1 && nextSubitemId == ids2
      {
        DeleteItem(ids[i]);
        MapMinusUnion(items0, done, ids[i]);
        SubitemsNotOfUnion(subitems0, done, ids[i]);
        assert ids[..i + 1] == ids[..i] + [ids[i]];
        SetOfSnoc(ids[..i], ids[i]);
        done := done + {ids[i]};
        i := i + 1;
      }
      assert ids[..i] == ids;
    }
  }

  /** The members of a sequence with one more id are the old members and that id. */
  lemma SetOfSnoc(pre: seq<int>, id: int)
    ensures (set x | x in pre + [id]) == (set x | x in pre) + {id}
  {
  }

  lemma MapMinusUnion<V>(m: map<int, V>, done: set<int>, id: int)
    ensures m - done - {id} == m - (done + {id})
  {
  }

  lemma SubitemsNotOfUnion(subitems: map<int, SubitemRecord>, done: set<int>, id: int)
    ensures SubitemsNotOf(SubitemsNotOf(subitems, done), {id}) == SubitemsNotOf(subitems, done + {id})
  {
  }

  /** The element at index `k` is a member. */
  lemma Member<T>(s: seq<T>, k: int)
    requires 0 <= k < |s|
    ensures s[k] in s
  {
  }

  /** An index at which a member occurs. */
  lemma IndexOf<T>(s: seq<T>, x: T) returns (k: int)
    requires x in s
    ensures 0 <= k < |s| && s[k] == x
  {
    k :| 0 <= k < |s| && s[k] == x;
  }
}
