/**
 * The two list models the user interface binds to: the group tabs, whose
 * leading special groups cannot be moved, and the clip list with its
 * id-to-row and id-to-clip indexes.
 */
module ListModels {
  import opened Wrappers
  import opened Item

  /** One tab of the group bar. */
  datatype GroupEntry = GroupEntry(id: int, name: string, isSpecial: bool, isPlugin: bool)

  /** The number of leading special groups: the first user group's row. */
  function SpecialPrefix(s: seq<GroupEntry>): (k: nat)
    ensures k <= |s|
    ensures forall j :: 0 <= j < k ==> s[j].isSpecial
    ensures k < |s| ==> !s[k].isSpecial
  {
    if s == [] || !s[0].isSpecial then 0 else 1 + SpecialPrefix(s[1..])
  }

  /** `specialCount`: special groups anywhere in the list. */
  function SpecialCount(s: seq<GroupEntry>): (n: nat)
    ensures n <= |s|
    ensures SpecialPrefix(s) <= n
    ensures n == 0 <==> forall j :: 0 <= j < |s| ==> !s[j].isSpecial
    ensures n == |s| <==> forall j :: 0 <= j < |s| ==> s[j].isSpecial
  {
    if s == [] then 0 else (if s[0].isSpecial then 1 else 0) + SpecialCount(s[1..])
  }

  /** `pop(from)` followed by `insert(to, item)`. */
  function Moved<T>(s: seq<T>, from: int, to: int): (r: seq<T>)
    requires 0 <= from < |s| && 0 <= to < |s|
    ensures |r| == |s|
    ensures r[to] == s[from]
  {
    var rest := s[..from] + s[from + 1..];
    rest[..to] + [s[from]] + rest[to..]
  }

  /** A move is a permutation. */
  lemma MovedIsPermutation<T>(s: seq<T>, from: int, to: int)
    requires 0 <= from < |s| && 0 <= to < |s|
    ensures multiset(Moved(s, from, to)) == multiset(s)
  {
    var rest := s[..from] + s[from + 1..];
    assert s == s[..from] + [s[from]] + s[from + 1..];
    assert multiset(s) == multiset(rest) + multiset{s[from]};
    assert rest == rest[..to] + rest[to..];
    assert multiset(Moved(s, from, to)) == multiset(rest[..to]) + multiset{s[from]} + multiset(rest[to..]);
  }

  /** Rows before both ends of the move keep their entries. */
  lemma MovedKeepsPrefix<T>(s: seq<T>, from: int, to: int, p: int)
    requires 0 <= from < |s| && 0 <= to < |s| && 0 <= p <= from && p <= to
    ensures Moved(s, from, to)[..p] == s[..p]
  {
  }

  /** Moving back undoes a move. */
  lemma MoveBack<T>(s: seq<T>, from: int, to: int)
    requires 0 <= from < |s| && 0 <= to < |s|
    ensures Moved(Moved(s, from, to), to, from) == s
  {
    var m := Moved(s, from, to);
    var rest := s[..from] + s[from + 1..];
    assert m[..to] + m[to + 1..] == rest;
    assert rest[..from] + [s[from]] + rest[from..] == s;
  }

  /** A move never changes the number of special groups. */
  lemma MovedKeepsSpecialCount(s: seq<GroupEntry>, from: int, to: int)
    requires 0 <= from < |s| && 0 <= to < |s|
    ensures SpecialCount(Moved(s, from, to)) == SpecialCount(s)
  {
    MovedIsPermutation(s, from, to);
    CountByMultiset(s, Moved(s, from, to));
  }

  function SpecialsOf(s: seq<GroupEntry>): multiset<GroupEntry>
  {
    if s == [] then multiset{} else (if s[0].isSpecial then multiset{s[0]} else multiset{}) + SpecialsOf(s[1..])
  }

  lemma {:induction false} SpecialsCount(s: seq<GroupEntry>)
    ensures |SpecialsOf(s)| == SpecialCount(s)
  {
    if s != [] {
      SpecialsCount(s[1..]);
    }
  }

  lemma {:induction false} SpecialsOfIsFilter(s: seq<GroupEntry>)
    ensures forall g :: SpecialsOf(s)[g] == if g.isSpecial then multiset(s)[g] else 0
  {
    if s != [] {
      SpecialsOfIsFilter(s[1..]);
      assert s == [s[0]] + s[1..];
    }
  }

  lemma CountByMultiset(a: seq<GroupEntry>, b: seq<GroupEntry>)
    requires multiset(a) == multiset(b)
    ensures SpecialCount(a) == SpecialCount(b)
  {
    SpecialsOfIsFilter(a);
    SpecialsOfIsFilter(b);
    assert SpecialsOf(a) == SpecialsOf(b);
    SpecialsCount(a);
    SpecialsCount(b);
  }

  class GroupListModel {
    var groups: seq<GroupEntry>

    constructor(initial: seq<GroupEntry>)
      ensures groups == initial
    {
      groups := initial;
    }

    /** `set_groups`. */
    method SetGroups(gs: seq<GroupEntry>)
      modifies this
      ensures groups == gs
    {
      groups := gs;
    }

    /**
     * `move_group`: refuses a no-op, an index out of range, or either row
     * inside the leading special groups; otherwise moves the entry.
     */
    method MoveGroup(fromRow: int, toRow: int) returns (moved: bool)
      modifies this
      ensures moved <==>
        fromRow != toRow && 0 <= fromRow < |old(groups)| && 0 <= toRow < |old(groups)|
        && fromRow >= SpecialPrefix(old(groups)) && toRow >= SpecialPrefix(old(groups))
      ensures !moved ==> groups == old(groups)
      ensures moved ==> groups == Moved(old(groups), fromRow, toRow)
      ensures moved ==> multiset(groups) == multiset(old(groups)) && SpecialCount(groups) == SpecialCount(old(groups))
      ensures moved ==> groups[..SpecialPrefix(old(groups))] == old(groups)[..SpecialPrefix(old(groups))]
    {
      if fromRow == toRow || fromRow < 0 || toRow < 0 || fromRow >= |groups| || toRow >= |groups| {
        return false;
      }
      var firstUser := 0;
      while firstUser < |groups| && groups[firstUser].isSpecial
        invariant 0 <= firstUser <= SpecialPrefix(groups)
      {
        firstUser := firstUser + 1;
      }
      if fromRow < firstUser || toRow < firstUser {
        return false;
      }
      ghost var before := groups;
      var item := groups[fromRow];
      groups := groups[..fromRow] + groups[fromRow + 1..];
      groups := groups[..toRow] + [item] + groups[toRow..];
      moved := true;
      MovedIsPermutation(before, fromRow, toRow);
      MovedKeepsSpecialCount(before, fromRow, toRow);
      MovedKeepsPrefix(before, fromRow, toRow, firstUser);
    }

    /** `idAt`: the id on a row, or -1. */
    method IdAt(row: int) returns (id: int)
      ensures 0 <= row < |groups| ==> id == groups[row].id
      ensures !(0 <= row < |groups|) ==> id == -1
    {
      id := if 0 <= row < |groups| then groups[row].id else -1;
    }
  }

  /** `k` is the last row holding a clip with this id: the row the id index keeps. */
  predicate IsLastIndex(clips: seq<ClipItem>, id: int, k: int)
  {
    0 <= k < |clips| && clips[k].id == id && forall j :: k < j < |clips| ==> clips[j].id != id
  }

  /** The two indexes agree with the clip list. */
  predicate Indexed(clips: seq<ClipItem>, rowById: map<int, int>, clipById: map<int, ClipItem>)
  {
    rowById.Keys == clipById.Keys
    && (forall k :: 0 <= k < |clips| ==> clips[k].id in rowById)
    && (forall id :: id in rowById ==> IsLastIndex(clips, id, rowById[id]) && clipById[id] == clips[rowById[id]])
  }

  /** With distinct ids, every clip's row is its own index. */
  lemma DistinctIdsAreOwnRows(clips: seq<ClipItem>, k: int)
    requires forall i, j :: 0 <= i < j < |clips| ==> clips[i].id != clips[j].id
    requires 0 <= k < |clips|
    ensures IsLastIndex(clips, clips[k].id, k)
  {
  }

  /** A subitem as the clip list shows it. */
  datatype SubitemView = SubitemView(id: int, text: string, tag: string, icons: seq<string>)

  /** `preview_text` or `preview_blob` the update lacks are kept from the clip it replaces. */
  function Merged(clip: ClipItem, existing: ClipItem): (r: ClipItem)
    ensures r.id == clip.id && r.contentText == clip.contentText && r.contentBlob == clip.contentBlob
    ensures r.previewText == (if clip.previewText == "" then existing.previewText else clip.previewText)
    ensures r.previewBlob == (if clip.previewBlob.None? then existing.previewBlob else clip.previewBlob)
  {
    clip.(previewText := if clip.previewText == "" then existing.previewText else clip.previewText,
          previewBlob := if clip.previewBlob.None? then existing.previewBlob else clip.previewBlob)
  }

  class ClipListModel {
    var clips: seq<ClipItem>
    var clipById: map<int, ClipItem>
    var rowById: map<int, int>
    var subitems: map<int, seq<SubitemView>>
    var tooltips: map<int, string>

    ghost predicate Valid()
      reads this
    {
      Indexed(clips, rowById, clipById)
    }

    constructor()
      ensures Valid() && clips == []
    {
      clips := [];
      clipById := map[];
      rowById := map[];
      subitems := map[];
      tooltips := map[];
    }

    /** `set_clips`: replaces the list and rebuilds both indexes. */
    method SetClips(newClips: seq<ClipItem>, subs: Option<map<int, seq<SubitemView>>>, tips: Option<map<int, string>>)
      modifies this
      ensures Valid()
      ensures clips == newClips
      ensures subitems == subs.GetOr(map[]) && tooltips == tips.GetOr(map[])
    {
      var byId: map<int, ClipItem> := map[];
      var rows: map<int, int> := map[];
      var k := 0;
      while k < |newClips|
        invariant 0 <= k <= |newClips|
        invariant Indexed(newClips[..k], rows, byId)
      {
        var c := newClips[k];
        assert newClips[..k + 1] == newClips[..k] + [c];
        byId := byId[c.id := c];
        rows := rows[c.id := k];
        k := k + 1;
      }
      assert newClips[..k] == newClips;
      clips := newClips;
      clipById := byId;
      rowById := rows;
      subitems := subs.GetOr(map[]);
      tooltips := tips.GetOr(map[]);
    }

    /** `rowForId`: the row of the clip with this id, or -1. */
    method RowForId(cid: int) returns (r: int)
      requires Valid()
      ensures r == -1 <==> forall k :: 0 <= k < |clips| ==> clips[k].id != cid
      ensures r != -1 ==> IsLastIndex(clips, cid, r)
    {
      r := if cid in rowById then rowById[cid] else -1;
    }

    /** `clip_for_id`. */
    method ClipForId(cid: int) returns (r: Option<ClipItem>)
      requires Valid()
      ensures r.None? <==> forall k :: 0 <= k < |clips| ==> clips[k].id != cid
      ensures r.Some? ==> exists k :: IsLastIndex(clips, cid, k) && r.value == clips[k]
    {
      r := if cid in clipById then Some(clipById[cid]) else None;
    }

    /** `idAt`: the id on a row, or -1. */
    method IdAt(row: int) returns (id: int)
      ensures 0 <= row < |clips| ==> id == clips[row].id
      ensures !(0 <= row < |clips|) ==> id == -1
    {
      id := if 0 <= row < |clips| then clips[row].id else -1;
    }

    /**
     * `update_clip`: replaces the clip with the same id on its row, keeping the
     * old preview where the new one has none. An id of -1 or an unknown id
     * changes nothing.
     */
    method UpdateClip(clip: ClipItem)
      requires Valid()
      modifies this
      ensures Valid()
      ensures rowById == old(rowById) && |clips| == |old(clips)|
      ensures clip.id == -1 || clip.id !in old(rowById) ==> clips == old(clips) && clipById == old(clipById)
      ensures clip.id != -1 && clip.id in old(rowById) ==>
        var row := old(rowById)[clip.id];
        clips == old(clips)[row := Merged(clip, old(clips)[row])]
      ensures subitems == old(subitems) && tooltips == old(tooltips)
    {
      if clip.id == -1 || clip.id !in rowById {
        return;
      }
      var row := rowById[clip.id];
      var merged := Merged(clip, clips[row]);
      clips := clips[row := merged];
      clipById := clipById[clip.id := merged];
    }
  }
}
