/**
 * The backend's glue over the storage engine: the default and destination
 * groups, the subitems attached to a new clip, and the handling of a new
 * clipboard capture.
 */
module Backend {
  import opened Wrappers
  import opened Strings
  import opened General
  import opened Rows
  import opened Item
  import opened Retention
  import opened Queries
  import opened Storage

  const DefaultGroupName := "Default"
  const DestinationKey := "destination_group_id"

  /** At most this many URLs, and this many paths, are attached to one clip. */
  const MaxSubitems := 20

  // ---------------------------------------------------------------- scanning matches

  /**
   * The texts a scan over the regex matches keeps: each match is cleaned
   * (`None` skips it), repeats are dropped, and the scan stops once
   * `MaxSubitems` texts are kept.
   */
  function Collect(ms: seq<string>, clean: string -> Option<string>): (r: seq<string>)
    ensures |r| <= MaxSubitems
    ensures forall i, j :: 0 <= i < j < |r| ==> r[i] != r[j]
    ensures forall i :: 0 <= i < |r| ==> exists k :: 0 <= k < |ms| && clean(ms[k]) == Some(r[i])
    decreases |ms|
  {
    if ms == [] then []
    else
      var init := ms[..|ms| - 1];
      var prev := Collect(init, clean);
      var c := clean(ms[|ms| - 1]);
      assert forall k :: 0 <= k < |init| ==> init[k] == ms[k];
      if |prev| >= MaxSubitems || c.None? || c.value in prev then prev else prev + [c.value]
  }

  /** Below the cap nothing a match cleans to is lost. */
  lemma {:induction false} CollectKeepsEveryMatch(ms: seq<string>, clean: string -> Option<string>, k: int)
    requires |Collect(ms, clean)| < MaxSubitems
    requires 0 <= k < |ms| && clean(ms[k]).Some?
    ensures clean(ms[k]).value in Collect(ms, clean)
    decreases |ms|
  {
    var init := ms[..|ms| - 1];
    if k < |ms| - 1 {
      assert init[k] == ms[k];
      CollectKeepsEveryMatch(init, clean, k);
    }
  }

  /** Once the cap is reached, later matches change nothing: the loop may stop. */
  lemma {:induction false} CollectSaturated(p: seq<string>, rest: seq<string>, clean: string -> Option<string>)
    requires |Collect(p, clean)| >= MaxSubitems
    ensures Collect(p + rest, clean) == Collect(p, clean)
    decreases |rest|
  {
    if rest != [] {
      var init := rest[..|rest| - 1];
      assert (p + rest)[..|p + rest| - 1] == p + init;
      CollectSaturated(p, init, clean);
    } else {
      assert p + rest == p;
    }
  }

  /** The `for m in ...finditer(text)` loop with its `seen` set and its `break`. */
  method CollectMatches(ms: seq<string>, clean: string -> Option<string>) returns (found: seq<string>)
    ensures found == Collect(ms, clean)
  {
    found := [];
    var seen: set<string> := {};
    var i := 0;
    ghost var done: seq<string> := [];
    while i < |ms|
      invariant 0 <= i <= |ms|
      invariant done == ms[..i]
      invariant found == Collect(done, clean)
      invariant |found| < MaxSubitems
      invariant seen == set x | x in found
    {
      var m := ms[i];
      var c := clean(m);
      CollectSnoc(done, m, clean);
      done := done + [m];
      i := i + 1;
      assert done == ms[..i];
      if c.Some? && c.value !in seen {
        seen := seen + {c.value};
        found := found + [c.value];
        if |found| >= MaxSubitems {
          CollectSaturated(done, ms[i..], clean);
          assert done + ms[i..] == ms;
          return;
        }
      }
    }
    assert ms[..i] == ms;
  }

  /** One more match extends the collection by its cleaned text, unless it is capped, skipped or seen. */
  lemma CollectSnoc(p: seq<string>, m: string, clean: string -> Option<string>)
    ensures var prev := Collect(p, clean);
      var c := clean(m);
      Collect(p + [m], clean) == if |prev| >= MaxSubitems || c.None? || c.value in prev then prev else prev + [c.value]
  {
    assert (p + [m])[..|p + [m]| - 1] == p;
  }

  /** A URL match, normalized; an empty normalization is skipped. */
  function CleanUrl(m: string): (r: Option<string>)
    ensures r.Some? ==> r.value == NormalizeUrl(m) && r.value != ""
    ensures r.None? <==> AllSpace(m)
  {
    var u := NormalizeUrl(m);
    if u == "" then None else Some(u)
  }

  /** Characters `rstrip(".,;)")` removes from a path's end. */
  const TrailingPunctuation: set<char> := {'.', ',', ';', ')'}

  /**
   * A path match with whitespace and then quotes stripped; an empty text or
   * one starting with "http://" or "https://" is skipped, otherwise trailing
   * punctuation is removed.
   */
  function CleanPath(m: string): (r: Option<string>)
    ensures r.Some? ==> |r.value| == 0 || r.value[|r.value| - 1] !in TrailingPunctuation
  {
    var t := StripChars(StripChars(Strip(m), {'"'}), {'\''});
    if t == "" || StartsWith(Lower(t), "http://") || StartsWith(Lower(t), "https://") then None
    else Some(TrimEndChars(t, TrailingPunctuation))
  }

  /** The subitems `add_subitem` inserts for `texts`, one id after another from `start`. */
  function Added(start: int, itemId: int, texts: seq<string>, tag: string, now: int): (r: map<int, SubitemRecord>)
    ensures forall s :: s in r <==> start <= s < start + |texts|
    ensures forall s :: s in r ==> r[s] == SubitemRecord(itemId, texts[s - start], [], Some(tag), now)
    decreases |texts|
  {
    if texts == [] then map[]
    else
      var n := |texts| - 1;
      Added(start, itemId, texts[..n], tag, now)[start + n := SubitemRecord(itemId, texts[n], [], Some(tag), now)]
  }

  /** One more `add_subitem` extends the inserted map by the next text. */
  lemma AddedStep(base: map<int, SubitemRecord>, start: int, itemId: int, texts: seq<string>, i: int, tag: string, now: int)
    requires 0 <= i < |texts|
    requires forall s :: s in base ==> s < start
    ensures (base + Added(start, itemId, texts[..i], tag, now))[start + i := SubitemRecord(itemId, texts[i], [], Some(tag), now)]
      == base + Added(start, itemId, texts[..i + 1], tag, now)
  {
    assert texts[..i + 1][..i] == texts[..i];
  }

  /**
   * The subitems attached to a new item, numbered from `start`: a "url"
   * subitem per URL, then a "file" subitem per path.
   */
  function Attached(start: int, itemId: int, urls: seq<string>, paths: seq<string>, now: int): (r: map<int, SubitemRecord>)
    ensures forall s :: s in r <==> start <= s < start + |urls| + |paths|
    ensures forall s :: s in r ==>
      r[s] == if s < start + |urls| then SubitemRecord(itemId, urls[s - start], [], Some("url"), now)
              else SubitemRecord(itemId, paths[s - start - |urls|], [], Some("file"), now)
  {
    Added(start, itemId, urls, "url", now) + Added(start + |urls|, itemId, paths, "file", now)
  }

  /** How many subitems `_process_clip` attaches to a new item with this text. */
  function CaptureCount(text: string, urlMatches: seq<string>, pathMatches: seq<string>): nat
  {
    if text == "" then 0 else |Collect(urlMatches, CleanUrl)| + |Collect(pathMatches, CleanPath)|
  }

  /** The subitems `_process_clip` attaches to a new item with this text: none for an empty text. */
  function CaptureSubitems(start: int, itemId: int, text: string, urlMatches: seq<string>, pathMatches: seq<string>, now: int)
    : map<int, SubitemRecord>
  {
    if text == "" then map[]
    else Attached(start, itemId, Collect(urlMatches, CleanUrl), Collect(pathMatches, CleanPath), now)
  }

  /** The attached subitems are the "url" run followed by the "file" run. */
  lemma AttachedAdded(start: int, mid: int, itemId: int, urls: seq<string>, paths: seq<string>, now: int)
    requires mid == start + |urls|
    ensures Attached(start, itemId, urls, paths, now)
      == Added(start, itemId, urls, "url", now) + Added(mid, itemId, paths, "file", now)
  {
  }

  /** The two `add_subitem` runs together attach exactly `CaptureSubitems`. */
  lemma CaptureRuns(s0: map<int, SubitemRecord>, s1: map<int, SubitemRecord>, s2: map<int, SubitemRecord>,
                    start: int, n1: int, itemId: int, text: string, urlMatches: seq<string>, pathMatches: seq<string>, now: int)
    requires text != ""
    requires n1 == start + |Collect(urlMatches, CleanUrl)|
    requires s1 == s0 + Added(start, itemId, Collect(urlMatches, CleanUrl), "url", now)
    requires s2 == s1 + Added(n1, itemId, Collect(pathMatches, CleanPath), "file", now)
    ensures s2 == s0 + CaptureSubitems(start, itemId, text, urlMatches, pathMatches, now)
  {
    var urls, paths := Collect(urlMatches, CleanUrl), Collect(pathMatches, CleanPath);
    AttachedAdded(start, n1, itemId, urls, paths, now);
    assert CaptureSubitems(start, itemId, text, urlMatches, pathMatches, now) == Attached(start, itemId, urls, paths, now);
    UnionOfParts(s0, Added(start, itemId, urls, "url", now), Added(n1, itemId, paths, "file", now), Attached(start, itemId, urls, paths, now));
  }

  lemma UnionOfParts<K, V>(a: map<K, V>, b: map<K, V>, c: map<K, V>, bc: map<K, V>)
    requires bc == b + c
    ensures a + b + c == a + bc
  {
  }

  // ---------------------------------------------------------------- the backend

  /** What `_process_clip` did with a capture. */
  datatype ClipOutcome =
    | Ignored
    | KeptPinned(id: int)
    | Inserted(id: int, replaced: Option<int>)

  /** `content_type in ("text", "color")`: the kinds deduplicated against the last capture. */
  predicate IsTextLike(ct: string)
  {
    ct == "text" || ct == "color"
  }

  /** A capture `_process_clip` returns on before touching the storage. */
  predicate IgnoredCapture(contentType: Option<string>, contentText: string, lastClipText: Option<string>)
  {
    contentType.None? || contentType.value == ""
    || (IsTextLike(contentType.value) && lastClipText == Some(contentText))
  }

  /** The stored item has the same type, text and blob as the capture. */
  predicate SameContent(row: Row, ct: string, text: string, blob: Option<Bytes>)
  {
    var item := ItemFromRow(row);
    item.contentType == ct && item.contentText == text && item.contentBlob == blob
  }

  /** `id` is an item of the group with the greatest use time there. */
  ghost predicate Newest(items: map<int, ItemRecord>, gid: int, id: int)
  {
    id in InGroup(items, gid) && forall j :: j in InGroup(items, gid) ==> UseTime(items[j]) <= UseTime(items[id])
  }

  /**
   * Nothing for the duplicate check to drop: the group is empty, or one of
   * its newest items differs from the capture in type, text or blob.
   */
  ghost predicate NoRepeat(items: map<int, ItemRecord>, gid: int, ct: string, text: string, blob: Option<Bytes>)
  {
    InGroup(items, gid) == {}
    || exists id :: Newest(items, gid, id) && !SameContent(FullRow(id, items[id]), ct, text, blob)
  }

  /** `_build_previews(content_type, content_text, content_blob)`, supplied by the caller. */
  type Previewer = (string, string, Option<Bytes>) -> (string, Option<Bytes>)

  /**
   * The previews `add_item` receives: text and colour clips get the built
   * preview text and keep a supplied preview blob; html gets both built
   * values; any other type gets no preview text and the supplied blob.
   */
  function PreviewsFor(ct: string, text: string, blob: Option<Bytes>, previewBlob: Option<Bytes>, previews: Previewer)
    : (r: (Option<string>, Option<Bytes>))
    ensures IsTextLike(ct) ==>
      r == (Some(previews(ct, text, blob).0), if previewBlob.None? then previews(ct, text, blob).1 else previewBlob)
    ensures ct == "html" ==> r == (Some(previews("html", text, blob).0), previews("html", text, blob).1)
    ensures !IsTextLike(ct) && ct != "html" ==> r == (None, previewBlob)
  {
    if IsTextLike(ct) then
      var (t, b) := previews(ct, text, blob);
      (Some(t), if previewBlob.None? then b else previewBlob)
    else if ct == "html" then
      var (t, b) := previews("html", text, blob);
      (Some(t), b)
    else (None, previewBlob)
  }

  class Backend {
    const storage: Storage
    var lastClipText: Option<string>
    var destinationGroupId: int
    var pendingFocusId: Option<int>

    ghost predicate Valid()
      reads this, storage
    {
      storage.Valid()
    }

    /** The parts of `__init__` that load the persisted destination group. */
    constructor(s: Storage)
      requires s.Valid()
      modifies s
      ensures storage == s && Valid()
      ensures lastClipText == None && pendingFocusId == None
      ensures destinationGroupId in storage.groups
    {
      storage := s;
      lastClipText := None;
      pendingFocusId := None;
      destinationGroupId := 0;
      new;
      assert Valid();
      var gid := LoadDestinationGroup();
      destinationGroupId := gid;
    }

    /** `_get_default_group_id`: the group named "Default", created when missing. */
    method GetDefaultGroupId() returns (gid: int)
      requires Valid()
      modifies storage
      ensures Valid()
      ensures gid in storage.groups && storage.groups[gid].name == DefaultGroupName
      ensures DefaultGroupName in NamesOf(old(storage.groups)) ==> storage.groups == old(storage.groups)
      ensures old(storage.groups).Keys <= storage.groups.Keys
      ensures forall g :: g in old(storage.groups) ==> storage.groups[g] == old(storage.groups)[g]
      ensures storage.items == old(storage.items) && storage.subitems == old(storage.subitems)
      ensures storage.settings == old(storage.settings)
      ensures storage.nextItemId == old(storage.nextItemId) && storage.nextSubitemId == old(storage.nextSubitemId)
    {
      var group := storage.GetGroupByName(DefaultGroupName);
      if group.Some? {
        return group.value.0;
      }
      var created := storage.CreateGroup(DefaultGroupName);
      gid := created.value;
    }

    /**
     * `_load_destination_group`: the persisted id when it reads as an integer
     * of an existing group, the default group otherwise; the choice is
     * written back.
     */
    method LoadDestinationGroup() returns (gid: int)
      requires Valid()
      modifies storage
      ensures Valid()
      ensures gid in storage.groups
      ensures storage.settings == old(storage.settings)[DestinationKey := IntToString(gid)]
      ensures var raw := old(storage.settings);
        DestinationKey in raw && ParseInt(raw[DestinationKey]).Some? && ParseInt(raw[DestinationKey]).value in old(storage.groups)
        ==> gid == ParseInt(raw[DestinationKey]).value
      ensures var raw := old(storage.settings);
        DestinationKey !in raw || ParseInt(raw[DestinationKey]).None? || ParseInt(raw[DestinationKey]).value !in storage.groups
        ==> storage.groups[gid].name == DefaultGroupName
      ensures storage.items == old(storage.items) && storage.subitems == old(storage.subitems)
      ensures storage.nextItemId == old(storage.nextItemId) && storage.nextSubitemId == old(storage.nextSubitemId)
    {
      var raw := storage.GetSetting(DestinationKey, None);
      var defaultGid := GetDefaultGroupId();
      var parsed := if raw.Some? then ParseInt(raw.value) else Some(defaultGid);
      gid := if parsed.Some? then parsed.value else defaultGid;
      var exists_ := storage.GroupExists(gid);
      if !exists_ {
        gid := defaultGid;
      }
      storage.SetSetting(DestinationKey, IntToString(gid));
    }

    /**
     * `_get_destination_group_id`: the remembered destination while it names
     * an existing group; otherwise the default group, remembered and persisted.
     */
    method GetDestinationGroupId() returns (gid: int)
      requires Valid()
      modifies this, storage
      ensures Valid()
      ensures gid in storage.groups && destinationGroupId == gid
      ensures old(destinationGroupId) >= 0 && old(destinationGroupId) in old(storage.groups) ==>
        gid == old(destinationGroupId) && storage.groups == old(storage.groups) && storage.settings == old(storage.settings)
      ensures !(old(destinationGroupId) >= 0 && old(destinationGroupId) in old(storage.groups)) ==>
        storage.groups[gid].name == DefaultGroupName
        && storage.settings == old(storage.settings)[DestinationKey := IntToString(gid)]
      ensures old(storage.groups).Keys <= storage.groups.Keys
      ensures storage.items == old(storage.items) && storage.subitems == old(storage.subitems)
      ensures storage.nextItemId == old(storage.nextItemId) && storage.nextSubitemId == old(storage.nextSubitemId)
      ensures lastClipText == old(lastClipText) && pendingFocusId == old(pendingFocusId)
    {
      gid := destinationGroupId;
      var exists_ := storage.GroupExists(gid);
      if gid < 0 || !exists_ {
        gid := GetDefaultGroupId();
        destinationGroupId := gid;
        storage.SetSetting(DestinationKey, IntToString(gid));
      }
    }

    /**
     * `_replace_subitem`: with a non-empty tag, every subitem of the item
     * carrying that tag (in any case) is deleted and one new one is added.
     */
    method ReplaceSubitem(itemId: int, text: string, tag: Option<string>, now: int)
      requires Valid()
      modifies storage
      ensures Valid()
      ensures tag.None? || tag.value == "" ==>
        storage.subitems == old(storage.subitems) && storage.nextSubitemId == old(storage.nextSubitemId)
      ensures tag.Some? && tag.value != "" ==>
        var newId := old(storage.nextSubitemId);
        (forall s :: s in storage.subitems && TagMatches(storage.subitems[s], itemId, tag.value) <==> s == newId)
        && storage.subitems[newId] == SubitemRecord(itemId, text, [], tag, now)
        && (forall s :: s in old(storage.subitems) && !TagMatches(old(storage.subitems)[s], itemId, tag.value) ==>
              s in storage.subitems && storage.subitems[s] == old(storage.subitems)[s])
        && (forall s :: s in storage.subitems ==> s == newId || s in old(storage.subitems))
        && storage.nextSubitemId == newId + 1
      ensures storage.groups == old(storage.groups) && storage.items == old(storage.items)
      ensures storage.settings == old(storage.settings) && storage.nextItemId == old(storage.nextItemId)
    {
      if tag.None? || tag.value == "" {
        return;
      }
      storage.DeleteSubitemsByTag(itemId, tag);
      var newId := storage.AddSubitem(itemId, text, None, tag, now);
    }

    /** `add_subitem` for each text in turn, with empty icons and the given tag. */
    method AddAll(itemId: int, texts: seq<string>, tag: string, now: int)
      requires Valid()
      modifies storage
      ensures Valid()
      ensures storage.subitems == old(storage.subitems) + Added(old(storage.nextSubitemId), itemId, texts, tag, now)
      ensures storage.nextSubitemId == old(storage.nextSubitemId) + |texts|
      ensures storage.groups == old(storage.groups) && storage.items == old(storage.items)
      ensures storage.settings == old(storage.settings) && storage.nextItemId == old(storage.nextItemId)
    {
      ghost var base, start := storage.subitems, storage.nextSubitemId;
      ghost var groups, items, settings, nextItemId := storage.groups, storage.items, storage.settings, storage.nextItemId;
      var i := 0;
      while i < |texts|
        invariant 0 <= i <= |texts|
        invariant storage.Valid()
        invariant storage.subitems == base + Added(start, itemId, texts[..i], tag, now)
        invariant storage.nextSubitemId == start + i
        invariant forall s :: s in base ==> s < start
        invariant storage.groups == groups && storage.items == items
        invariant storage.settings == settings && storage.nextItemId == nextItemId
      {
        var newId := storage.AddSubitem(itemId, texts[i], Some([]), Some(tag), now);
        AddedStep(base, start, itemId, texts, i, tag, now);
        i := i + 1;
      }
      assert texts[..i] == texts;
    }

    /**
     * `_add_url_subitems`: the distinct normalized URLs among the matches, at
     * most 20, each added as a "url" subitem. (The existing subitems the
     * source reads are always the empty set: see README.)
     */
    method AddUrlSubitems(itemId: int, text: string, matches: seq<string>, now: int)
      requires Valid()
      modifies storage
      ensures Valid()
      ensures text == "" ==> storage.subitems == old(storage.subitems)
      ensures text != "" ==>
        storage.subitems == old(storage.subitems) + Added(old(storage.nextSubitemId), itemId, Collect(matches, CleanUrl), "url", now)
      ensures storage.nextSubitemId == old(storage.nextSubitemId) + (if text == "" then 0 else |Collect(matches, CleanUrl)|)
      ensures storage.groups == old(storage.groups) && storage.items == old(storage.items)
      ensures storage.settings == old(storage.settings) && storage.nextItemId == old(storage.nextItemId)
    {
      if text == "" {
        return;
      }
      var urls := CollectMatches(matches, CleanUrl);
      AddAll(itemId, urls, "url", now);
    }

    /** `_add_file_subitems`: as for URLs, with cleaned paths and the "file" tag. */
    method AddFileSubitems(itemId: int, text: string, matches: seq<string>, now: int)
      requires Valid()
      modifies storage
      ensures Valid()
      ensures text == "" ==> storage.subitems == old(storage.subitems)
      ensures text != "" ==>
        storage.subitems == old(storage.subitems) + Added(old(storage.nextSubitemId), itemId, Collect(matches, CleanPath), "file", now)
      ensures storage.nextSubitemId == old(storage.nextSubitemId) + (if text == "" then 0 else |Collect(matches, CleanPath)|)
      ensures storage.groups == old(storage.groups) && storage.items == old(storage.items)
      ensures storage.settings == old(storage.settings) && storage.nextItemId == old(storage.nextItemId)
    {
      if text == "" {
        return;
      }
      var paths := CollectMatches(matches, CleanPath);
      AddAll(itemId, paths, "file", now);
    }

    /**
     * The duplicate check of `_process_clip`: the newest item of the group,
     * when it has the capture's type, text and blob, is kept if pinned and
     * deleted otherwise.
     */
    method DropRepeatedLatest(gid: int, ct: string, text: string, blob: Option<Bytes>)
      returns (kept: Option<int>, replaced: Option<int>)
      requires Valid()
      modifies storage
      ensures Valid()
      ensures kept.None? || replaced.None?
      ensures kept.Some? ==>
        var id := kept.value;
        storage.items == old(storage.items) && id in InGroup(old(storage.items), gid)
        && old(storage.items)[id].pinned && SameContent(FullRow(id, old(storage.items)[id]), ct, text, blob)
        && forall j :: j in InGroup(old(storage.items), gid) ==> UseTime(old(storage.items)[j]) <= UseTime(old(storage.items)[id])
      ensures replaced.Some? ==>
        var id := replaced.value;
        storage.items == old(storage.items) - {id} && id in InGroup(old(storage.items), gid)
        && !old(storage.items)[id].pinned && SameContent(FullRow(id, old(storage.items)[id]), ct, text, blob)
        && storage.subitems == SubitemsNotOf(old(storage.subitems), {id})
        && forall j :: j in InGroup(old(storage.items), gid) ==> UseTime(old(storage.items)[j]) <= UseTime(old(storage.items)[id])
      ensures kept.Some? ==> storage.subitems == old(storage.subitems)
      ensures kept.None? && replaced.None? ==>
        storage.items == old(storage.items) && storage.subitems == old(storage.subitems)
      ensures kept.None? && replaced.None? ==> NoRepeat(old(storage.items), gid, ct, text, blob)
      ensures storage.groups == old(storage.groups) && storage.settings == old(storage.settings)
      ensures storage.nextItemId == old(storage.nextItemId) && storage.nextSubitemId == old(storage.nextSubitemId)
    {
      kept, replaced := None, None;
      var latest := storage.GetLatestItem(gid);
      if latest.Some? {
        var item := ItemFromRow(latest.value);
        ghost var id := latest.value.id;
        assert id in InGroup(storage.items, gid) && Newest(storage.items, gid, id);
        if item.contentType == ct && item.contentText == text && item.contentBlob == blob {
          if item.pinned {
            return Some(item.id), None;
          }
          storage.DeleteItem(item.id);
          replaced := Some(item.id);
        }
      }
    }

    /**
     * The `update_preview` write `_process_clip` makes for html right after
     * the insert: it stores the previews the row already holds, so nothing
     * changes, and a failure is swallowed.
     */
    method RewritePreview(id: int, previewText: Option<string>, previewBlob: Option<Bytes>)
      requires Valid()
      requires id in storage.items ==>
        storage.items[id].previewText == previewText && storage.items[id].previewBlob == previewBlob
      modifies storage
      ensures Valid()
      ensures storage.items == old(storage.items) && storage.subitems == old(storage.subitems)
      ensures storage.groups == old(storage.groups) && storage.settings == old(storage.settings)
      ensures storage.nextItemId == old(storage.nextItemId) && storage.nextSubitemId == old(storage.nextSubitemId)
    {
      var stored := storage.UpdatePreview(id, previewText, previewBlob);
      if stored.Ok? && id in old(storage.items) {
        assert old(storage.items)[id].(previewText := previewText, previewBlob := previewBlob) == old(storage.items)[id];
      }
    }

    /** The URL subitems, then the path subitems, of a new item. */
    method AddCaptureSubitems(itemId: int, text: string, urlMatches: seq<string>, pathMatches: seq<string>, now: int)
      requires Valid()
      modifies storage
      ensures Valid()
      ensures storage.subitems == old(storage.subitems)
                                  + CaptureSubitems(old(storage.nextSubitemId), itemId, text, urlMatches, pathMatches, now)
      ensures storage.nextSubitemId == old(storage.nextSubitemId) + CaptureCount(text, urlMatches, pathMatches)
      ensures storage.groups == old(storage.groups) && storage.items == old(storage.items)
      ensures storage.settings == old(storage.settings) && storage.nextItemId == old(storage.nextItemId)
    {
      ghost var s0, start := storage.subitems, storage.nextSubitemId;
      AddUrlSubitems(itemId, text, urlMatches, now);
      ghost var s1, n1 := storage.subitems, storage.nextSubitemId;
      AddFileSubitems(itemId, text, pathMatches, now);
      if text != "" {
        CaptureRuns(s0, s1, storage.subitems, start, n1, itemId, text, urlMatches, pathMatches, now);
      } else {
        assert storage.subitems == s0 + map[];
      }
    }

    /**
     * The insertion half of `_process_clip`: `add_item` into the group, the
     * URL and path subitems, the focus request and, for html, the second
     * `update_preview` write.
     */
    method InsertCapture(gid: int, ct: string, text: string, blob: Option<Bytes>,
                         previewText: Option<string>, previewBlob: Option<Bytes>, now: int,
                         urlMatches: seq<string>, pathMatches: seq<string>)
      returns (newId: int)
      requires Valid()
      modifies this, storage
      ensures Valid()
      ensures newId == old(storage.nextItemId) && newId !in old(storage.items) && storage.nextItemId == newId + 1
      ensures pendingFocusId == Some(newId)
      ensures lastClipText == old(lastClipText) && destinationGroupId == old(destinationGroupId)
      ensures forall i :: i in storage.items && i != newId ==> i in old(storage.items) && storage.items[i] == old(storage.items)[i]
      ensures newId in storage.items ==>
        storage.items[newId] == NewItem(ct, text, blob, previewText, previewBlob, now, gid)
      ensures var added := old(storage.items)[newId := NewItem(ct, text, blob, previewText, previewBlob, now, gid)];
        storage.items == added - Stale(added, gid, storage.cap)
        && storage.subitems == SubitemsNotOf(old(storage.subitems), Stale(added, gid, storage.cap))
                               + CaptureSubitems(old(storage.nextSubitemId), newId, text, urlMatches, pathMatches, now)
      ensures storage.nextSubitemId == old(storage.nextSubitemId) + CaptureCount(text, urlMatches, pathMatches)
      ensures storage.groups == old(storage.groups) && storage.settings == old(storage.settings)
    {
      newId := storage.AddItem(ct, text, blob, previewText, previewBlob, now, gid);
      AddCaptureSubitems(newId, text, urlMatches, pathMatches, now);
      pendingFocusId := Some(newId);
      if ct == "html" {
        RewritePreview(newId, previewText, previewBlob);
      }
    }

    /**
     * `_process_clip`: ignores an empty type and a repeated text or colour;
     * keeps a pinned newest item of the destination group with the same
     * content instead of inserting; replaces an unpinned one; then inserts
     * the capture with its previews and its URL and path subitems.
     */
    method ProcessClip(contentType: Option<string>, contentText: string, contentBlob: Option<Bytes>,
                       previewBlob: Option<Bytes>, now: int, previews: Previewer,
                       urlMatches: seq<string>, pathMatches: seq<string>)
      returns (outcome: ClipOutcome)
      requires Valid()
      modifies this, storage
      ensures Valid()
      ensures outcome.Ignored? <==> IgnoredCapture(contentType, contentText, old(lastClipText))
      ensures outcome.Ignored? ==>
        lastClipText == old(lastClipText) && storage.items == old(storage.items)
        && storage.groups == old(storage.groups) && storage.subitems == old(storage.subitems)
        && storage.settings == old(storage.settings)
      ensures !outcome.Ignored? ==>
        lastClipText == (if IsTextLike(contentType.value) then Some(contentText) else old(lastClipText))
      ensures outcome.KeptPinned? ==>
        var id := outcome.id;
        storage.items == old(storage.items) && id in InGroup(old(storage.items), destinationGroupId)
        && old(storage.items)[id].pinned
        && SameContent(FullRow(id, old(storage.items)[id]), contentType.value, contentText, contentBlob)
        && forall j :: j in InGroup(old(storage.items), destinationGroupId) ==>
             UseTime(old(storage.items)[j]) <= UseTime(old(storage.items)[id])
      ensures outcome.Inserted? ==>
        outcome.id == old(storage.nextItemId) && outcome.id !in old(storage.items)
        && pendingFocusId == Some(outcome.id) && storage.nextItemId == outcome.id + 1
      ensures outcome.Inserted? && outcome.replaced.Some? ==>
        var r := outcome.replaced.value;
        r in InGroup(old(storage.items), destinationGroupId) && !old(storage.items)[r].pinned
        && SameContent(FullRow(r, old(storage.items)[r]), contentType.value, contentText, contentBlob)
        && r !in storage.items
        && forall j :: j in InGroup(old(storage.items), destinationGroupId) ==>
             UseTime(old(storage.items)[j]) <= UseTime(old(storage.items)[r])
      ensures outcome.Inserted? && outcome.id in storage.items ==>
        var rec := storage.items[outcome.id];
        rec.contentType == Some(contentType.value) && rec.contentText == Some(contentText)
        && rec.contentBlob == contentBlob && rec.groupId == destinationGroupId && !rec.pinned
      ensures outcome.KeptPinned? ==> storage.subitems == old(storage.subitems)
      ensures outcome.Inserted? && outcome.replaced.None? ==>
        NoRepeat(old(storage.items), destinationGroupId, contentType.value, contentText, contentBlob)
      ensures outcome.Inserted? ==>
        var before := if outcome.replaced.Some? then old(storage.items) - {outcome.replaced.value} else old(storage.items);
        var pv := PreviewsFor(contentType.value, contentText, contentBlob, previewBlob, previews);
        var added := before[outcome.id := NewItem(contentType.value, contentText, contentBlob, pv.0, pv.1, now, destinationGroupId)];
        storage.items == added - Stale(added, destinationGroupId, storage.cap)
      ensures outcome.Inserted? ==>
        var before := if outcome.replaced.Some? then old(storage.items) - {outcome.replaced.value} else old(storage.items);
        var subs := if outcome.replaced.Some? then SubitemsNotOf(old(storage.subitems), {outcome.replaced.value}) else old(storage.subitems);
        var pv := PreviewsFor(contentType.value, contentText, contentBlob, previewBlob, previews);
        var added := before[outcome.id := NewItem(contentType.value, contentText, contentBlob, pv.0, pv.1, now, destinationGroupId)];
        storage.subitems == SubitemsNotOf(subs, Stale(added, destinationGroupId, storage.cap))
                            + CaptureSubitems(old(storage.nextSubitemId), outcome.id, contentText, urlMatches, pathMatches, now)
    {
      if contentType.None? || contentType.value == "" {
        return Ignored;
      }
      var ct := contentType.value;
      if IsTextLike(ct) && lastClipText == Some(contentText) {
        return Ignored;
      }
      if IsTextLike(ct) {
        lastClipText := Some(contentText);
      }
      var gid := GetDestinationGroupId();
      var kept, replaced := DropRepeatedLatest(gid, ct, contentText, contentBlob);
      if kept.Some? {
        return KeptPinned(kept.value);
      }
      var (previewText, blob) := PreviewsFor(ct, contentText, contentBlob, previewBlob, previews);
      var newId := InsertCapture(gid, ct, contentText, contentBlob, previewText, blob, now, urlMatches, pathMatches);
      outcome := Inserted(newId, replaced);
    }
  }
}
