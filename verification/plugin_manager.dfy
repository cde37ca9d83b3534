/**
 * The registry of plugins shown in the Plugins group. Every registered plugin
 * gets a block of 100 negative ids; the items a plugin builds are numbered
 * downwards from its block's base so they never collide with storage ids.
 */
module PluginManager {
  import opened Wrappers
  import opened Item

  /** What the manager knows of a registered plugin. */
  datatype PluginEntry = PluginEntry(pluginId: Option<string>, usesClipboard: bool, idBase: int)

  /** What a plugin's `build_items` gave back: its items, or an exception. */
  datatype Built = Items(items: seq<ClipItem>) | Raised

  /** Id base of the k-th registered plugin. */
  function BaseFor(k: nat): int
  {
    -1000 - 100 * k
  }

  /** Item `idx` of a plugin whose block starts at `base` gets id `base - idx`. */
  function Renumber(items: seq<ClipItem>, base: int): (r: seq<ClipItem>)
    ensures |r| == |items|
    ensures forall i :: 0 <= i < |r| ==> r[i] == items[i].(id := base - i)
  {
    seq(|items|, i requires 0 <= i < |items| => items[i].(id := base - i))
  }

  /**
   * The text a plugin is given: the clipboard (`None` read as "") when it
   * uses the clipboard, otherwise "".
   */
  function ClipTextFor(p: PluginEntry, clipboard: Option<string>): string
  {
    if p.usesClipboard then clipboard.GetOr("") else ""
  }

  /**
   * `build_items` over the first plugins: each plugin's renumbered items in
   * registration order; `None` when a plugin raises, since the exception
   * is not caught there.
   */
  function BuildAll(plugins: seq<PluginEntry>, build: (nat, string) -> Built, clipboard: Option<string>): (r: Option<seq<ClipItem>>)
    decreases |plugins|
  {
    if |plugins| == 0 then Some([])
    else
      var k := |plugins| - 1;
      var before := BuildAll(plugins[..k], build, clipboard);
      var built := build(k, ClipTextFor(plugins[k], clipboard));
      if before.None? || built.Raised? then None
      else Some(before.value + Renumber(built.items, plugins[k].idBase))
  }

  /** `build_items_for` over the first plugins: only matching ones, a raising plugin gives []. */
  function BuildMatching(plugins: seq<PluginEntry>, pluginId: string, build: (nat, string) -> Built,
                         clipboard: Option<string>): seq<ClipItem>
    decreases |plugins|
  {
    if |plugins| == 0 then []
    else
      var k := |plugins| - 1;
      var before := BuildMatching(plugins[..k], pluginId, build, clipboard);
      if plugins[k].pluginId != Some(pluginId) then before
      else
        var built := build(k, ClipTextFor(plugins[k], clipboard));
        before + (if built.Raised? then [] else Renumber(built.items, plugins[k].idBase))
  }

  /** Some plugin among these reads the clipboard. */
  predicate AnyUsesClipboard(plugins: seq<PluginEntry>)
  {
    exists k :: 0 <= k < |plugins| && plugins[k].usesClipboard
  }

  /** Some plugin with this id reads the clipboard. */
  predicate AnyMatchingUsesClipboard(plugins: seq<PluginEntry>, pluginId: string)
  {
    exists k :: 0 <= k < |plugins| && plugins[k].pluginId == Some(pluginId) && plugins[k].usesClipboard
  }

  /** Index of the first plugin with this id. */
  function FirstMatch(plugins: seq<PluginEntry>, pluginId: string): (r: Option<nat>)
    ensures r.Some? ==> r.value < |plugins| && plugins[r.value].pluginId == Some(pluginId)
    ensures r.Some? ==> forall j :: 0 <= j < r.value ==> plugins[j].pluginId != Some(pluginId)
    ensures r.None? ==> forall j :: 0 <= j < |plugins| ==> plugins[j].pluginId != Some(pluginId)
    decreases |plugins|
  {
    if |plugins| == 0 then None
    else if plugins[0].pluginId == Some(pluginId) then Some(0)
    else
      var rest := FirstMatch(plugins[1..], pluginId);
      if rest.Some? then Some(rest.value + 1) else None
  }

  class Manager {
    const groupId: int
    var plugins: seq<PluginEntry>

    /** Plugin k has the k-th id block. */
    ghost predicate Valid()
      reads this
    {
      forall k :: 0 <= k < |plugins| ==> plugins[k].idBase == BaseFor(k)
    }

    constructor(groupId: int)
      ensures Valid() && this.groupId == groupId && plugins == []
    {
      this.groupId := groupId;
      plugins := [];
    }

    /** `register`: the new plugin gets the next id block. */
    method Register(pluginId: Option<string>, usesClipboard: bool)
      requires Valid()
      modifies this
      ensures Valid()
      ensures plugins == old(plugins) + [PluginEntry(pluginId, usesClipboard, BaseFor(|old(plugins)|))]
    {
      plugins := plugins + [PluginEntry(pluginId, usesClipboard, -1000 - |plugins| * 100)];
    }

    /** The `plugins` property: the registered plugins, in order, each with its id block. */
    function Plugins(): (r: seq<PluginEntry>)
      requires Valid()
      reads this
      ensures |r| == |plugins|
      ensures forall k :: 0 <= k < |r| ==> r[k].idBase == BaseFor(k)
    {
      plugins
    }

    /**
     * `build_items`. `build(k, text)` stands for plugin k's own `build_items`
     * and `clipboard` for what the clipboard provider returns; `calls` counts
     * how often the provider is asked.
     */
    method BuildItems(build: (nat, string) -> Built, clipboard: Option<string>)
      returns (r: Option<seq<ClipItem>>, calls: nat)
      ensures r == BuildAll(plugins, build, clipboard)
      ensures calls <= 1
      ensures calls == 1 ==> AnyUsesClipboard(plugins)
      ensures r.Some? ==> (calls == 1 <==> AnyUsesClipboard(plugins))
    {
      var cache: Option<string> := None;
      var items: seq<ClipItem> := [];
      calls := 0;
      var k := 0;
      while k < |plugins|
        invariant 0 <= k <= |plugins|
        invariant BuildAll(plugins[..k], build, clipboard) == Some(items)
        invariant calls <= 1
        invariant calls == 1 <==> AnyUsesClipboard(plugins[..k])
        invariant cache.Some? <==> calls == 1
        invariant cache.Some? ==> cache.value == clipboard.GetOr("")
      {
        assert plugins[..k + 1][..k] == plugins[..k];
        var text := "";
        if plugins[k].usesClipboard {
          if cache.None? {
            cache := Some(clipboard.GetOr(""));
            calls := calls + 1;
          }
          text := cache.value;
        }
        var built := build(k, text);
        if built.Raised? {
          BuildAllStaysRaised(plugins, k + 1, build, clipboard);
          return None, calls;
        }
        items := items + Renumber(built.items, plugins[k].idBase);
        k := k + 1;
      }
      assert plugins[..k] == plugins;
      r := Some(items);
    }

    /** `build_items_for`: only plugins whose id matches; a raising plugin contributes []. */
    method BuildItemsFor(pluginId: string, build: (nat, string) -> Built, clipboard: Option<string>)
      returns (r: seq<ClipItem>, calls: nat)
      ensures r == BuildMatching(plugins, pluginId, build, clipboard)
      ensures calls <= 1
      ensures calls == 1 <==> AnyMatchingUsesClipboard(plugins, pluginId)
    {
      var cache: Option<string> := None;
      r := [];
      calls := 0;
      var k := 0;
      while k < |plugins|
        invariant 0 <= k <= |plugins|
        invariant BuildMatching(plugins[..k], pluginId, build, clipboard) == r
        invariant calls <= 1
        invariant calls == 1 <==> AnyMatchingUsesClipboard(plugins[..k], pluginId)
        invariant cache.Some? <==> calls == 1
        invariant cache.Some? ==> cache.value == clipboard.GetOr("")
      {
        assert plugins[..k + 1][..k] == plugins[..k];
        if plugins[k].pluginId == Some(pluginId) {
          var text := "";
          if plugins[k].usesClipboard {
            if cache.None? {
              cache := Some(clipboard.GetOr(""));
              calls := calls + 1;
            }
            text := cache.value;
          }
          var built := build(k, text);
          var got := if built.Raised? then [] else built.items;
          r := r + Renumber(got, plugins[k].idBase);
        }
        k := k + 1;
      }
      assert plugins[..k] == plugins;
    }

    /**
     * `dispatch_action`: the first plugin with the id handles the action.
     * `act(k)` stands for plugin k's `on_action`, `None` when it raises.
     */
    method DispatchAction(pluginId: string, act: nat -> Option<bool>) returns (handled: bool)
      ensures handled <==> FirstMatch(plugins, pluginId).Some? && act(FirstMatch(plugins, pluginId).value) == Some(true)
    {
      var k := 0;
      while k < |plugins|
        invariant 0 <= k <= |plugins|
        invariant forall j :: 0 <= j < k ==> plugins[j].pluginId != Some(pluginId)
      {
        if plugins[k].pluginId == Some(pluginId) {
          var outcome := act(k);
          return outcome == Some(true);
        }
        k := k + 1;
      }
      return false;
    }
  }

  /** Once a plugin has raised, `build_items` raises whatever the later plugins do. */
  lemma {:induction false} BuildAllStaysRaised(plugins: seq<PluginEntry>, n: nat, build: (nat, string) -> Built,
                                             clipboard: Option<string>)
    requires n <= |plugins| && BuildAll(plugins[..n], build, clipboard).None?
    ensures BuildAll(plugins, build, clipboard).None?
    decreases |plugins| - n
  {
    if n < |plugins| {
      assert plugins[..n + 1][..n] == plugins[..n];
      BuildAllStaysRaised(plugins, n + 1, build, clipboard);
    } else {
      assert plugins[..n] == plugins;
    }
  }

  // Properties of the id allocation.

  /** Every id `build_items` hands out over the first n plugins lies in their blocks. */
  predicate IdsInBlocks(items: seq<ClipItem>, n: nat)
  {
    forall i :: 0 <= i < |items| ==> BaseFor(n) < items[i].id <= BaseFor(0)
  }

  /** No id occurs twice. */
  predicate DistinctIds(items: seq<ClipItem>)
  {
    forall i, j :: 0 <= i < j < |items| ==> items[i].id != items[j].id
  }

  /** A plugin that returned fewer than 100 items, or raised. */
  predicate Small(b: Built)
  {
    b.Items? ==> |b.items| < 100
  }

  /**
   * When every plugin returns fewer than 100 items, the ids `build_items`
   * assigns are distinct and all within the registered blocks.
   */
  lemma {:induction false} BuildAllIdsUnique(plugins: seq<PluginEntry>, build: (nat, string) -> Built,
                                           clipboard: Option<string>)
    requires forall k :: 0 <= k < |plugins| ==> plugins[k].idBase == BaseFor(k)
    requires forall k, t :: 0 <= k < |plugins| ==> Small(build(k, t))
    ensures var r := BuildAll(plugins, build, clipboard);
      r.Some? ==> IdsInBlocks(r.value, |plugins|) && DistinctIds(r.value)
    decreases |plugins|
  {
    var r := BuildAll(plugins, build, clipboard);
    if |plugins| > 0 && r.Some? {
      var k := |plugins| - 1;
      BuildAllIdsUnique(plugins[..k], build, clipboard);
      var before := BuildAll(plugins[..k], build, clipboard).value;
      var built := build(k, ClipTextFor(plugins[k], clipboard));
      var added := Renumber(built.items, plugins[k].idBase);
      assert r.value == before + added;
      assert Small(built);
      forall i | 0 <= i < |added|
        ensures BaseFor(k + 1) < added[i].id <= BaseFor(k)
      {
      }
    }
  }

  /** `dispatch_action` with no plugin of that id returns False. */
  lemma DispatchUnknown(plugins: seq<PluginEntry>, pluginId: string)
    requires forall k :: 0 <= k < |plugins| ==> plugins[k].pluginId != Some(pluginId)
    ensures FirstMatch(plugins, pluginId).None?
  {
  }

  /** `build_items_for` of an id no plugin has is empty. */
  lemma {:induction false} BuildMatchingUnknown(plugins: seq<PluginEntry>, pluginId: string,
                                              build: (nat, string) -> Built, clipboard: Option<string>)
    requires forall k :: 0 <= k < |plugins| ==> plugins[k].pluginId != Some(pluginId)
    ensures BuildMatching(plugins, pluginId, build, clipboard) == []
    decreases |plugins|
  {
    if |plugins| > 0 {
      BuildMatchingUnknown(plugins[..|plugins| - 1], pluginId, build, clipboard);
    }
  }
}
