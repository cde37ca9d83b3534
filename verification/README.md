# Clipboard manager core, modelled in Dafny

This project models the deterministic core of a desktop clipboard manager
written in Python with a Qt/QML front end. The parts modelled are:

- **The storage engine.** A SQLite database with four tables: groups, clips
  ("items"), per-clip links and tags ("subitems") and settings. It orders
  clips (pinned first, then most recently used), projects rows for the
  "previews only" listing, prunes every group to a per-group cap of unpinned
  clips, cascades deletes and backfills legacy rows when a database is
  opened.
- **The backend glue over the engine.** The group list model and its
  drag-to-reorder rule, the clip list model's id→row index, the filter chain
  of the clip list, tooltips and colour formats, the destination group, the
  URL and path subitems of a new clip, and the handling of a new clipboard
  capture (ignore a repeat, keep or replace the newest identical clip).
- **The helpers these use.** Text truncation, URL normalisation, colour
  parsing, the HTML truncator, item labels and the row→item dispatch, the
  configuration merge, the plugin registry and its id blocks, the
  dictionary plugin's word extraction and lookup queue, and the draw.io
  payload helpers.

Each module corresponds to one source file, or to one part of the large
backend file:

| file | module(s) | source |
|---|---|---|
| wrappers.dfy | Wrappers | `Option`, `Result`, bytes |
| strings.dfy | Strings | Python string operations used throughout (`strip`, ASCII `lower`/`upper`, `splitlines`, `int`/`str`) |
| sorting.dfy | Sorting | the ORDER BY clauses, as sorting of id sets under a strict total order |
| general.py → general.dfy | General | `truncate_text`, `normalize_url`, `parse_color_text` |
| html.py → html_truncate.dfy | HtmlTruncate, HtmlTruncateProps | `truncate_html` |
| item.py → item.dfy | Item | labels, `ColorItem._parsed`, `item_from_row` |
| config.py → config.dfy | Config | `_merge`, `load_config`, the section accessors |
| plugins/manager.py → plugin_manager.dfy | PluginManager | the plugin registry |
| plugins/dictionary.py → dictionary.dfy | Dictionary | word extraction, `lookup_keys`, the lookup queue |
| utils/drawio.py → drawio.dfy | Drawio | padding, payload extraction, the placeholder snippet |
| storage.py → rows.dfy, like.dfy, retention.dfy, queries.dfy, storage.dfy | Rows, SqlLike, Retention, Queries, Storage | the tables, `LIKE`, the prune rule, the query orders and projections, the `Storage` class |
| qml_backend.py → list_models.dfy, backend_text.dfy, backend.dfy | ListModels, BackendText, Backend | the list models; tooltips, colour formats and filters; the backend's storage glue |

Code that changes state in place is modelled with classes:

- `Storage.Storage` holds the tables as maps, with id counters standing for
  SQLite's `sqlite_sequence`.
- `ListModels.GroupListModel` and `ListModels.ClipListModel` are the two Qt
  list models.
- `Backend.Backend` holds the backend's remembered state: the last captured
  text, the destination group and the clip to focus.
- `PluginManager.Manager` is the plugin registry.
- `Dictionary.Lookups` is the dictionary plugin's cache and queue.

Loops in the source are methods with loop invariants, each proved against a
specification function. The function's own properties are then proved as
lemmas.

The following are parameters rather than part of the model:

- timestamps (`time.time()`);
- regex scans (the sequence of matches);
- `_build_previews`;
- `json.loads`;
- QImage decoding;
- URL parsing and percent-decoding;
- the lemmatizer;
- what a plugin's own `build_items` or `on_action` returns.

## Model

| member | source | states |
|---|---|---|
| General.TruncateText | utils/general.py:5-8 | the text is unchanged when the limit is non-positive or not exceeded; otherwise it is its first `limit` characters plus "...", of length `limit + 3` |
| General.TruncateTextIdempotent | utils/general.py:5-8 | truncating a truncated text again with the same limit changes nothing |
| General.NormalizeUrl | utils/general.py:11-25 | the result is "" exactly for blank input |
| General.NormalizeUrlHasScheme | utils/general.py:15-21 | for input without a line break, the result (before its one dropped "/") starts with "http://" or "https://" |
| General.NormalizeUrlWww | utils/general.py:15-16 | a "www." host (any case) without a scheme gets "http://" in front |
| General.NormalizeUrlDefaultScheme | utils/general.py:17-21 | text with no scheme gets the default "http://" |
| General.NormalizeUrlLowersScheme | utils/general.py:17-21 | an existing scheme is lower-cased and the rest is kept |
| General.DropOneSlash | utils/general.py:23-24 | exactly one trailing "/" is removed |
| General.ParseColorText | utils/general.py:28-71 | blank input is not a colour; every colour returned is canonical |
| General.ParseColorTextHex | utils/general.py:32-36 | an optional "#" and 6 or 8 hex digits become "#" plus the digits upper-cased |
| General.ParseColorTextRejectsShortHex | utils/general.py:32 | three-digit hex is not a colour |
| General.ParseColorTextRejectsOutOfRange | utils/general.py:42-45 | an rgb() triple with a component above 255 gives no rgb result |
| General.ParseRgbOfRgbText | utils/general.py:37-45 | the canonical "rgb(r, g, b)" parses back to its components |
| General.RgbTextFormat | utils/general.py:45 | the canonical text is the f-string `rgb({r}, {g}, {b})` |
| General.ParseColorTextIdempotent | utils/general.py:28-45 | a canonical colour parses to itself |
| General.ComponentsOfRendered | utils/general.py:37-45 | the three components of a rendered `rgb(r, g, b)` text read back as the same numbers |
| HtmlTruncate.Tokenize | utils/html.py:11 | every token is a tag (from "<" to the next ">") or a run of text without "<" |
| HtmlTruncate.TokenizePlainText | utils/html.py:11 | text without "<" is one text token |
| HtmlTruncate.TokenizeDropsUnclosed | utils/html.py:11 | a "<" with no ">" after it is dropped |
| HtmlTruncate.BudgetOfPlainText | utils/html.py:9-10 | with no style element the budget is `limit` |
| HtmlTruncate.OpenName | utils/html.py:26-27 | the opening tag's name is lower-case and made of `[a-zA-Z0-9]` characters only |
| HtmlTruncate.CloseNameAsWrittenCutsAtS | utils/html.py:18 | as written, "span" (from "</span>") is cut at its "s" and read as "" |
| HtmlTruncate.CloseNameIntended | utils/html.py:18 | with the intended rule, a closing tag gives its name back |
| HtmlTruncate.TruncateHtml | utils/html.py:7-45 | the method computes `TruncateHtmlSpec`: the budget, the tokens, the walk, then the closing tags |
| HtmlTruncate.WalkTokens | utils/html.py:15-39 | the loop with its `break` computes the left fold `Walk` |
| HtmlTruncate.WalkToken | utils/html.py:16-39 | one pass of the token loop is exactly one step of `Walk`: a closing tag pops to its match, an opening tag pushes its lower-cased name, text is cut at the budget and sets the stop flag |
| HtmlTruncate.CloseOpenTags | utils/html.py:40-42 | the closing loop computes `Closes(stack)` |
| HtmlTruncate.StepCloseTag | utils/html.py:17-22 | a closing tag is emitted and pops the stack exactly when its name equals the top |
| HtmlTruncate.StepSelfClosing | utils/html.py:23-25 | a tag ending in "/>" is emitted and not pushed |
| HtmlTruncate.StepOpenTag | utils/html.py:26-29 | any other tag is emitted and its lower-cased name pushed |
| HtmlTruncate.StepTextSkipped | utils/html.py:31-32 | text is skipped once the budget is used up |
| HtmlTruncate.StepTextKept | utils/html.py:33-39 | otherwise text is cut to the remaining budget; reaching it appends "..." and stops |
| HtmlTruncate.WalkStaysStopped | utils/html.py:39 | once the walk stops, later tokens change nothing |
| HtmlTruncateProps.WalkKeepsInv | utils/html.py:15-39 | along the walk the text kept equals its counted length, never exceeds the budget, and the ellipsis appears exactly when the walk has stopped, as its last piece |
| HtmlTruncateProps.TruncateHtmlWithinBudget | utils/html.py:9-39 | the visible text never exceeds the budget and "..." appears exactly when the walk stopped |
| HtmlTruncateProps.ZeroBudgetKeepsOnlyTags | utils/html.py:31-32 | with a budget of 0 all text is skipped, no "..." appears and every tag is kept |
| HtmlTruncateProps.ShortTextPassesThrough | utils/html.py:31-39 | text shorter than the budget passes through whole, with no "..." |
| HtmlTruncateProps.StackNamesLowerCase | utils/html.py:26-28 | every name on the stack is lower-case |
| HtmlTruncateProps.ClosesLastFirst | utils/html.py:40-42 | the most recently opened tag is closed first |
| HtmlTruncateProps.ClosesExactlyNonEmpty | utils/html.py:40-42 | exactly the non-empty names left on the stack are closed |
| HtmlTruncateProps.SpanExampleAsWritten | utils/html.py:17-21 | as written, "&lt;span&gt;a&lt;/span&gt;" comes back with an extra "&lt;/span&gt;" |
| HtmlTruncateProps.SpanExampleIntended | utils/html.py:17-21 | with the intended rule the same input comes back unchanged |
| Item.LabelSource | item.py:30-31 | the text has no line feed and the length of `content_text`, or of `preview_text` when the former is empty |
| Item.Shorten | item.py:32-34 | the first 160 characters, plus "..." when longer |
| Item.TextLabelShape | item.py:29-35 | a text label is non-empty, has no line feed and is at most 163 long; "[Empty]" exactly when there is no text |
| Item.TextLabelShort | item.py:29-35 | text of at most 160 characters is shown whole |
| Item.TextLabelLong | item.py:29-35 | longer text shows its first 160 characters and "..." |
| Item.HtmlLabelShape | item.py:45-51 | an HTML label starts with "[HTML] "; with no text it is "[HTML] [HTML]" |
| Item.ConstantLabels | item.py:66-74 | SVG items are "[SVG]" and draw.io items "[DRAWIO]" |
| Item.ColorParsedTrimmed | item.py:79-88 | both parts of a parsed colour are non-empty and trimmed |
| Item.ColorFallback | item.py:86-88 | without a usable JSON object both parts are the stripped text, or "[COLOR]" |
| Item.ColorTextDefaultsToHex | item.py:83-84 | a JSON object without usable "text" is labelled by its hex part |
| Item.ItemFromRow | item.py:95-129 | the kind follows the type; id, group, times, pin state and blobs are copied |
| Item.KindOfKnownTypes | item.py:119-129 | exactly the five known types get their own subclass; any other is text |
| Item.ItemFromRowDefaults | item.py:96-112 | NULL type, text and preview become "text", "" and ""; absent columns get their defaults |
| Config.Merge | config.py:78-85 | the keys are the union; base-only keys keep their value; a non-dict override wins |
| Config.MergeEmpty | config.py:80 | merging with `{}` (or None) gives the base back |
| Config.MergeSelf | config.py:78-85 | merging a configuration with itself changes nothing |
| Config.MergeIdempotent | config.py:78-85 | applying the same override twice equals applying it once |
| Config.LoadConfig | config.py:88-107 | the defaults' keys are always present; the result is missing exactly when a truthy document is not a mapping |
| Config.LoadWithoutFile | config.py:88-107 | a missing, unparsable or empty file gives exactly the defaults |
| Config.GetOr | config.py:110-145 | `.get` succeeds exactly on a dict |
| Config.PaletteSettings | config.py:110-115 | with no "ui" section the palette is the default palette |
| Config.LlmSettings | config.py:117-127 | with no "external_dependencies" section the settings are the defaults |
| Config.DictionarySettings | config.py:129-134 | with no "plugins" section the settings are the defaults |
| Config.ToolsSettings | config.py:136-140 | the result's only key is "drawioExe", present exactly when the section is a dict |
| Config.StorageSettings | config.py:143-145 | with no "storage" section the cap is 300 |
| Config.LoadedMapping | config.py:88-107 | a mapping read from the file, empty or not, is merged over the defaults as it stands |
| Config.NestedGet | config.py:110-134 | for `cfg.get(sec, {}).get(key, d)` on the merged configuration: the default when the file does not name `sec` or `sec.key`; the file's dict merged over the default when `sec.key` is a dict; the file's value when it is anything else; an error when `sec` is not a dict |
| Config.LoadedPalette | config.py:110-115 | on a loaded mapping, `get_palette_settings` is the default palette, the file's palette merged over it, the file's non-dict value, or an error, following whether and how the file names `ui.palette` |
| Config.LoadedLlm | config.py:117-127 | the same four cases for `external_dependencies.llm_api` over the LLM defaults |
| Config.LoadedDictionary | config.py:129-134 | the same four cases for `plugins.dictionary` over the dictionary defaults |
| Config.LoadedStorage | config.py:143-145 | on a loaded mapping, the storage settings are `{"maxItemsPerGroup": 300}` when the file has no "storage" key, the file's dict merged over it when it is a dict, and the file's value otherwise |
| Config.LoadedKeepsStorageDefault | config.py:104-107 | a file that does not mention "storage" keeps the default cap |
| PluginManager.Renumber | plugins/manager.py:42-47 | item `idx` gets id `base - idx` and nothing else changes |
| PluginManager.Manager.Register | plugins/manager.py:16-19 | the k-th plugin gets the id base `-1000 - 100*k` and is appended |
| PluginManager.Manager.Plugins | plugins/manager.py:28-30 | one entry per registered plugin, the k-th with the id base of the k-th block |
| PluginManager.Manager.BuildItems | plugins/manager.py:32-49 | the result is `BuildAll`: renumbered items in registration order; the clipboard is read at most once, and only if a plugin uses it |
| PluginManager.Manager.BuildItemsFor | plugins/manager.py:51-76 | only matching plugins contribute; a raising plugin gives []; the clipboard is read at most once |
| PluginManager.Manager.DispatchAction | plugins/manager.py:78-85 | True exactly when a plugin has the id and the first such plugin's action returns True; a raise gives False |
| PluginManager.FirstMatch | plugins/manager.py:79-80 | the index of the first plugin with the id |
| PluginManager.BuildAllStaysRaised | plugins/manager.py:41 | once a plugin raises, `build_items` raises |
| PluginManager.BuildAllIdsUnique | plugins/manager.py:17-45 | with fewer than 100 items per plugin, all ids are distinct |
| PluginManager.DispatchUnknown | plugins/manager.py:85 | an unknown plugin id gives False |
| PluginManager.BuildMatchingUnknown | plugins/manager.py:57-59 | an unknown plugin id gives [] |
| Dictionary.Segments | plugins/dictionary.py:230-250 | there is at least one piece, no piece contains a comma or a line feed, and a text without either is its own only piece |
| Dictionary.SegmentsSplitAt | plugins/dictionary.py:232 | cutting at a comma or line feed splits the pieces there: `Segments(a + [c] + b) == Segments(a) + Segments(b)`, so the pieces are exactly the runs between separators, in order |
| Dictionary.FirstToken | plugins/dictionary.py:236-246 | when the segment has an ASCII letter, the word is the slice starting at the first one and running over word characters as far as they go; otherwise it is the prefix up to the first whitespace; never empty |
| Dictionary.CandidateWords | plugins/dictionary.py:232-247 | at most one word per segment |
| Dictionary.CandidateWordsAppend | plugins/dictionary.py:232-247 | candidates of consecutive segments concatenate, and one segment gives its first token exactly when it is not blank |
| Dictionary.CandidatesCover | plugins/dictionary.py:232-247 | every segment that is not blank contributes its first token |
| Dictionary.FirstCandidate | plugins/dictionary.py:232-247 | the first candidate is the first token of the first segment that is not blank |
| Dictionary.CandidateWordsOfBlanks | plugins/dictionary.py:234-235 | blank segments give no candidate |
| Dictionary.DedupIgnoringCase | plugins/dictionary.py:240-249 | de-duplication never adds words |
| Dictionary.ExtractLookupWords | plugins/dictionary.py:230-250 | the loops compute `LookupWords`: at most five words, first occurrences only |
| Dictionary.FirstTokens | plugins/dictionary.py:232-247 | the segment loop computes `CandidateWords` |
| Dictionary.KeepFirstIgnoringCase | plugins/dictionary.py:240-249 | the de-duplication loop computes `DedupIgnoringCase` |
| Dictionary.DedupDistinct | plugins/dictionary.py:240-249 | no two kept words are equal ignoring case |
| Dictionary.DedupCovers | plugins/dictionary.py:240-249 | every word is represented ignoring case, and only given words are kept |
| Dictionary.DedupExtends | plugins/dictionary.py:240-249 | the kept words stay in first-occurrence order |
| Dictionary.CandidatesAreFirstTokens | plugins/dictionary.py:232-247 | each candidate is the first token of a non-blank segment |
| Dictionary.LookupWordsShape | plugins/dictionary.py:230-250 | at most five words, pairwise distinct ignoring case, each from a segment; when at most five distinct candidates exist, every one of them is represented |
| Dictionary.LookupWordsFirst | plugins/dictionary.py:230-250 | no word exactly when there is no candidate, and the first word is the first candidate |
| Dictionary.DedupFirst | plugins/dictionary.py:240-249 | de-duplication keeps the first word and is empty only for no words |
| Dictionary.LookupKeys | plugins/dictionary.py:69-88 | the word first, then the lemma when non-empty and different; an empty word gives [] |
| Dictionary.Lookups.EnqueueMissing | plugins/dictionary.py:323-330 | the queue becomes `Enqueued(...)`: words not cached, loading or queued are appended |
| Dictionary.Lookups.StartNextPending | plugins/dictionary.py:332-354 | with no worker, the head of the queue is popped and starts loading |
| Dictionary.Lookups.OnLookupFinished | plugins/dictionary.py:356-383 | a result for the loading word is cached and loading clears; any other word is ignored |
| Dictionary.Lookups.OnLookupFailed | plugins/dictionary.py:390-405 | the loading word is cached as not found with the error, or "Lookup failed" |
| Dictionary.Lookups.BuildItems | plugins/dictionary.py:149-213 | a blank clipboard gives the exact "Clipboard is empty" entry and no words gives the exact "No valid words" entry, both leaving queue, loading word and worker alone; otherwise the one entry is the first word's as it stood before, the missing words are queued, and with no worker running the queue's head is popped and starts loading; the cache never changes |
| Dictionary.Lookups.LookUp | plugins/dictionary.py:173-213 | the entry is the first word's as it stood before; the queue becomes `Enqueued(...)`, minus its head when no worker was running and the head then loads |
| Dictionary.EnqueuedExtends | plugins/dictionary.py:323-330 | enqueueing keeps the queue and only appends |
| Dictionary.EnqueuedCovers | plugins/dictionary.py:323-330 | every word not cached or loading ends up queued |
| Dictionary.EnqueuedDistinct | plugins/dictionary.py:323-330 | enqueueing never creates a duplicate |
| Drawio.AddPadding | utils/drawio.py:18-23 | `(-len) % 4` "=" are appended, so the length is a multiple of 4 |
| Drawio.AddPaddingKeepsAligned | utils/drawio.py:20-22 | an aligned string is unchanged |
| Drawio.AddPaddingIdempotent | utils/drawio.py:18-23 | padding twice is padding once |
| Drawio.DropHash | utils/drawio.py:40-41 | one leading "#" is removed |
| Drawio.ExtractPayload | utils/drawio.py:26-42 | a URL without fragment or `data` is an error; otherwise the unquoted candidate minus one "#" |
| Drawio.ExtractPayloadFromQuery | utils/drawio.py:31-33 | the `data` parameter is used only when there is no fragment |
| Drawio.StandardAlphabet | utils/drawio.py:53 | the length is kept and no "-" or "_" remains |
| Drawio.DecodeDrawio | utils/drawio.py:45-53 | an error exactly when extraction fails; XML passes through stripped; otherwise the base64 text is padded to a multiple of 4 and has no "-" or "_" |
| Drawio.DecodeDrawioMapsAlphabet | utils/drawio.py:53 | only URL-safe characters change, and padding only appends |
| Drawio.IsDrawioPayload | utils/drawio.py:305-310 | blank text is False; an `mxGraphModel` mention is True; anything else falls off the end (None) |
| Drawio.Escape | utils/drawio.py:286 | the result contains no "<" or ">" and is no shorter than the input |
| Drawio.UnescapeEscape | utils/drawio.py:286 | unescaping an escaped string gives it back |
| Drawio.ReplacesAreEscape | utils/drawio.py:286 | the three `replace` calls, "&" first, are the one-pass escape |
| Drawio.ThreeReplaces | utils/drawio.py:286 | after the three `.replace` calls the snippet holds no `<` and no `>` |
| Drawio.SnippetText | utils/drawio.py:283-285 | one line, at most 160 characters |
| Drawio.PlaceholderReadsBack | utils/drawio.py:283-286 | the escaped snippet reads back as the capped one-line text |
| Drawio.SnippetTextCap | utils/drawio.py:284-285 | short text is kept whole; longer text keeps 157 characters and "..." |
| SqlLike.LikeAnything | storage.py:318-336 | a lone `%` matches every text |
| SqlLike.LikePrefix | storage.py:318-336 | `q%` for a literal q is a case-insensitive prefix test |
| SqlLike.LikeLeadingPercent | storage.py:318-336 | a leading `%` lets the rest match any suffix |
| SqlLike.LikeIsContains | storage.py:318-336 | `%q%` for a literal q is a case-insensitive substring test |
| Retention.Candidates | storage.py:456-464 | the unpinned items of the group |
| Retention.PruneOrder | storage.py:462-463 | the prune order (use time DESC, id DESC) is a strict total order |
| Retention.Stale | storage.py:456-474 | only candidates are deleted, and nothing when `limit <= 0` |
| Retention.PrunedFreshestSurvive | storage.py:456-474 | a fresher unpinned item survives whenever a less fresh one does |
| Retention.PruneNoopUnderCap | storage.py:456-474 | a group with at most `limit` unpinned items loses nothing |
| Retention.CandidatesAfterPrune | storage.py:456-474 | pruning removes exactly the stale candidates |
| Retention.PruneBound | storage.py:456-474 | afterwards the group has at most `limit` unpinned items |
| Retention.PruneIdempotent | storage.py:456-474 | pruning twice deletes nothing more |
| Retention.StaleIsSortedTail | storage.py:465-474 | the deleted ids are the sorted candidates from position `limit` on |
| Queries.ItemRankInjective | storage.py:323-330 | no two items share a sort key |
| Queries.ListOrder | storage.py:323-330 | the `list_items` order is a strict total order |
| Queries.ListOrderMeaning | storage.py:323-330 | pinned rows first, pinned ascending by pin time then id, unpinned descending by use time then id |
| Queries.ListItemsDeterministic | storage.py:323-330 | two arrangements of the same ids in this order are equal |
| Queries.Selected | storage.py:315-338 | the rows of the group (when given) whose text matches the query (when given) |
| Queries.SelectedEverything | storage.py:315-338 | with neither filter every item is selected |
| Queries.SelectedByText | storage.py:318-336 | a literal query keeps rows whose text contains it, ignoring ASCII case |
| Queries.Project | storage.py:267-314 | every column but the text, the blob and the full-content flag is copied; the length is the stored text's length; the flag is always set; the text, blob and flag of the two projections are stated by `ProjectFull` and `ProjectPreview` |
| Queries.FullRow | storage.py:384-399 | the stored text and blob, with the full-content flag true |
| Queries.ProjectFull | storage.py:286-290 | without `previews_only`, a listed row is the full row |
| Queries.ProjectPreview | storage.py:267-284 | full content exactly for html or no preview; a preview text replaces the text except for draw.io; the blob is kept for html or when there is no preview image, and dropped otherwise |
| Queries.ProjectDrawioKeepsText | storage.py:269-272 | a draw.io row keeps its full text |
| Queries.ProjectDropsBlobOnlyForPreview | storage.py:273-276 | a row whose blob was dropped still has its preview image |
| Queries.GroupOrder | storage.py:177-182 | position then id is a strict total order |
| Queries.SubitemOrder | storage.py:443-454 | created time then id is a strict total order |
| Queries.RepositionMeaning | storage.py:184-189 | a listed group gets the position after its last listing; others and all names are unchanged |
| Storage.EffectiveCap | storage.py:8-14 | a missing or non-positive cap becomes 300; the cap is always positive |
| Storage.BackfillGroups | storage.py:63-71 | ids and names are kept, and a position that was set is kept |
| Storage.BackfillItem | storage.py:91-99 | the row ends up backfilled; only the text and the pin time can change; a text or pin time that was set is kept |
| Storage.BackfillItemIdempotent | storage.py:91-99 | backfilling a backfilled row changes nothing |
| Storage.BackfillItems | storage.py:73-99 | every row is backfilled, ids unchanged |
| Storage.SubitemsNotOf | storage.py:377-382 | the subitems not belonging to the given items |
| Storage.InGroup | storage.py:456-464 | the items of one group |
| Storage.NewItem | storage.py:229-261 | an unpinned row whose `content` is its text |
| Storage.Storage.constructor | storage.py:12-71 | the cap, backfilled tables, and a "Default" group created when missing |
| Storage.Storage.EnsureDefaultGroup | storage.py:60-61 | afterwards a group named "Default" exists; if one already existed nothing changes, otherwise exactly one group is added and every other group, item, subitem and setting is untouched |
| Storage.Storage.NextPosition | storage.py:152-154 | one more than the largest position, or 1 |
| Storage.Storage.CreateGroup | storage.py:149-158 | a new name gets the next id and position; a taken name raises and changes nothing |
| Storage.Storage.RenameGroup | storage.py:160-164 | renames unless another group has the name |
| Storage.Storage.DeleteGroup | storage.py:166-175 | the group, its items and their subitems are removed; nothing else |
| Storage.Storage.ListGroups | storage.py:177-182 | every group once, ordered by position then id |
| Storage.ListedGroups | storage.py:177-182 | listing the group ids in group order yields one row per group, each row carrying that group's name and position, every group appearing, rows ordered by position then id |
| Storage.Storage.UpdateGroupPositions | storage.py:184-189 | the k-th listed id gets position k + 1; unknown ids are skipped |
| Storage.Storage.GroupExists | storage.py:211-212 | true exactly when the group exists |
| Storage.Storage.GetGroupByName | storage.py:201-204 | the group with exactly this name, if any |
| Storage.Storage.GetGroupById | storage.py:206-209 | the group with this id, if any |
| Storage.Storage.GetSetting | storage.py:214-218 | the stored value, or the default |
| Storage.Storage.SetSetting | storage.py:220-227 | an upsert of one key |
| Storage.Storage.AddItem | storage.py:229-261 | the new id is the next id; the new row is inserted and the group pruned; the id is returned even if pruned |
| Storage.Storage.ListItems | storage.py:263-340 | exactly the selected rows, once each, in `list_items` order, each projected |
| Storage.ListedItems | storage.py:263-340 | listing the selected ids in item order yields one row per selected item, each the projection of that item, every selected item appearing, rows ordered pinned first (oldest pin, then id, ascending), then unpinned by most recent use, then id, descending |
| Storage.Storage.SetPinned | storage.py:342-355 | pinning stamps the time; unpinning clears it and prunes the group; a missing id changes nothing |
| Storage.Storage.MoveItemToGroup | storage.py:357-362 | the item moves and the target group is pruned |
| Storage.Storage.TouchItemLastUsed | storage.py:368-375 | the last-used time becomes the given time or now |
| Storage.Storage.DeleteItem | storage.py:377-382 | the item and its subitems are removed |
| Storage.Storage.GetItem | storage.py:384-399 | the full row exactly when the item exists |
| Storage.Storage.UpdatePreview | storage.py:476-494 | only the row's two preview columns change; a None text raises before any write |
| Storage.Storage.GetLatestItem | storage.py:496-512 | a row of the group with the greatest use time, or nothing for an empty group |
| Storage.Storage.AddSubitem | storage.py:401-419 | a new subitem with `icons or []` and the next id |
| Storage.Storage.DeleteSubitem | storage.py:421-427 | a missing or negative id is ignored; otherwise one subitem is removed |
| Storage.Storage.DeleteSubitemsByTag | storage.py:429-441 | the item's subitems whose tag matches ignoring case are removed; an empty tag does nothing |
| Storage.Storage.ListSubitems | storage.py:443-454 | the item's subitems, oldest first, ties by id |
| Storage.Storage.PruneGroupItems | storage.py:456-474 | exactly `Retention.Stale` is deleted, with subitems; at most `limit` unpinned items remain |
| Storage.Storage.DeleteAll | storage.py:472-473 | deleting each stale id in turn removes exactly those items and their subitems; groups, settings and id counters are unchanged |
| ListModels.SpecialPrefix | qml_backend.py:125-128 | the length of the leading run of special groups |
| ListModels.SpecialCount | qml_backend.py:165-166 | at least the special prefix and at most the length; 0 exactly when no group is special, the length exactly when all are |
| ListModels.Moved | qml_backend.py:138-139 | `pop(from)` then `insert(to)`: same length, the moved entry at `to` |
| ListModels.MovedIsPermutation | qml_backend.py:138-139 | a move is a permutation |
| ListModels.MovedKeepsPrefix | qml_backend.py:125-139 | entries before both rows stay in place |
| ListModels.MoveBack | qml_backend.py:138-139 | moving back undoes a move |
| ListModels.MovedKeepsSpecialCount | qml_backend.py:138-139 | a move keeps the special count |
| ListModels.GroupListModel.SetGroups | qml_backend.py:112-116 | the list is replaced |
| ListModels.GroupListModel.MoveGroup | qml_backend.py:118-141 | refuses (False, list unchanged) for equal rows, out-of-range rows or rows in the special prefix; otherwise moves, keeping the prefix and the special count |
| ListModels.GroupListModel.IdAt | qml_backend.py:144-147 | the id at the row, or -1 out of range |
| ListModels.DistinctIdsAreOwnRows | qml_backend.py:301-319 | with distinct ids, every clip's row is its own index |
| ListModels.ClipListModel.SetClips | qml_backend.py:301-319 | the id index maps each id to its last row and clip; missing maps become empty |
| ListModels.ClipListModel.RowForId | qml_backend.py:331-332 | -1 exactly for an unknown id; otherwise the last row holding it |
| ListModels.ClipListModel.ClipForId | qml_backend.py:321-322 | the clip of a known id, None otherwise |
| ListModels.ClipListModel.IdAt | qml_backend.py:325-329 | the id at the row, or -1 out of range |
| ListModels.Merged | qml_backend.py:348-351 | an empty preview text or None preview blob is inherited from the existing clip |
| ListModels.ClipListModel.UpdateClip | qml_backend.py:338-354 | id -1 or an unknown id is a no-op; otherwise only that row changes, to the merged clip, and rows stay where they are |
| BackendText.BuildTooltip | qml_backend.py:1670-1681 | "" exactly for blank text; short text is the stripped text; more than 20 lines give `CapLines` of the text, cut to 2000 characters plus "..." when longer, with no line break; long text is cut to 2000 plus "..." |
| BackendText.CapLines | qml_backend.py:1676-1678 | more than 20 lines become the first 20 joined by a literal `\n`, plus `\n...` |
| BackendText.SplitEscapedWhole | qml_backend.py:1677 | a line without a literal backslash-n splits back into itself |
| BackendText.SplitEscapedHead | qml_backend.py:1677 | a line, the literal `\n`, then more: the line comes off first |
| BackendText.SplitEscapedJoin | qml_backend.py:1677-1678 | lines joined by the literal `\n` with `\n...` appended split back into those lines and "..." |
| BackendText.CapLinesSplitsBack | qml_backend.py:1676-1678 | when none of the first 20 lines holds a literal backslash-n, the capped text splits back into exactly those 20 lines and "..." |
| BackendText.TooltipOfManyLines | qml_backend.py:1670-1681 | a tooltip of more than 20 such lines, short enough to escape the character cap, splits back into its first 20 lines and "..." |
| BackendText.CapChars | qml_backend.py:1679-1680 | text over 2000 characters becomes its first 2000 plus "..." |
| BackendText.JoinedLinesHaveNoBreak | qml_backend.py:1677-1678 | lines joined by the literal `\n` contain no line break |
| BackendText.ParseHexPair | qml_backend.py:1255-1257 | `int(pair, 16)`: two hex digits give `16*a + b`; a sign or surrounding space is accepted with one digit |
| BackendText.NormalizedHex | qml_backend.py:1247-1252 | "#" is prefixed when missing, and `#RGB` is doubled |
| BackendText.RgbOfHex | qml_backend.py:1253-1271 | rgb is present exactly when the normalized hex has length 7 or 9 and all three pairs parse, and is then "rgb(r, g, b)" of the three values |
| BackendText.ColorFormatsOfSixDigits | qml_backend.py:1246-1271 | "#" plus six hex digits gives the upper-cased hex and the rgb text of its three bytes |
| BackendText.ColorFormatsOfThreeDigits | qml_backend.py:1251-1252 | "#RGB" becomes "#RRGGBB" with components `17*digit` |
| BackendText.RgbStringOfBytes | qml_backend.py:1271 | the rgb text is the canonical `rgb(r, g, b)` text |
| BackendText.HasUrlAsWrittenMissesWww | qml_backend.py:875-876 | as written, "www.x" does not pass the URL filter; with the intended pattern it does |
| BackendText.HasUrlIntendedFindsWww | qml_backend.py:875-876 | with the intended pattern, text containing "www." passes |
| BackendText.Filter | qml_backend.py:869-904 | a list comprehension keeps exactly the elements satisfying the predicate, in order |
| BackendText.FilterKeepsSorted | qml_backend.py:869-904 | filtering keeps a sorted order |
| BackendText.FilterTwice | qml_backend.py:869-904 | two filters in a row are one filter by both predicates |
| BackendText.FilterAppend | qml_backend.py:869-904 | filtering distributes over concatenation |
| BackendText.FilterAll | qml_backend.py:869-904 | a predicate true of every element keeps the list |
| BackendText.FilterClips | qml_backend.py:869-904 | a clip is kept exactly when it passes the type, pin and text filters; with the `AsWritten` URL rule this is the program's filter |
| BackendText.FilterClipsIsOneFilter | qml_backend.py:869-904 | the three filters in a row are one filter by their conjunction, under either URL rule |
| BackendText.FilterClipsNoFilter | qml_backend.py:869-904 | with no filter set the list is unchanged |
| BackendText.FilterClipsKeepsOrder | qml_backend.py:869-904 | the filters keep the storage order |
| BackendText.FilterClipsBareWww | qml_backend.py:875-876 | with the URL filter chosen, the program drops a clip whose text is "www.x"; the intended pattern keeps it |
| Backend.Collect | qml_backend.py:1588-1600 | at most 20 values, pairwise distinct, each the cleaned form of some match |
| Backend.CollectKeepsEveryMatch | qml_backend.py:1588-1600 | below the cap, every match that cleans to a value is represented |
| Backend.CollectSaturated | qml_backend.py:1599-1600 | once 20 values are kept, later matches change nothing |
| Backend.CollectMatches | qml_backend.py:1588-1600 | the loop with its `seen` set and `break` computes `Collect` |
| Backend.CleanUrl | qml_backend.py:1591-1594 | the normalized URL, skipped exactly when the match is blank |
| Backend.CleanPath | qml_backend.py:1639-1643 | the stripped path without trailing `.,;)`; an empty text or a URL is skipped |
| Backend.Added | qml_backend.py:1603-1607 | the subitems inserted for the texts, one id after another |
| Backend.Attached | qml_backend.py:2185-2186 | the subitems of a new item: ids from `start` on, first one "url" subitem per collected URL, then one "file" subitem per collected path, each with the item's id and the capture time |
| Backend.AttachedAdded | qml_backend.py:2185-2186 | those are the "url" run of `_add_url_subitems` followed by the "file" run of `_add_file_subitems` |
| Backend.CaptureRuns | qml_backend.py:2185-2186 | the two runs of `add_subitem` on a non-empty text attach exactly `CaptureSubitems` |
| Backend.PreviewsFor | qml_backend.py:2165-2176 | text and colour get the built preview text and keep a supplied blob; html gets both built values; others get no text and the supplied blob |
| Backend.Backend.GetDefaultGroupId | qml_backend.py:2441-2445 | the id of the "Default" group, created only when missing; nothing else changes |
| Backend.Backend.LoadDestinationGroup | qml_backend.py:1429-1439 | a stored id of an existing group is kept; otherwise the default group; the choice is written back as its decimal text |
| Strings.IntRoundTrip | qml_backend.py:1429-1439 | the decimal text written for a group id parses back as that same id, so the next start reads the choice it saved |
| Backend.Backend.GetDestinationGroupId | qml_backend.py:1444-1451 | a remembered existing group is kept with storage unchanged; otherwise the default group, remembered and persisted |
| Backend.Backend.ReplaceSubitem | qml_backend.py:1661-1668 | with a non-empty tag, exactly one subitem of the item has that tag afterwards (the new one, with the next subitem id, which then advances by one), subitems of other items or other tags are kept, and no other subitem appears; with no tag, a no-op |
| Backend.Backend.AddAll | qml_backend.py:1603-1607 | the subitems gain exactly `Added(...)` |
| Backend.Backend.AddUrlSubitems | qml_backend.py:1570-1609 | empty text is a no-op; otherwise the collected URLs are added with tag "url" |
| Backend.Backend.AddFileSubitems | qml_backend.py:1611-1659 | empty text is a no-op; otherwise the collected paths are added with tag "file" |
| Backend.Backend.DropRepeatedLatest | qml_backend.py:2152-2164 | the newest item of the group with the same type, text and blob is kept if pinned (nothing changes) and deleted with its subitems otherwise; when neither happens, the group is empty or its newest item differs |
| Backend.Backend.AddCaptureSubitems | qml_backend.py:2185-2186 | the subitems gain exactly `CaptureSubitems` (none for empty text) and the subitem counter advances by their number; items, groups and settings are unchanged |
| Backend.Backend.RewritePreview | qml_backend.py:2189-2193 | the second `update_preview` write stores the values `add_item` already stored, so it changes nothing |
| Backend.Backend.InsertCapture | qml_backend.py:2177-2194 | the new id is the next id and becomes the focus; the items are the old ones plus the new row, minus the group's stale items; the subitems are the old ones minus those of the stale items, plus `CaptureSubitems` from the next subitem id |
| Backend.Backend.ProcessClip | qml_backend.py:2134-2194 | ignored exactly for an empty type or a repeated text or colour; a pinned identical newest item is kept, with items and subitems unchanged; an unpinned one is replaced (deleted with its subitems); when a capture is inserted without replacement, the group was empty or its newest item differed; an inserted row carries `PreviewsFor`'s previews; the items become the old ones (minus the replaced one) plus the new row, minus the group's stale items; the subitems lose those of the replaced and stale items and gain exactly `CaptureSubitems` |

## Left out

- SQLite itself, the lock, the DDL and the debug `print` calls are not modelled; each storage method is one atomic step on in-memory tables.
- Foreign keys are not enforced by the database (no PRAGMA), so orphan rows are allowed by the model.
- `refresh_item_timestamp`, `close` and `normalize_html_for_qt` are not modelled.
- Regex scans are parameters: the model receives the sequence of matches. The regexes' own character classes are not modelled.
- URL parsing, percent-decoding, base64 and zlib decompression are parameters or left out; `decode_drawio` is modelled up to the base64 decoding.
- Python's Unicode case mapping and Unicode `\d`, `\w` and `\s` are modelled as ASCII. This includes the special IGNORECASE matches such as "ſ" and "K".
- Python's `int()` accepts underscores and Unicode digits; `Strings.ParseInt` accepts only ASCII decimal digits with an optional sign.
- The `hsl` part of `_color_formats` and the rgba branch of `parse_color_text` use floating point and are not modelled beyond their syntax.
- `_build_previews`, the preview workers, `_maybe_backfill_previews`, `_schedule_preview_build` and `refresh_items`' tooltip and subitem maps are left out; they need images or threads.
- Qt signals, model resets, `QTimer` callbacks, `on_clipboard_changed` and the clipboard itself are left out.
- The mdict lookup, the HTML clean-up of definitions and the worker threads of the dictionary plugin are parameters.
- JSON and YAML parsing are parameters; the extra item fields (heights, render mode, plugin id, extra actions) are left out.
- `_load_current_group` and the plugin group's branch of `refresh_items` are not modelled.
- `_add_url_subitems` and `_add_file_subitems` read the item's existing subitems with `s.get(...)`, which `sqlite3.Row` does not have. The exception is caught, so the existing set is always empty, and the model uses the empty set.
- LIKE follows SQLite's behaviour: it is case-insensitive for ASCII.
- BackendText.NormalizedHex: does not state that the result is upper-case, only its "#" prefix and its length; `BackendText.HashedUpper` states the upper-casing.
- BackendText.ParseHexPair: requires a two-character text, which is all `_color_formats` passes it.
- Storage.Storage.GetLatestItem: the query has no tie-break, so among items with equal use time the model returns some one of them, not a particular one.

## Findings

| source | as written | input that shows it | evidently intended | confidence | as-written member | corrected member |
|---|---|---|---|---|---|---|
| utils/html.py:18 | the raw pattern `[</>\\s]` is a class of `<`, `/`, `>`, backslash and the letter `s`, so a closing-tag name is cut at its first "s" | "&lt;span&gt;a&lt;/span&gt;": the name read is "", "span" is never popped, and the output gains an extra "&lt;/span&gt;" | `[</>\s]`, cutting at whitespace, so the closing tag pops its opening tag | not executed | HtmlTruncateProps.SpanExampleAsWritten | HtmlTruncateProps.SpanExampleIntended |
| qml_backend.py:875 | in the raw pattern `www\\.` the alternative is "www", a literal backslash, then any character but a newline, so "www." alone never matches | "www.x": the URL filter drops it | `www\.`, as the URL pattern at qml_backend.py:1574 writes it, so text containing "www." passes the URL filter | not executed | BackendText.FilterClipsBareWww | BackendText.HasUrlIntendedFindsWww |
