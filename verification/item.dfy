/**
 * Clipboard items as the user interface sees them: the per-type label and the
 * conversion of a storage row into an item of the right kind.
 */
module Item {
  import opened Wrappers
  import opened Strings
  import opened Rows

  /** The item subclasses, chosen by `content_type`. */
  datatype ItemKind = TextKind | HtmlKind | ImageKind | SvgKind | DrawioKind | ColorKind

  datatype ClipItem = ClipItem(
    kind: ItemKind,
    id: int,
    contentType: string,
    contentText: string,
    contentBlob: Option<Bytes>,
    createdAt: int,
    pinned: bool,
    pinnedAt: Option<int>,
    groupId: int,
    lastUsedAt: Option<int>,
    previewText: string,
    previewBlob: Option<Bytes>,
    hasFullContent: bool,
    contentLength: int)

  /** The longest stretch of text a label shows before "...". */
  const LabelWidth := 160

  /** `content_text or preview_text`, newlines turned into spaces. */
  function LabelSource(contentText: string, previewText: string): (text: string)
    ensures '\n' !in text
    ensures |text| == if contentText != "" then |contentText| else |previewText|
  {
    var source := if contentText != "" then contentText else previewText;
    ReplaceEach(source, '\n', ' ')
  }

  /** `text[:160]`, plus "..." when something was cut off. */
  function Shorten(text: string): (r: string)
    ensures |text| <= LabelWidth ==> r == text
    ensures |text| > LabelWidth ==> |r| == LabelWidth + 3
    ensures |text| > LabelWidth ==> r[..LabelWidth] == text[..LabelWidth] && r[LabelWidth..] == "..."
  {
    if |text| > LabelWidth then text[..LabelWidth] + "..." else text
  }

  /** `ClipItem.label`, the label of plain text items. */
  function TextLabel(contentText: string, previewText: string): (r: string)
  {
    var shown := Shorten(LabelSource(contentText, previewText));
    if shown == "" then "[Empty]" else shown
  }

  /** `HtmlItem.label`. */
  function HtmlLabel(contentText: string, previewText: string): (r: string)
  {
    var text := LabelSource(contentText, previewText);
    "[HTML] " + (if text == "" then "[HTML]" else Shorten(text))
  }

  /**
   * `ImageItem.label`. `size` stands for decoding the blob with QImage: the
   * width and height of a decodable image, `None` for a null image.
   */
  function ImageLabel(contentBlob: Option<Bytes>, previewBlob: Option<Bytes>,
                      size: Bytes -> Option<(nat, nat)>): (r: string)
  {
    var blob := if contentBlob.Some? && contentBlob.value != [] then contentBlob else previewBlob;
    if blob.Some? && blob.value != [] && size(blob.value).Some? then
      var (w, h) := size(blob.value).value;
      "[IMG] " + NatToString(w) + "x" + NatToString(h)
    else "[IMG]"
  }

  /** A JSON value as `json.loads` returns it, with what `str()` and `bool()` make of it. */
  datatype JsonValue =
    | JNull
    | JBool(b: bool)
    | JInt(i: int)
    | JStr(s: string)
      /** A float, list or object, given by its `str()` text and its truth value. */
    | JOther(repr: string, truthy: bool)

  /** The outcome of `json.loads` on the raw text of a colour item. */
  datatype JsonDoc = Invalid | NonObject | Object(fields: map<string, JsonValue>)

  /** Python's `bool(v)`. */
  predicate Truthy(v: JsonValue)
  {
    match v
    case JNull => false
    case JBool(b) => b
    case JInt(i) => i != 0
    case JStr(s) => s != ""
    case JOther(_, t) => t
  }

  /** Python's `str(v)`. */
  function PyStr(v: JsonValue): string
  {
    match v
    case JNull => "None"
    case JBool(b) => if b then "True" else "False"
    case JInt(i) => IntToString(i)
    case JStr(s) => s
    case JOther(r, _) => r
  }

  /** `str(data.get(key) or "")`. */
  function Field(fields: map<string, JsonValue>, key: string): string
  {
    if key in fields && Truthy(fields[key]) then PyStr(fields[key]) else ""
  }

  /** Python's `s or default` for strings. */
  function OrElse(s: string, default: string): string
  {
    if s != "" then s else default
  }

  /**
   * `ColorItem._parsed`: the hex part and the text part of a colour item.
   * A parse failure, or JSON that is not an object (so `.get` raises), takes
   * the fallback of the stripped raw text.
   */
  function ColorParsed(raw: string, doc: JsonDoc): (r: (string, string))
  {
    match doc
    case Object(fields) =>
      var hex := OrElse(Strip(Field(fields, "hex")), "[COLOR]");
      (hex, OrElse(Strip(Field(fields, "text")), hex))
    case _ =>
      var clean := OrElse(Strip(raw), "[COLOR]");
      (clean, clean)
  }

  function ColorLabel(raw: string, doc: JsonDoc): (r: string)
  {
    "[COLOR] " + ColorParsed(raw, doc).1
  }

  /**
   * The label of an item of any kind. `json` stands for `json.loads` and
   * `size` for QImage decoding.
   */
  function Label(item: ClipItem, json: string -> JsonDoc, size: Bytes -> Option<(nat, nat)>): (r: string)
    ensures r != []
  {
    match item.kind
    case TextKind => TextLabel(item.contentText, item.previewText)
    case HtmlKind => HtmlLabel(item.contentText, item.previewText)
    case ImageKind => ImageLabel(item.contentBlob, item.previewBlob, size)
    case SvgKind => "[SVG]"
    case DrawioKind => "[DRAWIO]"
    case ColorKind => ColorLabel(item.contentText, json(item.contentText))
  }

  /** The dispatch on `content_type` of `item_from_row`. */
  function KindOf(contentType: string): ItemKind
  {
    if contentType == "image" then ImageKind
    else if contentType == "svg+xml" then SvgKind
    else if contentType == "drawio" then DrawioKind
    else if contentType == "html" then HtmlKind
    else if contentType == "color" then ColorKind
    else TextKind
  }

  /** `item_from_row`: a storage row as an item of the subclass its type selects. */
  function ItemFromRow(row: Row): (item: ClipItem)
    ensures item.contentType != ""
    ensures item.kind == KindOf(item.contentType)
    ensures item.id == row.id && item.groupId == row.groupId && item.createdAt == row.createdAt
    ensures item.pinned == row.pinned
    ensures item.pinnedAt == row.pinnedAt && item.lastUsedAt == row.lastUsedAt
    ensures item.contentBlob == row.contentBlob && item.previewBlob == row.previewBlob
  {
    var contentType := TextOr(row.contentType, "text");
    var contentText := TextOr(row.contentText, "");
    ClipItem(
      KindOf(contentType),
      row.id,
      contentType,
      contentText,
      row.contentBlob,
      row.createdAt,
      row.pinned,
      row.pinnedAt,
      row.groupId,
      row.lastUsedAt,
      TextOr(row.previewText, ""),
      row.previewBlob,
      row.hasFullContent.GetOr(true),
      row.contentLength.GetOr(|contentText|))
  }

  // Properties of the labels.

  /**
   * A text label is never empty, never holds a line feed and is at most 163
   * characters long; it is "[Empty]" exactly when there is no text to show.
   */
  lemma TextLabelShape(contentText: string, previewText: string)
    ensures var r := TextLabel(contentText, previewText);
      r != [] && '\n' !in r && |r| <= LabelWidth + 3
      && ((contentText == "" && previewText == "") <==> r == "[Empty]" && LabelSource(contentText, previewText) != "[Empty]")
  {
    var text := LabelSource(contentText, previewText);
    var r := TextLabel(contentText, previewText);
    assert '\n' !in r by {
      if text != "" && |text| > LabelWidth {
        assert r == text[..LabelWidth] + "...";
        assert forall c :: c in text[..LabelWidth] ==> c in text;
      }
    }
  }

  /** Text of at most 160 characters is shown whole, newlines as spaces. */
  lemma TextLabelShort(contentText: string, previewText: string)
    requires contentText != "" || previewText != ""
    requires |if contentText != "" then contentText else previewText| <= LabelWidth
    ensures TextLabel(contentText, previewText) == LabelSource(contentText, previewText)
  {
  }

  /** Longer text shows its first 160 characters and then "...". */
  lemma TextLabelLong(contentText: string, previewText: string)
    requires |if contentText != "" then contentText else previewText| > LabelWidth
    ensures var r := TextLabel(contentText, previewText);
      |r| == LabelWidth + 3 && r[..LabelWidth] == LabelSource(contentText, previewText)[..LabelWidth]
      && EndsWith(r, "...")
  {
  }

  /** An HTML label always starts with "[HTML] "; with no text it is "[HTML] [HTML]". */
  lemma HtmlLabelShape(contentText: string, previewText: string)
    ensures var r := HtmlLabel(contentText, previewText);
      StartsWith(r, "[HTML] ") && |r| <= 7 + LabelWidth + 3
      && ((contentText == "" && previewText == "") ==> r == "[HTML] [HTML]")
      && ((contentText != "" || previewText != "") ==>
            r == "[HTML] " + TextLabel(contentText, previewText))
  {
  }

  /** SVG and draw.io items have a fixed label whatever they hold. */
  lemma ConstantLabels(item: ClipItem, json: string -> JsonDoc, size: Bytes -> Option<(nat, nat)>)
    ensures item.kind == SvgKind ==> Label(item, json, size) == "[SVG]"
    ensures item.kind == DrawioKind ==> Label(item, json, size) == "[DRAWIO]"
  {
  }

  /** Non-empty, with no whitespace at either end: what `strip()` leaves of a non-blank text. */
  predicate Trimmed(s: string)
  {
    |s| > 0 && !IsSpace(s[0]) && !IsSpace(s[|s| - 1])
  }

  /** `strip() or default` is trimmed when the default is. */
  lemma StrippedOrElse(s: string, default: string)
    requires Trimmed(default)
    ensures Trimmed(OrElse(Strip(s), default))
  {
  }

  /** Both parts of a parsed colour are non-empty and carry no surrounding whitespace. */
  lemma ColorParsedTrimmed(raw: string, doc: JsonDoc)
    ensures Trimmed(ColorParsed(raw, doc).0) && Trimmed(ColorParsed(raw, doc).1)
  {
    assert Trimmed("[COLOR]");
    match doc
    case Object(fields) =>
      StrippedOrElse(Field(fields, "hex"), "[COLOR]");
      var hex := OrElse(Strip(Field(fields, "hex")), "[COLOR]");
      StrippedOrElse(Field(fields, "text"), hex);
    case _ =>
      StrippedOrElse(raw, "[COLOR]");
  }

  /** Without usable JSON object both parts are the stripped raw text, or "[COLOR]". */
  lemma ColorFallback(raw: string, doc: JsonDoc)
    requires !doc.Object?
    ensures ColorParsed(raw, doc).0 == ColorParsed(raw, doc).1
    ensures ColorParsed(raw, doc).0 == if AllSpace(raw) then "[COLOR]" else Strip(raw)
  {
  }

  /** A JSON object without a usable "text" is labelled by its hex part. */
  lemma ColorTextDefaultsToHex(raw: string, fields: map<string, JsonValue>)
    requires "text" !in fields || !Truthy(fields["text"])
    ensures ColorParsed(raw, Object(fields)).1 == ColorParsed(raw, Object(fields)).0
    ensures ColorLabel(raw, Object(fields)) == "[COLOR] " + ColorParsed(raw, Object(fields)).0
  {
  }

  // Properties of the row conversion.

  /** Exactly the five known types get their own subclass; any other type is a text item. */
  lemma KindOfKnownTypes(contentType: string)
    ensures KindOf(contentType) == TextKind <==>
      contentType !in {"image", "svg+xml", "drawio", "html", "color"}
  {
  }

  /** A NULL type, text or preview becomes "text", "" and "", and absent columns get defaults. */
  lemma ItemFromRowDefaults(row: Row)
    ensures row.contentType.None? ==> ItemFromRow(row).contentType == "text" && ItemFromRow(row).kind == TextKind
    ensures row.contentText.None? ==> ItemFromRow(row).contentText == ""
    ensures row.previewText.None? ==> ItemFromRow(row).previewText == ""
    ensures row.hasFullContent.None? ==> ItemFromRow(row).hasFullContent
    ensures row.contentLength.None? ==> ItemFromRow(row).contentLength == |ItemFromRow(row).contentText|
  {
  }
}
