/**
 * The string side of the draw.io helpers: base64 padding, extracting the
 * payload from a share URL or a raw string, the first step of decoding,
 * recognising a payload, and the escaped text shown in the placeholder
 * preview.
 */
module Drawio {
  import opened Wrappers
  import opened Strings

  /** `_add_padding`: append `(-len) % 4` equals signs. */
  function AddPadding(data: string): (r: string)
    ensures |r| % 4 == 0
    ensures |data| <= |r| < |data| + 4 && r[..|data|] == data
    ensures forall i :: |data| <= i < |r| ==> r[i] == '='
  {
    var missing := (-|data|) % 4;
    data + seq(missing, _ => '=')
  }

  /** A string whose length is already a multiple of 4 is left alone. */
  lemma AddPaddingKeepsAligned(data: string)
    requires |data| % 4 == 0
    ensures AddPadding(data) == data
  {
  }

  /** Padding twice is padding once. */
  lemma AddPaddingIdempotent(data: string)
    ensures AddPadding(AddPadding(data)) == AddPadding(data)
  {
    AddPaddingKeepsAligned(AddPadding(data));
  }

  /**
   * The two parts of a URL that `_extract_payload` reads: the fragment of
   * `urlparse` and the first `data` value of `parse_qs` on the query ("" when absent).
   */
  datatype UrlParts = UrlParts(fragment: string, data: string)

  /** Drop one leading "#", as `_extract_payload` does after unquoting. */
  function DropHash(t: string): (r: string)
    ensures StartsWith(t, "#") ==> t == "#" + r
    ensures !StartsWith(t, "#") ==> r == t
  {
    if StartsWith(t, "#") then t[1..] else t
  }

  const NoPayloadMessage := "No draw.io payload found in URL (expected fragment or ?data=)"

  /**
   * `_extract_payload`. URL parsing and percent-decoding are the library's
   * and are given as `parse` and `unquote`.
   */
  function ExtractPayload(raw: string, parse: string -> UrlParts, unquote: string -> string): (r: Result<string, string>)
    ensures r.Err? <==>
      Contains(Strip(raw), "://") && parse(Strip(raw)).fragment == "" && parse(Strip(raw)).data == ""
    ensures r.Err? ==> r.error == NoPayloadMessage
    ensures !Contains(Strip(raw), "://") ==> r == Ok(DropHash(unquote(Strip(raw))))
    ensures Contains(Strip(raw), "://") && parse(Strip(raw)).fragment != "" ==>
      r == Ok(DropHash(unquote(parse(Strip(raw)).fragment)))
  {
    var txt := Strip(raw);
    if Contains(txt, "://") then
      var parts := parse(txt);
      var candidate := if parts.fragment != "" then parts.fragment else parts.data;
      if candidate == "" then Err(NoPayloadMessage)
      else Ok(DropHash(unquote(candidate)))
    else
      Ok(DropHash(unquote(txt)))
  }

  /** A URL falls back to the `data` query parameter only when it has no fragment. */
  lemma ExtractPayloadFromQuery(raw: string, parse: string -> UrlParts, unquote: string -> string)
    requires Contains(Strip(raw), "://")
    requires parse(Strip(raw)).fragment == "" && parse(Strip(raw)).data != ""
    ensures ExtractPayload(raw, parse, unquote) == Ok(DropHash(unquote(parse(Strip(raw)).data)))
  {
  }

  /**
   * What `decode_drawio` has before the library takes over: either the payload
   * itself, already XML, or the padded standard-alphabet base64 text that is
   * then decoded and inflated.
   */
  datatype Decoding = Xml(text: string) | Base64(b64: string)

  /** The URL-safe base64 alphabet mapped to the standard one, as the two `replace` calls do. */
  function StandardAlphabet(payload: string): (r: string)
    ensures |r| == |payload|
    ensures '-' !in r && '_' !in r
  {
    ReplaceEach(ReplaceEach(payload, '-', '+'), '_', '/')
  }

  /** `decode_drawio` up to the base64 decoding. */
  function DecodeDrawio(raw: string, parse: string -> UrlParts, unquote: string -> string): (r: Result<Decoding, string>)
    ensures r.Err? <==> ExtractPayload(raw, parse, unquote).Err?
    ensures r.Ok? && r.value.Xml? ==>
      StartsWith(r.value.text, "<") && r.value.text == Strip(ExtractPayload(raw, parse, unquote).value)
    ensures r.Ok? && r.value.Base64? ==>
      |r.value.b64| % 4 == 0 && '-' !in r.value.b64 && '_' !in r.value.b64
  {
    match ExtractPayload(raw, parse, unquote)
    case Err(e) => Err(e)
    case Ok(p) =>
      var payload := Strip(p);
      if StartsWith(payload, "<") then Ok(Xml(payload))
      else Ok(Base64(AddPadding(StandardAlphabet(payload))))
  }

  /** Only the characters outside the URL-safe alphabet change, and padding only appends. */
  lemma DecodeDrawioMapsAlphabet(raw: string, parse: string -> UrlParts, unquote: string -> string)
    requires ExtractPayload(raw, parse, unquote).Ok?
    requires !StartsWith(Strip(ExtractPayload(raw, parse, unquote).value), "<")
    ensures var payload := Strip(ExtractPayload(raw, parse, unquote).value);
      var d := DecodeDrawio(raw, parse, unquote);
      d.Ok? && d.value.Base64? && |payload| <= |d.value.b64| &&
      forall i :: 0 <= i < |payload| ==>
        d.value.b64[i] == (if payload[i] == '-' then '+' else if payload[i] == '_' then '/' else payload[i])
  {
  }

  /**
   * `is_drawio_payload`: `Some(true)` when the stripped text mentions an
   * `mxGraphModel` element, `Some(false)` when it is blank, and `None` (the
   * function falls off its end) otherwise.
   */
  function IsDrawioPayload(text: Option<string>): (r: Option<bool>)
    ensures r == Some(false) <==> Strip(text.GetOr("")) == []
    ensures r == Some(true) <==>
      Contains(Strip(text.GetOr("")), "%3CmxGraphModel") || Contains(Strip(text.GetOr("")), "<mxGraphModel")
  {
    var payload := Strip(text.GetOr(""));
    if payload == [] then Some(false)
    else if Contains(payload, "%3CmxGraphModel") || Contains(payload, "<mxGraphModel") then Some(true)
    else None
  }

  // The placeholder preview's text.

  /** The XML escape of one character. */
  function EscapeChar(c: char): string
  {
    if c == '&' then "&amp;" else if c == '<' then "&lt;" else if c == '>' then "&gt;" else [c]
  }

  /** Every "&", "<" and ">" escaped in one pass. */
  function Escape(s: string): (r: string)
    ensures '<' !in r && '>' !in r
    ensures |s| <= |r|
  {
    if s == [] then [] else EscapeChar(s[0]) + Escape(s[1..])
  }

  /** The inverse of `Escape`: the three entities read back as their characters. */
  function Unescape(s: string): string
  {
    if s == [] then []
    else if StartsWith(s, "&amp;") then "&" + Unescape(s[5..])
    else if StartsWith(s, "&lt;") then "<" + Unescape(s[4..])
    else if StartsWith(s, "&gt;") then ">" + Unescape(s[4..])
    else [s[0]] + Unescape(s[1..])
  }

  /** Unescaping reads one escaped character off the front. */
  lemma UnescapeHead(c: char, rest: string)
    ensures Unescape(EscapeChar(c) + rest) == [c] + Unescape(rest)
  {
    if c == '&' {
      UnescapeEntity("&amp;", '&', rest);
    } else if c == '<' {
      UnescapeEntity("&lt;", '<', rest);
    } else if c == '>' {
      UnescapeEntity("&gt;", '>', rest);
    } else {
      var e := [c] + rest;
      assert e[0] == c && e[1..] == rest;
    }
  }

  /** One of the three entities in front reads back as its character. */
  lemma UnescapeEntity(entity: string, c: char, rest: string)
    requires (entity, c) == ("&amp;", '&') || (entity, c) == ("&lt;", '<') || (entity, c) == ("&gt;", '>')
    ensures Unescape(entity + rest) == [c] + Unescape(rest)
  {
    var e := entity + rest;
    assert e[..|entity|] == entity;
    assert e[|entity|..] == rest;
    assert e[1] == entity[1];
  }

  /** Unescaping an escaped string gives the string back. */
  lemma {:induction false} UnescapeEscape(s: string)
    ensures Unescape(Escape(s)) == s
  {
    if s != [] {
      UnescapeHead(s[0], Escape(s[1..]));
      UnescapeEscape(s[1..]);
      assert [s[0]] + s[1..] == s;
    }
  }

  /** The three `replace` calls of `placeholder_drawio_svg`, "&" first. */
  function ThreeReplaces(s: string): (r: string)
    ensures '<' !in r && '>' !in r
  {
    ReplaceChar(ReplaceChar(ReplaceChar(s, '&', "&amp;"), '<', "&lt;"), '>', "&gt;")
  }

  /** The three replaces, with "&" replaced first, are the one-pass escape. */
  lemma {:induction false} ReplacesAreEscape(s: string)
    ensures ThreeReplaces(s) == Escape(s)
  {
    if s != [] {
      ThreeReplacesAppend([s[0]], s[1..]);
      assert [s[0]] + s[1..] == s;
      ThreeReplacesOfChar(s[0]);
      ReplacesAreEscape(s[1..]);
    }
  }

  lemma ThreeReplacesAppend(a: string, b: string)
    ensures ThreeReplaces(a + b) == ThreeReplaces(a) + ThreeReplaces(b)
  {
    var a1, b1 := ReplaceChar(a, '&', "&amp;"), ReplaceChar(b, '&', "&amp;");
    ReplaceCharAppend(a, b, '&', "&amp;");
    var a2, b2 := ReplaceChar(a1, '<', "&lt;"), ReplaceChar(b1, '<', "&lt;");
    ReplaceCharAppend(a1, b1, '<', "&lt;");
    ReplaceCharAppend(a2, b2, '>', "&gt;");
  }

  lemma ThreeReplacesOfChar(c: char)
    ensures ThreeReplaces([c]) == EscapeChar(c)
  {
    ReplaceOneChar(c, '&', "&amp;");
    if c == '&' {
      assert '<' !in "&amp;" && '>' !in "&amp;";
    } else {
      ReplaceOneChar(c, '<', "&lt;");
      if c == '<' {
        assert '>' !in "&lt;";
      } else {
        ReplaceOneChar(c, '>', "&gt;");
      }
    }
  }

  lemma ReplaceOneChar(x: char, c: char, rep: string)
    ensures ReplaceChar([x], c, rep) == if x == c then rep else [x]
  {
    assert [x][1..] == [];
  }

  /** The text the placeholder shows before escaping: one line, at most 160 characters. */
  function SnippetText(xml: Option<string>): (r: string)
    ensures |r| <= 160
    ensures '\n' !in r
  {
    var s := ReplaceEach(Strip(xml.GetOr("")), '\n', ' ');
    if |s| > 160 then s[..157] + "..." else s
  }

  /** The escaped snippet embedded in the placeholder SVG. */
  function PlaceholderSnippet(xml: Option<string>): (r: string)
    ensures '<' !in r && '>' !in r
  {
    ThreeReplaces(SnippetText(xml))
  }

  /** The placeholder's text reads back as the one-line, capped snippet. */
  lemma PlaceholderReadsBack(xml: Option<string>)
    ensures Unescape(PlaceholderSnippet(xml)) == SnippetText(xml)
  {
    ReplacesAreEscape(SnippetText(xml));
    UnescapeEscape(SnippetText(xml));
  }

  /** Short text is shown whole; longer text keeps its first 157 characters and "...". */
  lemma SnippetTextCap(xml: Option<string>)
    ensures var s := ReplaceEach(Strip(xml.GetOr("")), '\n', ' ');
      (|s| <= 160 ==> SnippetText(xml) == s) &&
      (|s| > 160 ==> |SnippetText(xml)| == 160 && SnippetText(xml) == s[..157] + "...")
  {
  }
}
