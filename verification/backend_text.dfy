/**
 * The text computations of the QML backend: tooltips, the colour formats a
 * colour clip can be pasted as, and the filters the search bar applies to
 * the clip list.
 */
module BackendText {
  import opened Wrappers
  import opened Strings
  import opened General
  import opened Item

  // ---------------------------------------------------------------- _build_tooltip

  const TooltipMaxLines := 20
  const TooltipMaxChars := 2000

  /** The two characters backslash and "n" that the tooltip joins long texts with. */
  const EscapedNewline := "\\n"

  /**
   * `_build_tooltip`: the stripped text; more than 20 lines keep the first 20
   * joined by a backslash-n pair plus a "...", and more than 2000 characters
   * are cut to 2000 plus "...".
   */
  function BuildTooltip(text: Option<string>): (r: string)
    ensures r == "" <==> Strip(text.GetOr("")) == ""
    ensures |r| <= TooltipMaxChars + 3
    ensures var t := Strip(text.GetOr(""));
      |SplitLines(t)| <= TooltipMaxLines && |t| <= TooltipMaxChars ==> r == t
    ensures var t := Strip(text.GetOr(""));
      |SplitLines(t)| <= TooltipMaxLines && |t| > TooltipMaxChars ==> r == t[..TooltipMaxChars] + "..."
    ensures var t := Strip(text.GetOr(""));
      |SplitLines(t)| > TooltipMaxLines ==> EndsWith(r, "...") && forall i :: 0 <= i < |r| ==> !IsLineBreak(r[i])
    ensures var t := Strip(text.GetOr(""));
      |SplitLines(t)| > TooltipMaxLines ==>
        (|CapLines(t)| <= TooltipMaxChars ==> r == CapLines(t))
        && (|CapLines(t)| > TooltipMaxChars ==> r == CapLines(t)[..TooltipMaxChars] + "...")
  {
    var t := Strip(text.GetOr(""));
    if t == "" then "" else CapChars(CapLines(t))
  }

  /** The line cap of the tooltip. */
  function CapLines(t: string): (t1: string)
    ensures |SplitLines(t)| <= TooltipMaxLines ==> t1 == t
    ensures |SplitLines(t)| > TooltipMaxLines ==>
      EndsWith(t1, "...") && forall i :: 0 <= i < |t1| ==> !IsLineBreak(t1[i])
  {
    var lines := SplitLines(t);
    if |lines| <= TooltipMaxLines then t
    else
      var joined := Join(EscapedNewline, lines[..TooltipMaxLines]);
      JoinedLinesHaveNoBreak(lines[..TooltipMaxLines]);
      EllipsisKeepsNoBreak(joined);
      joined + EscapedNewline + "..."
  }

  /** A backslash followed by "n" somewhere in the text. */
  predicate HasEscapedNewline(s: string)
  {
    exists i :: 0 <= i < |s| - 1 && s[i] == '\\' && s[i + 1] == 'n'
  }

  /** The pieces of a text between its backslash-n pairs, read from the left. */
  function SplitEscaped(s: string): (parts: seq<string>)
    ensures |parts| >= 1
    decreases |s|
  {
    if |s| < 2 then [s]
    else if s[0] == '\\' && s[1] == 'n' then [""] + SplitEscaped(s[2..])
    else
      var rest := SplitEscaped(s[1..]);
      [[s[0]] + rest[0]] + rest[1..]
  }

  /** A text without a backslash-n pair is one piece. */
  lemma {:induction false} SplitEscapedWhole(p: string)
    requires !HasEscapedNewline(p)
    ensures SplitEscaped(p) == [p]
    decreases |p|
  {
    if |p| >= 2 {
      assert !(p[0] == '\\' && p[1] == 'n');
      assert !HasEscapedNewline(p[1..]) by {
        forall i | 0 <= i < |p[1..]| - 1
          ensures !(p[1..][i] == '\\' && p[1..][i + 1] == 'n')
        {
          assert p[1..][i] == p[i + 1] && p[1..][i + 1] == p[i + 2];
        }
      }
      SplitEscapedWhole(p[1..]);
      assert [p[0]] + p[1..] == p;
    }
  }

  /** A piece without a backslash-n pair, the separator, then more: the piece comes off first. */
  lemma {:induction false} SplitEscapedHead(p: string, s: string)
    requires !HasEscapedNewline(p)
    ensures SplitEscaped(p + EscapedNewline + s) == [p] + SplitEscaped(s)
    decreases |p|
  {
    var x := p + EscapedNewline + s;
    if p == [] {
      assert x[2..] == s;
    } else {
      assert x[0] == p[0];
      assert |p| >= 2 ==> x[1] == p[1];
      assert |p| == 1 ==> x[1] == '\\';
      assert !HasEscapedNewline(p[1..]) by {
        forall i | 0 <= i < |p[1..]| - 1
          ensures !(p[1..][i] == '\\' && p[1..][i + 1] == 'n')
        {
          assert p[1..][i] == p[i + 1] && p[1..][i + 1] == p[i + 2];
        }
      }
      assert x[1..] == p[1..] + EscapedNewline + s;
      SplitEscapedHead(p[1..], s);
      assert [p[0]] + p[1..] == p;
    }
  }

  /** Joining pieces without backslash-n pairs and appending the ellipsis splits back into the pieces and "...". */
  lemma {:induction false} SplitEscapedJoin(parts: seq<string>)
    requires |parts| >= 1
    requires forall k :: 0 <= k < |parts| ==> !HasEscapedNewline(parts[k])
    ensures SplitEscaped(Join(EscapedNewline, parts) + EscapedNewline + "...") == parts + ["..."]
    decreases |parts|
  {
    assert !HasEscapedNewline("...");
    if |parts| == 1 {
      SplitEscapedHead(parts[0], "...");
      SplitEscapedWhole("...");
    } else {
      var rest := parts[1..];
      assert forall k :: 0 <= k < |rest| ==> rest[k] == parts[k + 1];
      SplitEscapedJoin(rest);
      var j := Join(EscapedNewline, rest);
      var tail := j + EscapedNewline + "...";
      assert Join(EscapedNewline, parts) == parts[0] + EscapedNewline + j;
      Regroup(parts[0], EscapedNewline, j, EscapedNewline, "...");
      SplitEscapedHead(parts[0], tail);
      assert [parts[0]] + (rest + ["..."]) == parts + ["..."];
    }
  }

  lemma Regroup<T>(a: seq<T>, b: seq<T>, c: seq<T>, d: seq<T>, e: seq<T>)
    ensures a + b + c + d + e == a + b + (c + d + e)
  {
  }

  /**
   * The line cap read back: when none of the first 20 lines holds a literal
   * backslash-n, splitting the capped text at its backslash-n pairs gives
   * exactly those 20 lines and "...".
   */
  lemma CapLinesSplitsBack(t: string)
    requires |SplitLines(t)| > TooltipMaxLines
    requires forall k :: 0 <= k < TooltipMaxLines ==> !HasEscapedNewline(SplitLines(t)[k])
    ensures SplitEscaped(CapLines(t)) == SplitLines(t)[..TooltipMaxLines] + ["..."]
  {
    var lines := SplitLines(t)[..TooltipMaxLines];
    assert forall k :: 0 <= k < |lines| ==> lines[k] == SplitLines(t)[k];
    SplitEscapedJoin(lines);
  }

  /** A tooltip of many short lines reads back as its first 20 lines and "...". */
  lemma TooltipOfManyLines(text: Option<string>)
    requires var t := Strip(text.GetOr(""));
      |SplitLines(t)| > TooltipMaxLines && |CapLines(t)| <= TooltipMaxChars
      && forall k :: 0 <= k < TooltipMaxLines ==> !HasEscapedNewline(SplitLines(t)[k])
    ensures var t := Strip(text.GetOr(""));
      SplitEscaped(BuildTooltip(text)) == SplitLines(t)[..TooltipMaxLines] + ["..."]
  {
    CapLinesSplitsBack(Strip(text.GetOr("")));
  }

  /** Appending the escaped newline and "..." to a text without line breaks adds none. */
  lemma EllipsisKeepsNoBreak(joined: string)
    requires forall i :: 0 <= i < |joined| ==> !IsLineBreak(joined[i])
    ensures var t1 := joined + EscapedNewline + "...";
      EndsWith(t1, "...") && forall i :: 0 <= i < |t1| ==> !IsLineBreak(t1[i])
  {
    var t1 := joined + EscapedNewline + "...";
    assert forall i :: 0 <= i < |t1| ==> t1[i] == if i < |joined| then joined[i] else (EscapedNewline + "...")[i - |joined|];
    assert t1[|t1| - 3..] == "...";
  }

  /** The character cap of the tooltip. */
  function CapChars(t1: string): (r: string)
    ensures |r| <= TooltipMaxChars + 3
    ensures |t1| <= TooltipMaxChars ==> r == t1
    ensures |t1| > TooltipMaxChars ==> r == t1[..TooltipMaxChars] + "..."
    ensures (forall i :: 0 <= i < |t1| ==> !IsLineBreak(t1[i])) ==> forall i :: 0 <= i < |r| ==> !IsLineBreak(r[i])
    ensures EndsWith(t1, "...") ==> EndsWith(r, "...")
  {
    if |t1| > TooltipMaxChars then
      var r := t1[..TooltipMaxChars] + "...";
      assert r[|r| - 3..] == "...";
      r
    else t1
  }

  lemma JoinedLinesHaveNoBreak(lines: seq<string>)
    requires forall l, j :: l in lines && 0 <= j < |l| ==> !IsLineBreak(l[j])
    ensures forall i :: 0 <= i < |Join(EscapedNewline, lines)| ==> !IsLineBreak(Join(EscapedNewline, lines)[i])
  {
    var s := Join(EscapedNewline, lines);
    forall i | 0 <= i < |s|
      ensures !IsLineBreak(s[i])
    {
      assert s[i] in s;
      if s[i] !in EscapedNewline {
        var p :| p in lines && s[i] in p;
        var j :| 0 <= j < |p| && p[j] == s[i];
      }
    }
  }

  // ---------------------------------------------------------------- _color_formats

  /** The formats a colour clip can be pasted as; `rgb` is absent when the hex cannot be read. */
  datatype ColorFormats = ColorFormats(hex: string, rgb: Option<string>)

  /** `"".join(ch * 2 for ch in s)`. */
  function Doubled(s: string): (r: string)
    ensures |r| == 2 * |s|
  {
    if s == [] then [] else [s[0], s[0]] + Doubled(s[1..])
  }

  /** Three characters double into six. */
  lemma DoubledThree(s: string)
    requires |s| == 3
    ensures Doubled(s) == [s[0], s[0], s[1], s[1], s[2], s[2]]
  {
    assert s[1..][1..] == [s[2]];
    assert Doubled([s[2]]) == [s[2], s[2]];
  }

  function HexDigitValue(c: char): (v: nat)
    requires IsHexDigit(c)
    ensures v < 16
  {
    if '0' <= c <= '9' then c as int - '0' as int
    else if 'a' <= c <= 'f' then c as int - 'a' as int + 10
    else c as int - 'A' as int + 10
  }

  /**
   * Python's `int(p, 16)` on a two-character slice. `int` strips surrounding
   * whitespace and accepts an optional sign before at least one hex digit;
   * on two characters that leaves two digits, a digit beside a space, or a
   * sign and a digit (neither a "0x" prefix nor an underscore can form a
   * valid literal that short). Anything else raises, which is `None`.
   */
  function ParseHexPair(p: string): (r: Option<int>)
    requires |p| == 2
    ensures AllHex(p) ==> r == Some(16 * HexDigitValue(p[0]) + HexDigitValue(p[1]))
    ensures r.Some? ==> -15 <= r.value <= 255
    ensures r.Some? ==> IsHexDigit(p[0]) || IsHexDigit(p[1])
  {
    var a := p[0];
    var b := p[1];
    if IsHexDigit(a) && IsHexDigit(b) then Some(16 * HexDigitValue(a) + HexDigitValue(b))
    else if IsHexDigit(a) && IsSpace(b) then Some(HexDigitValue(a))
    else if IsSpace(a) && IsHexDigit(b) then Some(HexDigitValue(b))
    else if a == '+' && IsHexDigit(b) then Some(HexDigitValue(b))
    else if a == '-' && IsHexDigit(b) then Some(0 - HexDigitValue(b) as int)
    else None
  }

  /** `f"rgb({r}, {g}, {b})"`. */
  function RgbString(r: int, g: int, b: int): string
  {
    "rgb(" + IntToString(r) + ", " + IntToString(g) + ", " + IntToString(b) + ")"
  }

  /** The text with a leading "#" added when missing, upper-cased. */
  function HashedUpper(s: string): (hv: string)
    ensures |hv| > 0 && hv[0] == '#'
    ensures forall i :: 0 <= i < |hv| ==> hv[i] == UpperChar(hv[i])
  {
    Upper(if StartsWith(s, "#") then s else "#" + s)
  }

  /** The hex text after stripping, adding "#", upper-casing and expanding "#RGB". */
  function NormalizedHex(hexValue: Option<string>): (hv: string)
    ensures |hv| > 0 && hv[0] == '#'
    ensures |hv| != 4
  {
    var hv := HashedUpper(Strip(hexValue.GetOr("")));
    if |hv| == 4 then "#" + Doubled(hv[1..]) else hv
  }

  /**
   * `_color_formats`: the normalized hex, and `rgb(r, g, b)` from its first
   * three pairs when it is seven or nine characters long and the pairs read
   * as hex. (The `hsl` text is computed in floating point and is not modelled.)
   */
  function ColorFormatsOf(hexValue: Option<string>): (r: ColorFormats)
    ensures r.hex == NormalizedHex(hexValue)
    ensures r.rgb == RgbOfHex(r.hex)
  {
    var hv := NormalizedHex(hexValue);
    ColorFormats(hv, RgbOfHex(hv))
  }

  /** The rgb text of the first three pairs of a seven- or nine-character hex, when they read as hex. */
  function RgbOfHex(hv: string): (r: Option<string>)
    ensures r.Some? <==>
      (|hv| == 7 || |hv| == 9)
      && ParseHexPair(hv[1..3]).Some? && ParseHexPair(hv[3..5]).Some? && ParseHexPair(hv[5..7]).Some?
    ensures r.Some? ==>
      r.value == RgbString(ParseHexPair(hv[1..3]).value, ParseHexPair(hv[3..5]).value, ParseHexPair(hv[5..7]).value)
  {
    if |hv| != 7 && |hv| != 9 then None
    else
      var r := ParseHexPair(hv[1..3]);
      var g := ParseHexPair(hv[3..5]);
      var b := ParseHexPair(hv[5..7]);
      if r.None? || g.None? || b.None? then None
      else Some(RgbString(r.value, g.value, b.value))
  }

  /** Upper-casing a hex digit keeps it a hex digit of the same value. */
  lemma UpperHexDigit(c: char)
    requires IsHexDigit(c)
    ensures IsHexDigit(UpperChar(c)) && HexDigitValue(UpperChar(c)) == HexDigitValue(c)
  {
  }

  /** A pair of hex digits, once upper-cased, reads as its byte value. */
  lemma ParseUpperPair(x: char, y: char)
    requires IsHexDigit(x) && IsHexDigit(y)
    ensures ParseHexPair([UpperChar(x), UpperChar(y)]) == Some(16 * HexDigitValue(x) + HexDigitValue(y))
  {
    UpperHexDigit(x);
    UpperHexDigit(y);
  }

  /** For byte values the rgb text is the canonical one parse_color_text produces. */
  lemma RgbStringOfBytes(r: nat, g: nat, b: nat)
    ensures RgbString(r, g, b) == RgbText(r, g, b)
  {
    RgbTextFormat(r, g, b);
  }

  /**
   * Six hex digits, in either case, after a "#" give the upper-case "#RRGGBB"
   * and the rgb text of their three byte values.
   */
  lemma ColorFormatsOfSixDigits(d: string)
    requires |d| == 6 && AllHex(d)
    ensures ColorFormatsOf(Some("#" + d)) == ColorFormats("#" + Upper(d),
        Some(RgbText(16 * HexDigitValue(d[0]) + HexDigitValue(d[1]),
                     16 * HexDigitValue(d[2]) + HexDigitValue(d[3]),
                     16 * HexDigitValue(d[4]) + HexDigitValue(d[5]))))
  {
    var hv := "#" + Upper(d);
    NormalizedSixDigits(d);
    UpperPairsOfSix(d);
    RgbStringOfBytes(16 * HexDigitValue(d[0]) + HexDigitValue(d[1]),
                     16 * HexDigitValue(d[2]) + HexDigitValue(d[3]),
                     16 * HexDigitValue(d[4]) + HexDigitValue(d[5]));
  }

  lemma NormalizedSixDigits(d: string)
    requires |d| == 6 && AllHex(d)
    ensures NormalizedHex(Some("#" + d)) == "#" + Upper(d)
  {
    var s := "#" + d;
    StripOfTrimmed(s);
    assert StartsWith(s, "#");
    assert HashedUpper(s) == "#" + Upper(d);
  }

  lemma UpperPairsOfSix(d: string)
    requires |d| == 6 && AllHex(d)
    ensures var hv := "#" + Upper(d);
      && ParseHexPair(hv[1..3]) == Some(16 * HexDigitValue(d[0]) + HexDigitValue(d[1]))
      && ParseHexPair(hv[3..5]) == Some(16 * HexDigitValue(d[2]) + HexDigitValue(d[3]))
      && ParseHexPair(hv[5..7]) == Some(16 * HexDigitValue(d[4]) + HexDigitValue(d[5]))
  {
    var hv := "#" + Upper(d);
    assert hv[1..3] == [UpperChar(d[0]), UpperChar(d[1])];
    assert hv[3..5] == [UpperChar(d[2]), UpperChar(d[3])];
    assert hv[5..7] == [UpperChar(d[4]), UpperChar(d[5])];
    ParseUpperPair(d[0], d[1]);
    ParseUpperPair(d[2], d[3]);
    ParseUpperPair(d[4], d[5]);
  }

  /** "#RGB" expands to "#RRGGBB" before it is read. */
  lemma ColorFormatsOfThreeDigits(d: string)
    requires |d| == 3 && AllHex(d)
    ensures ColorFormatsOf(Some("#" + d)).hex == "#" + Doubled(Upper(d))
    ensures ColorFormatsOf(Some("#" + d)).rgb ==
      Some(RgbText(17 * HexDigitValue(d[0]), 17 * HexDigitValue(d[1]), 17 * HexDigitValue(d[2])))
  {
    NormalizedThreeDigits(d);
    UpperPairsOfThree(d);
    RgbStringOfBytes(17 * HexDigitValue(d[0]), 17 * HexDigitValue(d[1]), 17 * HexDigitValue(d[2]));
  }

  lemma NormalizedThreeDigits(d: string)
    requires |d| == 3 && AllHex(d)
    ensures NormalizedHex(Some("#" + d)) == "#" + Doubled(Upper(d))
  {
    var s := "#" + d;
    StripOfTrimmed(s);
    assert StartsWith(s, "#");
    assert HashedUpper(s)[1..] == Upper(d);
  }

  lemma UpperPairsOfThree(d: string)
    requires |d| == 3 && AllHex(d)
    ensures var hv := "#" + Doubled(Upper(d));
      && |hv| == 7
      && ParseHexPair(hv[1..3]) == Some(17 * HexDigitValue(d[0]))
      && ParseHexPair(hv[3..5]) == Some(17 * HexDigitValue(d[1]))
      && ParseHexPair(hv[5..7]) == Some(17 * HexDigitValue(d[2]))
  {
    var hv := "#" + Doubled(Upper(d));
    DoubledThree(Upper(d));
    assert hv[1..3] == [UpperChar(d[0]), UpperChar(d[0])];
    assert hv[3..5] == [UpperChar(d[1]), UpperChar(d[1])];
    assert hv[5..7] == [UpperChar(d[2]), UpperChar(d[2])];
    ParseUpperPair(d[0], d[0]);
    ParseUpperPair(d[1], d[1]);
    ParseUpperPair(d[2], d[2]);
  }

  // ---------------------------------------------------------------- refresh filters

  /** How the URL filter's `www` alternative is read. */
  datatype UrlRule = AsWritten | Intended

  /**
   * `re.compile(r"https?://|www\\.", re.IGNORECASE).search(text)`. In the raw
   * string the alternative is "www", a literal backslash, then any character
   * but a newline; the evidently intended alternative is "www.".
   */
  predicate HasUrl(text: string, rule: UrlRule)
  {
    var t := Lower(text);
    Contains(t, "http://") || Contains(t, "https://")
    || (rule.AsWritten? && exists i :: 0 <= i < |t| && BackslashWwwAt(t, i))
    || (rule.Intended? && Contains(t, "www."))
  }

  /** "www", a backslash and one more character that is not a newline, at `i`. */
  predicate BackslashWwwAt(t: string, i: int)
  {
    0 <= i && i + 5 <= |t| && t[i..i + 4] == "www\\" && t[i + 4] != '\n'
  }

  /** A bare "www." address is missed by the filter as written. */
  lemma HasUrlAsWrittenMissesWww()
    ensures !HasUrl("www.x", AsWritten)
    ensures HasUrl("www.x", Intended)
  {
    var t := Lower("www.x");
    assert t == "www.x";
    assert OccursAt(t, "www.", 0);
    forall i | 0 <= i && i + 5 <= |t|
      ensures !BackslashWwwAt(t, i)
    {
      assert t[i..i + 4][3] == '.';
    }
  }

  /** With the intended rule every text holding a "www." address, in any case, matches. */
  lemma HasUrlIntendedFindsWww(text: string, i: int)
    requires 0 <= i && i + 4 <= |text| && Lower(text[i..i + 4]) == "www."
    ensures HasUrl(text, Intended)
  {
    assert Lower(text)[i..i + 4] == Lower(text[i..i + 4]);
    assert OccursAt(Lower(text), "www.", i);
  }

  /** `_search_filter`: 1 text, 2 html, 3 holds a URL, 4 colour, 5 image-like, 6 vector; anything else keeps all. */
  predicate TypeFilterKeeps(filter: int, c: ClipItem, rule: UrlRule)
  {
    if filter == 1 then c.contentType == "text"
    else if filter == 2 then c.contentType == "html"
    else if filter == 3 then HasUrl(c.contentText, rule)
    else if filter == 4 then c.contentType == "color"
    else if filter == 5 then c.contentType in ["image", "svg+xml", "drawio"]
    else if filter == 6 then c.contentType in ["svg+xml", "drawio"]
    else true
  }

  /** `_search_pin_filter`: 1 pinned only, 2 unpinned only. */
  predicate PinFilterKeeps(filter: int, c: ClipItem)
  {
    if filter == 1 then c.pinned else if filter == 2 then !c.pinned else true
  }

  /** The search box settings; `compiled` is `re.compile(text, flags)`, `None` when it raises. */
  datatype Search = Search(
    text: string,
    regex: bool,
    ignoreCase: bool,
    compiled: Option<string -> bool>)

  /** The text filter: a regex search, or a substring test folded to lower case on request. */
  predicate TextFilterKeeps(s: Search, c: ClipItem)
  {
    if s.text == "" then true
    else if s.regex then s.compiled.None? || s.compiled.value(c.contentText)
    else if s.ignoreCase then Contains(Lower(c.contentText), Lower(s.text))
    else Contains(c.contentText, s.text)
  }

  /** The three filters as the predicates the comprehensions test. */
  function ByType(filter: int, rule: UrlRule): ClipItem -> bool
  {
    c => TypeFilterKeeps(filter, c, rule)
  }

  function ByPin(filter: int): ClipItem -> bool
  {
    c => PinFilterKeeps(filter, c)
  }

  function BySearch(search: Search): ClipItem -> bool
  {
    c => TextFilterKeeps(search, c)
  }

  /** A list comprehension `[x for x in s if p(x)]`. */
  function Filter<T>(s: seq<T>, p: T -> bool): (r: seq<T>)
    ensures |r| <= |s|
    ensures forall i :: 0 <= i < |r| ==> r[i] in s && p(r[i])
    ensures forall i :: 0 <= i < |s| && p(s[i]) ==> s[i] in r
  {
    if s == [] then [] else (if p(s[0]) then [s[0]] else []) + Filter(s[1..], p)
  }

  /** Filtering keeps the relative order: any order the list was sorted by still holds. */
  lemma {:induction false} FilterKeepsSorted<T>(s: seq<T>, p: T -> bool, lt: (T, T) -> bool)
    requires forall i, j :: 0 <= i < j < |s| ==> lt(s[i], s[j])
    ensures forall i, j :: 0 <= i < j < |Filter(s, p)| ==> lt(Filter(s, p)[i], Filter(s, p)[j])
  {
    if s != [] {
      FilterKeepsSorted(s[1..], p, lt);
      var rest := Filter(s[1..], p);
      if p(s[0]) {
        var r := [s[0]] + rest;
        assert Filter(s, p) == r;
        forall i, j | 0 <= i < j < |r|
          ensures lt(r[i], r[j])
        {
          if i == 0 {
            HeadComesFirst(s, lt, rest[j - 1]);
          }
        }
      } else {
        assert Filter(s, p) == rest;
      }
    }
  }

  lemma HeadComesFirst<T>(s: seq<T>, lt: (T, T) -> bool, y: T)
    requires forall i, j :: 0 <= i < j < |s| ==> lt(s[i], s[j])
    requires |s| > 0 && y in s[1..]
    ensures lt(s[0], y)
  {
    var k :| 0 <= k < |s[1..]| && s[1..][k] == y;
    assert s[k + 1] == y;
  }

  /** Both conditions at once. */
  function Both<T>(p: T -> bool, q: T -> bool): T -> bool
  {
    x => p(x) && q(x)
  }

  /** Two filters in a row are one filter on both conditions. */
  lemma {:induction false} FilterTwice<T>(s: seq<T>, p: T -> bool, q: T -> bool)
    ensures Filter(Filter(s, p), q) == Filter(s, Both(p, q))
  {
    if s != [] {
      FilterTwice(s[1..], p, q);
      var head := if p(s[0]) then [s[0]] else [];
      assert Filter(s, p) == head + Filter(s[1..], p);
      FilterAppend(head, Filter(s[1..], p), q);
    }
  }

  lemma {:induction false} FilterAppend<T>(a: seq<T>, b: seq<T>, p: T -> bool)
    ensures Filter(a + b, p) == Filter(a, p) + Filter(b, p)
  {
    if a == [] {
      assert a + b == b;
    } else {
      var head := if p(a[0]) then [a[0]] else [];
      assert (a + b)[0] == a[0];
      assert (a + b)[1..] == a[1..] + b;
      FilterAppend(a[1..], b, p);
      calc {
        Filter(a + b, p);
        head + Filter(a[1..] + b, p);
        head + (Filter(a[1..], p) + Filter(b, p));
        (head + Filter(a[1..], p)) + Filter(b, p);
      }
    }
  }

  lemma {:induction false} FilterAll<T>(s: seq<T>, p: T -> bool)
    requires forall i :: 0 <= i < |s| ==> p(s[i])
    ensures Filter(s, p) == s
  {
    if s != [] {
      FilterAll(s[1..], p);
    }
  }

  /**
   * `refresh`'s filter chain: type, then pin state, then the search text. The
   * program's filter is `FilterClips(..., AsWritten)`; `Intended` gives the
   * chain with the corrected URL pattern.
   */
  function FilterClips(clips: seq<ClipItem>, typeFilter: int, pinFilter: int, search: Search, rule: UrlRule): (r: seq<ClipItem>)
    ensures forall i :: 0 <= i < |r| ==>
      r[i] in clips && TypeFilterKeeps(typeFilter, r[i], rule) && PinFilterKeeps(pinFilter, r[i]) && TextFilterKeeps(search, r[i])
    ensures forall i :: 0 <= i < |clips| ==>
      TypeFilterKeeps(typeFilter, clips[i], rule) && PinFilterKeeps(pinFilter, clips[i]) && TextFilterKeeps(search, clips[i])
      ==> clips[i] in r
  {
    Filter(Filter(Filter(clips, ByType(typeFilter, rule)), ByPin(pinFilter)), BySearch(search))
  }

  /** The chain is a single filter on all three conditions. */
  lemma FilterClipsIsOneFilter(clips: seq<ClipItem>, typeFilter: int, pinFilter: int, search: Search, rule: UrlRule)
    ensures FilterClips(clips, typeFilter, pinFilter, search, rule)
         == Filter(clips, Both(Both(ByType(typeFilter, rule), ByPin(pinFilter)), BySearch(search)))
  {
    FilterTwice(clips, ByType(typeFilter, rule), ByPin(pinFilter));
    FilterTwice(clips, Both(ByType(typeFilter, rule), ByPin(pinFilter)), BySearch(search));
  }

  /** With no filter set the list is unchanged. */
  lemma FilterClipsNoFilter(clips: seq<ClipItem>, search: Search, rule: UrlRule)
    requires search.text == ""
    ensures FilterClips(clips, 0, 0, search, rule) == clips
  {
    FilterAll(clips, ByType(0, rule));
    FilterAll(clips, ByPin(0));
    FilterAll(clips, BySearch(search));
  }

  /** The filtered list keeps the order of the listing it came from. */
  lemma FilterClipsKeepsOrder(clips: seq<ClipItem>, typeFilter: int, pinFilter: int, search: Search, rule: UrlRule,
                              lt: (ClipItem, ClipItem) -> bool)
    requires forall i, j :: 0 <= i < j < |clips| ==> lt(clips[i], clips[j])
    ensures var r := FilterClips(clips, typeFilter, pinFilter, search, rule);
      forall i, j :: 0 <= i < j < |r| ==> lt(r[i], r[j])
  {
    var byType := Filter(clips, ByType(typeFilter, rule));
    var byPin := Filter(byType, ByPin(pinFilter));
    FilterKeepsSorted(clips, ByType(typeFilter, rule), lt);
    FilterKeepsSorted(byType, ByPin(pinFilter), lt);
    FilterKeepsSorted(byPin, BySearch(search), lt);
  }

  /**
   * With the URL filter on and nothing else, the list as written loses a clip
   * whose text is the bare address "www.x"; the corrected pattern keeps it.
   */
  lemma FilterClipsBareWww(c: ClipItem, search: Search)
    requires c.contentText == "www.x" && search.text == ""
    ensures FilterClips([c], 3, 0, search, AsWritten) == []
    ensures FilterClips([c], 3, 0, search, Intended) == [c]
  {
    HasUrlAsWrittenMissesWww();
  }
}
