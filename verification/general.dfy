/**
 * Text helpers of utils/general.py: truncation with an ellipsis, URL
 * normalisation for de-duplicating links, and recognition of colour text.
 */
module General {
  import opened Wrappers
  import opened Strings

  // ---------------------------------------------------------------- truncate_text

  /** `text` cut to `limit` characters plus "..." when longer; a non-positive limit disables the cut. */
  function TruncateText(text: string, limit: int): (r: string)
    ensures limit <= 0 || |text| <= limit ==> r == text
    ensures limit > 0 && |text| > limit ==> |r| == limit + 3 && r[..limit] == text[..limit] && EndsWith(r, "...")
  {
    if limit <= 0 || |text| <= limit then text else text[..limit] + "..."
  }

  /** A truncated text is left alone by a second truncation with the same limit. */
  lemma TruncateTextIdempotent(text: string, limit: int)
    ensures TruncateText(TruncateText(text, limit), limit) == TruncateText(text, limit)
  {
    var once := TruncateText(text, limit);
    if limit > 0 && |text| > limit {
      assert once[..limit] + "..." == once;
    }
  }

  // ---------------------------------------------------------------- normalize_url

  /** Drops one trailing "/" if present. */
  function DropOneSlash(u: string): (r: string)
    ensures EndsWith(u, "/") ==> r + "/" == u
    ensures !EndsWith(u, "/") ==> r == u
  {
    if EndsWith(u, "/") then u[..|u| - 1] else u
  }

  /** `s` starts with `prefix` when ASCII case is ignored (`prefix` is lower-case). */
  predicate StartsWithIgnoreCase(s: string, prefix: string)
  {
    |prefix| <= |s| && Lower(s[..|prefix|]) == prefix
  }

  /**
   * Length of the `https?://` prefix the pattern `^(https?://)?(.*)$` with
   * IGNORECASE captures, or 0 when group 1 does not participate.
   */
  function SchemeLength(s: string): (n: nat)
    ensures n == 0 || n == 7 || n == 8
    ensures n <= |s|
  {
    if StartsWithIgnoreCase(s, "https://") then 8
    else if StartsWithIgnoreCase(s, "http://") then 7
    else 0
  }

  /** A host written as "www." without a scheme gets "http://" in front. */
  function WithWww(s: string): (s1: string)
    ensures |s1| >= |s|
    ensures '\n' in s1 <==> '\n' in s
  {
    if StartsWithIgnoreCase(s, "www.") then "http://" + s else s
  }

  /**
   * The anchored pattern matches exactly when the string has no "\n": `.`
   * does not match a newline and `$` only matches at the end (the string is
   * already stripped, so it has no trailing newline). On a match the scheme
   * is lower-cased, or "http://" when absent.
   */
  function ApplySchemePattern(s: string): (u: string)
    ensures |u| >= |s|
    ensures '\n' !in s ==> StartsWith(u, "http://") || StartsWith(u, "https://")
  {
    if '\n' in s then s
    else
      var n := SchemeLength(s);
      if n == 0 then "http://" + s
      else
        assert Lower(s[..n]) == (if n == 8 then "https://" else "http://");
        Lower(s[..n]) + s[n..]
  }

  /** A stripped text with a newline inside has a non-space character on each side of it. */
  lemma StrippedWithNewline(s: string)
    requires '\n' in s && !IsSpace(s[0]) && !IsSpace(s[|s| - 1])
    ensures |s| >= 3
  {
    var k :| 0 <= k < |s| && s[k] == '\n';
    assert IsSpace(s[k]);
  }

  /** utils/general.py normalize_url. */
  function NormalizeUrl(url: string): (r: string)
    ensures r == "" <==> AllSpace(url)
  {
    var s := Strip(url);
    if s == "" then ""
    else
      var u := ApplySchemePattern(WithWww(s));
      SchemeAppliedIsLong(s);
      DropOneSlash(u)
  }

  /** A stripped, non-empty text keeps at least two characters once the scheme is applied. */
  lemma SchemeAppliedIsLong(s: string)
    requires s != "" && !IsSpace(s[0]) && !IsSpace(s[|s| - 1])
    ensures |ApplySchemePattern(WithWww(s))| >= 2
  {
    if '\n' in s {
      StrippedWithNewline(s);
    }
  }

  /** Without a newline, the result (before its one dropped "/") starts with "http://" or "https://". */
  lemma NormalizeUrlHasScheme(url: string)
    requires !AllSpace(url) && '\n' !in Strip(url)
    ensures var r := NormalizeUrl(url);
      StartsWith(r + "/", "http://") || StartsWith(r + "/", "https://")
  {
    var u := ApplySchemePattern(WithWww(Strip(url)));
    assert NormalizeUrl(url) == DropOneSlash(u);
    if StartsWith(u, "http://") {
      DropOneSlashKeepsPrefix(u, "http://");
    } else {
      DropOneSlashKeepsPrefix(u, "https://");
    }
  }

  /** Putting back the dropped "/" restores every prefix of the text. */
  lemma DropOneSlashKeepsPrefix(u: string, prefix: string)
    requires StartsWith(u, prefix)
    ensures StartsWith(DropOneSlash(u) + "/", prefix)
  {
    if !EndsWith(u, "/") {
      assert (u + "/")[..|prefix|] == u[..|prefix|];
    }
  }

  /** A "www." host without a scheme is prefixed with "http://". */
  lemma NormalizeUrlWww(url: string)
    requires StartsWithIgnoreCase(Strip(url), "www.") && '\n' !in Strip(url)
    ensures NormalizeUrl(url) == DropOneSlash("http://" + Strip(url))
  {
    WwwGetsHttp(Strip(url));
  }

  /** The scheme pattern leaves "http://" in front of a "www." host alone. */
  lemma WwwGetsHttp(s: string)
    requires StartsWithIgnoreCase(s, "www.") && '\n' !in s
    ensures ApplySchemePattern(WithWww(s)) == "http://" + s
  {
    var s1 := "http://" + s;
    assert s1[..7] == "http://";
    assert Lower(s1[..7]) == "http://";
    assert s1[..8][4] == ':';
    assert Lower(s1[..8])[4] == ':';
    assert SchemeLength(s1) == 7;
    assert s1[7..] == s;
  }

  /** Text with no scheme and no "www." prefix gets the default "http://". */
  lemma NormalizeUrlDefaultScheme(url: string)
    requires !AllSpace(url) && '\n' !in Strip(url)
    requires !StartsWithIgnoreCase(Strip(url), "www.") && SchemeLength(Strip(url)) == 0
    ensures NormalizeUrl(url) == DropOneSlash("http://" + Strip(url))
  {
  }

  /** An existing scheme is lower-cased and the rest of the text is kept. */
  lemma NormalizeUrlLowersScheme(url: string)
    requires '\n' !in Strip(url) && SchemeLength(Strip(url)) > 0
    ensures var s := Strip(url); var n := SchemeLength(s);
      NormalizeUrl(url) == DropOneSlash(Lower(s[..n]) + s[n..])
  {
    SchemeGetsLowered(Strip(url));
  }

  /** The scheme pattern lower-cases a scheme that is already there. */
  lemma SchemeGetsLowered(s: string)
    requires '\n' !in s && SchemeLength(s) > 0
    ensures var n := SchemeLength(s); ApplySchemePattern(WithWww(s)) == Lower(s[..n]) + s[n..]
  {
    var n := SchemeLength(s);
    assert Lower(s[..n])[..4] == "http";
    assert Lower(s[..4]) == Lower(s[..n])[..4];
    assert !StartsWithIgnoreCase(s, "www.");
  }

  // ---------------------------------------------------------------- parse_color_text

  /** The outcome of parse_color_text. The rgba branch computes with floats and is not modelled beyond its syntax. */
  datatype ColorText = NotAColor | Color(text: string) | RgbaNotModelled

  predicate IsHexDigit(c: char)
  {
    '0' <= c <= '9' || 'a' <= c <= 'f' || 'A' <= c <= 'F'
  }

  predicate AllHex(s: string)
  {
    forall i :: 0 <= i < |s| ==> IsHexDigit(s[i])
  }

  /** The part after an optional leading "#". */
  function HexBody(v: string): string
  {
    if |v| > 0 && v[0] == '#' then v[1..] else v
  }

  /** `re.fullmatch(r"#?([0-9a-fA-F]{6})([0-9a-fA-F]{2})?", v)` succeeds. */
  predicate IsHexColor(v: string)
  {
    var body := HexBody(v);
    (|body| == 6 || |body| == 8) && AllHex(body)
  }

  /** The text after its leading whitespace (`\s*`). */
  function SkipSpaces(t: string): (u: string)
    ensures |u| <= |t|
    ensures |u| > 0 ==> !IsSpace(u[0])
  {
    if |t| > 0 && IsSpace(t[0]) then SkipSpaces(t[1..]) else t
  }

  /** Number of leading ASCII digits. */
  function DigitPrefix(t: string): (k: nat)
    ensures k <= |t| && AllDigits(t[..k])
    ensures k < |t| ==> !IsDigit(t[k])
  {
    if |t| > 0 && IsDigit(t[0]) then
      var k := 1 + DigitPrefix(t[1..]);
      assert forall i :: 1 <= i < k ==> t[..k][i] == t[1..][..k - 1][i - 1];
      k
    else 0
  }

  /**
   * Matches `\s*(\d{1,3})\s*` and then the character `sep` at the start of
   * `t`, giving the number and the text after `sep`.
   */
  function Component(t: string, sep: char): (r: Option<(nat, string)>)
    ensures r.Some? ==> r.value.0 < 1000 && |r.value.1| < |t|
  {
    var u := SkipSpaces(t);
    var k := DigitPrefix(u);
    if k < 1 || k > 3 then None
    else
      var w := SkipSpaces(u[k..]);
      if |w| > 0 && w[0] == sep then
        DecimalBelow1000(u[..k]);
        Some((DecimalValue(u[..k]), w[1..]))
      else None
  }

  lemma DecimalBelow1000(s: string)
    requires AllDigits(s) && |s| <= 3
    ensures DecimalValue(s) < 1000
  {
    if |s| > 0 {
      DecimalBelow1000(s[..|s| - 1]);
      if |s| == 3 {
        assert DecimalValue(s[..2]) < 100 by {
          DecimalBelow100(s[..2]);
        }
      }
    }
  }

  lemma DecimalBelow100(s: string)
    requires AllDigits(s) && |s| <= 2
    ensures DecimalValue(s) < 100
  {
    if |s| == 2 {
      assert DecimalValue(s[..1]) < 10 by {
        assert s[..1][..0] == [];
      }
    } else if |s| == 1 {
      assert s[..0] == [];
    }
  }

  /**
   * Reads `n` components of an rgb() body: the first `n - 1` each end in ','
   * and the last ends in ')' with nothing after it.
   */
  function Components(t: string, n: nat): (r: Option<seq<nat>>)
    ensures r.Some? ==> |r.value| == n
    decreases n
  {
    if n == 0 then None
    else if n == 1 then
      match Component(t, ')')
      case None => None
      case Some(c) => if c.1 == "" then Some([c.0]) else None
    else
      match Component(t, ',')
      case None => None
      case Some(c) =>
        match Components(c.1, n - 1)
        case None => None
        case Some(rest) => Some([c.0] + rest)
  }

  /** `re.fullmatch(r"rgb\(\s*(\d{1,3})\s*,\s*(\d{1,3})\s*,\s*(\d{1,3})\s*\)", v, re.IGNORECASE)`. */
  function ParseRgb(v: string): Option<(nat, nat, nat)>
  {
    if |v| >= 4 && Lower(v[..4]) == "rgb(" then
      match Components(v[4..], 3)
      case None => None
      case Some(xs) => Some((xs[0], xs[1], xs[2]))
    else None
  }

  /** Number of leading characters drawn from "0123456789.". */
  function DecimalPrefix(t: string): (k: nat)
    ensures k <= |t|
  {
    if |t| > 0 && (IsDigit(t[0]) || t[0] == '.') then 1 + DecimalPrefix(t[1..]) else 0
  }

  /** `[0-9]*\.?[0-9]+` matches the whole of t. */
  predicate IsAlphaLiteral(t: string)
  {
    |t| > 0 && IsDigit(t[|t| - 1])
    && forall i, j :: 0 <= i < j < |t| && t[i] == '.' ==> t[j] != '.'
  }

  /** The rgba pattern of parse_color_text matches `v` (its float alpha is not interpreted). */
  predicate IsRgbaSyntax(v: string)
  {
    if |v| >= 5 && Lower(v[..5]) == "rgba(" then
      match Component(v[5..], ',')
      case None => false
      case Some(c1) =>
        match Component(c1.1, ',')
        case None => false
        case Some(c2) =>
          match Component(c2.1, ',')
          case None => false
          case Some(c3) =>
            var u := SkipSpaces(c3.1);
            var k := DecimalPrefix(u);
            IsAlphaLiteral(u[..k]) && SkipSpaces(u[k..]) == ")"
    else false
  }

  /** Numbers separated by ", " and closed by ")". */
  function RenderComponents(xs: seq<nat>): (r: string)
    requires |xs| >= 1
    ensures |r| > 0 && r[|r| - 1] == ')'
    decreases |xs|
  {
    if |xs| == 1 then NatToString(xs[0]) + ")"
    else NatToString(xs[0]) + ", " + RenderComponents(xs[1..])
  }

  /** The canonical text "rgb(r, g, b)". */
  function RgbText(r: nat, g: nat, b: nat): string
  {
    "rgb(" + RenderComponents([r, g, b])
  }

  /** utils/general.py parse_color_text. */
  function ParseColorText(text: string): (r: ColorText)
    ensures AllSpace(text) ==> r == NotAColor
    ensures r.Color? ==> IsCanonicalColor(r.text)
  {
    var v := Strip(text);
    if v == "" then NotAColor
    else if IsHexColor(v) then
      var body := HexBody(v);
      HexUpperIsHex(body);
      Color("#" + Upper(body))
    else
      var rgb := ParseRgb(v);
      if rgb.Some? && rgb.value.0 <= 255 && rgb.value.1 <= 255 && rgb.value.2 <= 255 then
        Color(RgbText(rgb.value.0, rgb.value.1, rgb.value.2))
      else if IsRgbaSyntax(v) then RgbaNotModelled
      else NotAColor
  }

  /** "#" and 6 or 8 upper-case hex digits, or "rgb(r, g, b)" with byte components. */
  ghost predicate IsCanonicalColor(c: string)
  {
    (|c| > 0 && c[0] == '#' && IsHexColor(c) && Upper(c[1..]) == c[1..])
    || exists r: nat, g: nat, b: nat :: r <= 255 && g <= 255 && b <= 255 && c == RgbText(r, g, b)
  }

  lemma HexUpperIsHex(body: string)
    requires AllHex(body)
    ensures AllHex(Upper(body)) && Upper(Upper(body)) == Upper(body)
    ensures HexBody("#" + Upper(body)) == Upper(body)
    ensures IsHexColor("#" + Upper(body)) <==> |body| == 6 || |body| == 8
  {
    var c := "#" + Upper(body);
    assert HexBody(c) == Upper(body);
  }

  /** Optional "#" and 6 or 8 hex digits become "#" and the digits upper-cased. */
  lemma ParseColorTextHex(text: string)
    requires IsHexColor(Strip(text))
    ensures ParseColorText(text) == Color("#" + Upper(HexBody(Strip(text))))
  {
  }

  /** Three-digit hex such as "#abc" is not a colour. */
  lemma ParseColorTextRejectsShortHex(digits: string)
    requires |digits| == 3 && AllHex(digits)
    ensures ParseColorText("#" + digits) == NotAColor
  {
    var v := "#" + digits;
    StripOfTrimmed(v);
    assert HexBody(v) == digits;
    assert Lower(v[..1]) == "#";
  }

  /** Text starting with "rgb(" in any case is neither hex nor rgba. */
  lemma RgbPrefixExcludes(v: string)
    requires |v| >= 4 && Lower(v[..4]) == "rgb("
    ensures !IsHexColor(v) && !IsRgbaSyntax(v)
  {
    assert Lower(v[..4])[3] == '(';
    assert Lower(v[..4])[0] == 'r';
    assert HexBody(v) == v;
    assert !IsHexDigit(v[3]);
    if |v| >= 5 {
      assert Lower(v[..5])[3] == LowerChar(v[3]);
    }
  }

  /** An rgb() triple with a component above 255 is rejected rather than clamped. */
  lemma ParseColorTextRejectsOutOfRange(text: string)
    requires ParseRgb(Strip(text)).Some?
    requires var t := ParseRgb(Strip(text)).value; t.0 > 255 || t.1 > 255 || t.2 > 255
    ensures ParseColorText(text) == NotAColor
  {
    RgbPrefixExcludes(Strip(text));
  }

  lemma NatToStringShort(n: nat)
    requires n < 1000
    ensures 1 <= |NatToString(n)| <= 3
  {
    if n >= 10 {
      NatToStringShort(n / 10);
      if n >= 100 {
        assert |NatToString(n / 10)| == 2 by {
          var m := n / 10;
          assert m >= 10;
          assert |NatToString(m / 10)| == 1;
        }
      }
    }
  }

  /** Leading whitespace before a component is skipped. */
  lemma ComponentSkipsSpace(x: string, sep: char)
    ensures Component(" " + x, sep) == Component(x, sep)
  {
    assert (" " + x)[1..] == x;
    assert SkipSpaces(" " + x) == SkipSpaces(x);
  }

  /** Component reads back a rendered number followed by `sep`. */
  lemma ComponentOfRendered(n: nat, sep: char, rest: string)
    requires n < 1000 && !IsSpace(sep) && !IsDigit(sep)
    ensures Component(NatToString(n) + ([sep] + rest), sep) == Some((n, rest))
  {
    var d := NatToString(n);
    var y := [sep] + rest;
    var t := d + y;
    NatToStringShort(n);
    assert SkipSpaces(t) == t;
    DigitPrefixOf(d, y);
    assert t[..|d|] == d;
    assert t[|d|..] == y;
    assert SkipSpaces(y) == y;
    assert y[1..] == rest;
    DecimalValueOfNatToString(n);
  }

  lemma DigitPrefixOf(d: string, y: string)
    requires AllDigits(d) && (|y| > 0 ==> !IsDigit(y[0]))
    ensures DigitPrefix(d + y) == |d|
  {
    if |d| > 0 {
      assert (d + y)[1..] == d[1..] + y;
      DigitPrefixOf(d[1..], y);
    }
  }

  /** RgbText is the f-string `f"rgb({r}, {g}, {b})"`. */
  lemma RgbTextFormat(r: nat, g: nat, b: nat)
    ensures RgbText(r, g, b)
         == "rgb(" + NatToString(r) + ", " + NatToString(g) + ", " + NatToString(b) + ")"
  {
    var tb := RenderComponents([b]);
    var tg := RenderComponents([g, b]);
    assert tb == NatToString(b) + ")";
    assert tg == NatToString(g) + ", " + tb by {
      assert [g, b][1..] == [b];
    }
    assert RenderComponents([r, g, b]) == NatToString(r) + ", " + tg by {
      assert [r, g, b][1..] == [g, b];
    }
    SeqAssoc5("rgb(", NatToString(r), ", ", NatToString(g), ", ", NatToString(b), ")");
  }

  lemma SeqAssoc5<T>(a: seq<T>, b: seq<T>, c: seq<T>, d: seq<T>, e: seq<T>, f: seq<T>, g: seq<T>)
    ensures a + (b + c + (d + e + (f + g))) == a + b + c + d + e + f + g
  {
  }

  lemma RgbPrefixOf(t: string)
    ensures var v := "rgb(" + t; |v| >= 4 && Lower(v[..4]) == "rgb(" && v[4..] == t
  {
    var v := "rgb(" + t;
    assert v[..4] == "rgb(";
  }

  /** Leading whitespace before a list of components is skipped. */
  lemma ComponentsSkipSpace(x: string, n: nat)
    ensures Components(" " + x, n) == Components(x, n)
  {
    if n == 1 {
      ComponentSkipsSpace(x, ')');
    } else if n > 1 {
      ComponentSkipsSpace(x, ',');
    }
  }

  /** The last component reads back from "n)". */
  lemma ComponentsOfLast(n: nat)
    requires n < 1000
    ensures Components(NatToString(n) + ")", 1) == Some([n])
  {
    assert NatToString(n) + ")" == NatToString(n) + ([')'] + "");
    ComponentOfRendered(n, ')', "");
  }

  /** ComponentsOfLast, for a text and numbers already known to be the rendered ones. */
  lemma ComponentsOfLastAt(n: nat, t: string, xs: seq<nat>)
    requires n < 1000 && t == NatToString(n) + ")" && xs == [n]
    ensures Components(t, 1) == Some(xs)
  {
    ComponentsOfLast(n);
  }

  /** A component "n, " in front of readable components is read first. */
  lemma ComponentsOfCons(n: nat, rest: string, m: nat, ys: seq<nat>)
    requires n < 1000 && m >= 1 && Components(rest, m) == Some(ys)
    ensures Components(NatToString(n) + ", " + rest, m + 1) == Some([n] + ys)
  {
    var t := NatToString(n) + ", " + rest;
    assert Component(t, ',') == Some((n, " " + rest)) by {
      assert t == NatToString(n) + ([','] + (" " + rest));
      ComponentOfRendered(n, ',', " " + rest);
    }
    ComponentsSkipSpace(rest, m);
  }

  /** Rendered components read back as the same numbers. */
  lemma {:induction false} ComponentsOfRendered(xs: seq<nat>)
    requires |xs| >= 1 && forall i :: 0 <= i < |xs| ==> xs[i] < 1000
    ensures Components(RenderComponents(xs), |xs|) == Some(xs)
    decreases |xs|
  {
    if |xs| == 1 {
      assert [xs[0]] == xs;
      ComponentsOfLastAt(xs[0], RenderComponents(xs), xs);
    } else {
      var ys := xs[1..];
      assert forall i :: 0 <= i < |ys| ==> ys[i] < 1000;
      ComponentsOfRendered(ys);
      ComponentsOfRenderedCons(xs);
    }
  }

  lemma ComponentsOfRenderedCons(xs: seq<nat>)
    requires |xs| >= 2 && xs[0] < 1000
    requires Components(RenderComponents(xs[1..]), |xs| - 1) == Some(xs[1..])
    ensures Components(RenderComponents(xs), |xs|) == Some(xs)
  {
    var ys := xs[1..];
    RenderComponentsCons(xs);
    assert [xs[0]] + ys == xs;
    ComponentsOfConsAt(xs[0], RenderComponents(ys), |xs| - 1, ys, RenderComponents(xs), xs);
  }

  /** ComponentsOfCons, for a text and numbers already known to be the joined ones. */
  lemma ComponentsOfConsAt(n: nat, rest: string, m: nat, ys: seq<nat>, t: string, xs: seq<nat>)
    requires n < 1000 && m >= 1 && Components(rest, m) == Some(ys)
    requires t == NatToString(n) + ", " + rest && xs == [n] + ys
    ensures Components(t, m + 1) == Some(xs)
  {
    ComponentsOfCons(n, rest, m, ys);
  }

  /** Rendering more than one component puts the first in front of the rest. */
  lemma RenderComponentsCons(xs: seq<nat>)
    requires |xs| >= 2
    ensures RenderComponents(xs) == NatToString(xs[0]) + ", " + RenderComponents(xs[1..])
  {
  }

  /** The canonical text "rgb(r, g, b)" parses to its own components. */
  lemma ParseRgbOfRgbText(r: nat, g: nat, b: nat)
    requires r <= 255 && g <= 255 && b <= 255
    ensures ParseRgb(RgbText(r, g, b)) == Some((r, g, b))
  {
    ComponentsOfRendered([r, g, b]);
    RgbPrefixOf(RenderComponents([r, g, b]));
  }

  /** A canonical hex colour parses to itself. */
  lemma HexColorFixed(body: string)
    requires AllHex(body) && (|body| == 6 || |body| == 8)
    ensures ParseColorText("#" + Upper(body)) == Color("#" + Upper(body))
  {
    var c := "#" + Upper(body);
    HexUpperIsHex(body);
    assert c[|c| - 1] == Upper(body)[|body| - 1];
    StripOfTrimmed(c);
  }

  /** A canonical rgb colour parses to itself. */
  lemma RgbColorFixed(r: nat, g: nat, b: nat)
    requires r <= 255 && g <= 255 && b <= 255
    ensures ParseColorText(RgbText(r, g, b)) == Color(RgbText(r, g, b))
  {
    var c := RgbText(r, g, b);
    assert c[0] == 'r' && c[|c| - 1] == ')';
    StripOfTrimmed(c);
    assert c[..4] == "rgb(";
    RgbPrefixExcludes(c);
    ParseRgbOfRgbText(r, g, b);
  }

  /** Parsing a canonical colour gives it back unchanged. */
  lemma ParseColorTextIdempotent(text: string)
    requires ParseColorText(text).Color?
    ensures ParseColorText(ParseColorText(text).text) == ParseColorText(text)
  {
    var v := Strip(text);
    if IsHexColor(v) {
      HexColorFixed(HexBody(v));
    } else {
      var t := ParseRgb(v).value;
      RgbColorFixed(t.0, t.1, t.2);
    }
  }
}
