/**
 * utils/html.py truncate_html: cut rich text to a budget of visible
 * characters while keeping its markup balanced.
 *
 * The input is split into tags and text runs; text is emitted until the
 * budget is reached, then "..." is added and the walk stops; every
 * opening tag still open at the end is closed, innermost first.
 */
module HtmlTruncate {
  import opened Wrappers
  import opened Strings

  // ---------------------------------------------------------------------
  // Tokens: `re.findall(r"<[^>]+>|[^<]+", html)`
  // ---------------------------------------------------------------------

  /** Index of the first `c` in `s` at or after `from`, or `|s|` if none. */
  function IndexFrom(s: string, c: char, from: nat): (k: nat)
    requires from <= |s|
    ensures from <= k <= |s|
    ensures k < |s| ==> s[k] == c
    ensures forall j :: from <= j < k ==> s[j] != c
    decreases |s| - from
  {
    if from == |s| || s[from] == c then from else IndexFrom(s, c, from + 1)
  }

  /** A tag token: "<", at least one character that is not ">", then ">". */
  predicate IsTagToken(t: string)
  {
    |t| >= 3 && t[0] == '<' && t[|t| - 1] == '>'
    && forall j :: 1 <= j < |t| - 1 ==> t[j] != '>'
  }

  /** A text token: a non-empty run without "<". */
  predicate IsTextToken(t: string)
  {
    |t| > 0 && forall j :: 0 <= j < |t| ==> t[j] != '<'
  }

  /**
   * The tokens of `s`, left to right. A "<" that starts no tag (it is
   * followed directly by ">" or by no ">" at all) matches neither
   * alternative and is skipped.
   */
  function Tokenize(s: string): (tokens: seq<string>)
    ensures forall i :: 0 <= i < |tokens| ==> IsTagToken(tokens[i]) || IsTextToken(tokens[i])
    decreases |s|
  {
    if s == [] then []
    else if s[0] == '<' then
      var k := IndexFrom(s, '>', 1);
      if 2 <= k < |s| then [s[..k + 1]] + Tokenize(s[k + 1..])
      else Tokenize(s[1..])
    else
      var k := IndexFrom(s, '<', 0);
      [s[..k]] + Tokenize(s[k..])
  }

  /** Text without "<" is a single text token. */
  lemma TokenizePlainText(s: string)
    requires IsTextToken(s)
    ensures Tokenize(s) == [s]
  {
    var k := IndexFrom(s, '<', 0);
    assert k == |s|;
    assert s[..k] == s && s[k..] == [];
  }

  /** A "<" with no ">" after it is dropped. */
  lemma TokenizeDropsUnclosed(s: string)
    requires |s| > 0 && s[0] == '<' && forall j :: 0 <= j < |s| ==> s[j] != '>'
    ensures Tokenize(s) == Tokenize(s[1..])
  {
    if |s| > 1 {
      assert IndexFrom(s, '>', 1) == |s|;
    }
  }

  // ---------------------------------------------------------------------
  // Style bodies: `re.findall(r"(?is)<\s*style\b[^>]*>(.*?)</\s*style\s*>", html)`
  // ---------------------------------------------------------------------

  /** First index at or after `i` that is not whitespace (`\s*`). */
  function SpacesEnd(s: string, i: nat): (j: nat)
    requires i <= |s|
    ensures i <= j <= |s|
    ensures j < |s| ==> !IsSpace(s[j])
    decreases |s| - i
  {
    if i < |s| && IsSpace(s[i]) then SpacesEnd(s, i + 1) else i
  }

  /** A regex word character (ASCII letters, digits and "_"). */
  predicate IsWordChar(c: char)
  {
    'a' <= c <= 'z' || 'A' <= c <= 'Z' || IsDigit(c) || c == '_'
  }

  /** The word "style" in any case at index `j`. */
  predicate StyleWordAt(s: string, j: nat)
  {
    j + 5 <= |s| && Lower(s[j..j + 5]) == "style"
  }

  /** End of an opening `<\s*style\b[^>]*>` that starts at `i`. */
  function StyleOpenEnd(s: string, i: nat): (r: Option<nat>)
    requires i <= |s|
    ensures r.Some? ==> i < r.value <= |s|
  {
    if i < |s| && s[i] == '<' then
      var j := SpacesEnd(s, i + 1);
      if StyleWordAt(s, j) && (j + 5 == |s| || !IsWordChar(s[j + 5])) then
        var k := IndexFrom(s, '>', j + 5);
        if k < |s| then Some(k + 1) else None
      else None
    else None
  }

  /** End of a closing `</\s*style\s*>` that starts at `k`. */
  function StyleCloseEnd(s: string, k: nat): (r: Option<nat>)
    requires k <= |s|
    ensures r.Some? ==> k < r.value <= |s|
  {
    if k + 2 <= |s| && s[k] == '<' && s[k + 1] == '/' then
      var j := SpacesEnd(s, k + 2);
      if StyleWordAt(s, j) then
        var m := SpacesEnd(s, j + 5);
        if m < |s| && s[m] == '>' then Some(m + 1) else None
      else None
    else None
  }

  /** The first closing style tag at or after `k` (the lazy `(.*?)`): its start and end. */
  function FirstStyleClose(s: string, k: nat): (r: Option<(nat, nat)>)
    requires k <= |s|
    ensures r.Some? ==> k <= r.value.0 < r.value.1 <= |s|
    decreases |s| - k
  {
    match StyleCloseEnd(s, k)
    case Some(e) => Some((k, e))
    case None => if k == |s| then None else FirstStyleClose(s, k + 1)
  }

  /** The bodies of the style elements found scanning from `i`. */
  function StyleBodiesFrom(s: string, i: nat): seq<string>
    requires i <= |s|
    decreases |s| - i
  {
    if i == |s| then []
    else
      match StyleOpenEnd(s, i)
      case None => StyleBodiesFrom(s, i + 1)
      case Some(b) =>
        match FirstStyleClose(s, b)
        case None => StyleBodiesFrom(s, i + 1)
        case Some(ce) => [s[b..ce.0]] + StyleBodiesFrom(s, ce.1)
  }

  function TotalLength(parts: seq<string>): (n: nat)
  {
    if parts == [] then 0 else |parts[0]| + TotalLength(parts[1..])
  }

  /** The text budget: `limit` plus the length of all style bodies. */
  function Budget(html: string, limit: int): int
  {
    limit + TotalLength(StyleBodiesFrom(html, 0))
  }

  /** Scanning text without "<" finds no style element. */
  lemma {:induction false} NoStyleWithoutTags(s: string, i: nat)
    requires i <= |s| && forall j :: i <= j < |s| ==> s[j] != '<'
    ensures StyleBodiesFrom(s, i) == []
    decreases |s| - i
  {
    if i < |s| {
      NoStyleWithoutTags(s, i + 1);
    }
  }

  /** Markup-free text is cut at exactly `limit` characters. */
  lemma BudgetOfPlainText(html: string, limit: int)
    requires forall j :: 0 <= j < |html| ==> html[j] != '<'
    ensures Budget(html, limit) == limit
  {
    NoStyleWithoutTags(html, 0);
  }

  // ---------------------------------------------------------------------
  // Tag names
  // ---------------------------------------------------------------------

  /**
   * How the name of a closing tag is cut. The source's pattern is the raw
   * string `[</>\\s].*$`, whose class holds "<", "/", ">", a backslash and
   * the letter "s"; the evident intent was "<", "/", ">" and whitespace.
   */
  datatype NameRule = AsWritten | Intended

  predicate InNameClass(c: char, rule: NameRule)
  {
    c == '<' || c == '/' || c == '>'
    || (rule.AsWritten? && (c == '\\' || c == 's'))
    || (rule.Intended? && IsSpace(c))
  }

  /**
   * Where `re.sub(class + ".*$", "", s)` starts cutting: the first index
   * holding a class character that has no line feed after it (`.` stops at
   * a line feed and `$` needs the end), or `|s|` when nothing matches.
   * This is exact for text that does not end in a line feed, which covers
   * the tail of every tag token (it ends in ">").
   */
  function CutFrom(s: string, i: nat, rule: NameRule): (k: nat)
    requires i <= |s|
    ensures i <= k <= |s|
    decreases |s| - i
  {
    if i == |s| then |s|
    else if InNameClass(s[i], rule) && '\n' !in s[i + 1..] then i
    else CutFrom(s, i + 1, rule)
  }

  /** Name of a closing tag: `tok[2:]` with the matched tail removed. */
  function CloseName(rest: string, rule: NameRule): (name: string)
    ensures |name| <= |rest|
  {
    rest[..CutFrom(rest, 0, rule)]
  }

  predicate IsNameChar(c: char)
  {
    'a' <= c <= 'z' || 'A' <= c <= 'Z' || IsDigit(c)
  }

  /** Length of the run of `[a-zA-Z0-9]` at the start of `s`. */
  function NamePrefix(s: string): (k: nat)
    ensures k <= |s|
    ensures forall j :: 0 <= j < k ==> IsNameChar(s[j])
    ensures k < |s| ==> !IsNameChar(s[k])
  {
    if |s| > 0 && IsNameChar(s[0]) then 1 + NamePrefix(s[1..]) else 0
  }

  /** Name of an opening tag: `re.match(r"<\s*([a-zA-Z0-9]+)", tok)`, lower-cased, or "". */
  function OpenName(tok: string): (name: string)
    requires |tok| > 0
    ensures Lower(name) == name
    ensures forall j :: 0 <= j < |name| ==> IsNameChar(name[j])
  {
    var j := SpacesEnd(tok, 1);
    var k := NamePrefix(tok[j..]);
    var name := Lower(tok[j..j + k]);
    assert forall m :: 0 <= m < |name| ==> IsNameChar(name[m]) by {
      forall m | 0 <= m < |name|
        ensures IsNameChar(name[m])
      {
        assert tok[j..j + k][m] == tok[j..][m];
      }
    }
    name
  }

  /** With the intended rule, the closing tag of a name gives that name back. */
  lemma CloseNameIntended(name: string)
    requires forall j :: 0 <= j < |name| ==> IsNameChar(name[j])
    ensures CloseName(name + ">", Intended) == name
  {
    var rest := name + ">";
    assert '\n' !in rest[|name| + 1..];
    CutSkipsNameChars(rest, 0, |name|, Intended);
    assert rest[..|name|] == name;
  }

  lemma {:induction false} CutSkipsNameChars(s: string, i: nat, k: nat, rule: NameRule)
    requires i <= k < |s| && InNameClass(s[k], rule) && '\n' !in s[k + 1..]
    requires forall j :: i <= j < k ==> IsNameChar(s[j]) && !InNameClass(s[j], rule)
    ensures CutFrom(s, i, rule) == k
    decreases k - i
  {
    if i < k {
      CutSkipsNameChars(s, i + 1, k, rule);
    }
  }

  /** As written, "</span>" is cut at its "s", so its name is "". */
  lemma CloseNameAsWrittenCutsAtS()
    ensures CloseName("span>", AsWritten) == ""
  {
    var rest := "span>";
    assert InNameClass(rest[0], AsWritten);
    assert '\n' !in rest[1..] by {
      assert rest[1..] == "pan>";
    }
  }

  // ---------------------------------------------------------------------
  // The walk over the tokens
  // ---------------------------------------------------------------------

  /** One entry of the result list. */
  datatype Piece =
    | Markup(tag: string)        // a tag token, copied unchanged
    | Chunk(text: string)        // a (possibly shortened) text token
    | Ellipsis                   // the "..." appended when the budget is reached
    | CloseTag(name: string)     // "</name>" appended at the end

  function PieceText(p: Piece): string
  {
    match p
    case Markup(t) => t
    case Chunk(t) => t
    case Ellipsis => "..."
    case CloseTag(n) => "</" + n + ">"
  }

  /** `"".join(result)`. */
  function Render(ps: seq<Piece>): string
  {
    if ps == [] then "" else PieceText(ps[0]) + Render(ps[1..])
  }

  /** The number of text characters among the pieces. */
  function TextLength(ps: seq<Piece>): (n: nat)
  {
    if ps == [] then 0
    else (if ps[0].Chunk? then |ps[0].text| else 0) + TextLength(ps[1..])
  }

  /** The loop's variables: `result`, `stack`, `text_len`, and whether it broke out. */
  datatype WalkState = WalkState(out: seq<Piece>, stack: seq<string>, textLen: int, stopped: bool)

  /** One iteration of the loop of truncate_html on token `tok`. */
  function Step(w: WalkState, tok: string, budget: int, rule: NameRule): WalkState
  {
    if w.stopped then w
    else if |tok| > 0 && tok[0] == '<' then
      if |tok| >= 2 && tok[1] == '/' then
        var name := CloseName(tok[2..], rule);
        var stack := if |w.stack| > 0 && w.stack[|w.stack| - 1] == name
                     then w.stack[..|w.stack| - 1] else w.stack;
        w.(out := w.out + [Markup(tok)], stack := stack)
      else if |tok| >= 2 && tok[|tok| - 2..] == "/>" then
        w.(out := w.out + [Markup(tok)])
      else
        w.(out := w.out + [Markup(tok)], stack := w.stack + [OpenName(tok)])
    else if w.textLen >= budget then w
    else
      var remaining := budget - w.textLen;
      var chunk := if remaining < |tok| then tok[..remaining] else tok;
      var textLen := w.textLen + |chunk|;
      if textLen >= budget then
        w.(out := w.out + [Chunk(chunk), Ellipsis], textLen := textLen, stopped := true)
      else
        w.(out := w.out + [Chunk(chunk)], textLen := textLen)
  }

  /** The state after the loop has seen `tokens` (left fold of Step). */
  function Walk(tokens: seq<string>, budget: int, rule: NameRule): WalkState
  {
    if tokens == [] then WalkState([], [], 0, false)
    else Step(Walk(tokens[..|tokens| - 1], budget, rule), tokens[|tokens| - 1], budget, rule)
  }

  /** `for name in reversed(stack): if name: result.append(f"</{name}>")`. */
  function Closes(stack: seq<string>): seq<Piece>
  {
    if stack == [] then []
    else Closes(stack[1..]) + (if stack[0] != "" then [CloseTag(stack[0])] else [])
  }

  /** truncate_html(html, limit), with closing-tag names cut by `rule`. */
  function TruncateHtmlSpec(html: string, limit: int, rule: NameRule): string
  {
    var w := Walk(Tokenize(html), Budget(html, limit), rule);
    Render(w.out + Closes(w.stack))
  }

  /** truncate_html: the budget, the tokens, the walk, then the closing tags. */
  method TruncateHtml(html: string, limit: int, rule: NameRule) returns (r: string)
    ensures r == TruncateHtmlSpec(html, limit, rule)
  {
    var budget := Budget(html, limit);
    var tokens := Tokenize(html);
    var out, stack := WalkTokens(tokens, budget, rule);
    var closes := CloseOpenTags(stack);
    r := Render(out + closes);
  }

  /** The `for tok in tokens` loop of truncate_html, with its `break`. */
  method WalkTokens(tokens: seq<string>, budget: int, rule: NameRule) returns (out: seq<Piece>, stack: seq<string>)
    ensures out == Walk(tokens, budget, rule).out
    ensures stack == Walk(tokens, budget, rule).stack
  {
    out := [];
    stack := [];
    var textLen := 0;
    var stopped := false;
    var i := 0;
    while i < |tokens|
      invariant 0 <= i <= |tokens|
      invariant !stopped
      invariant Walk(tokens[..i], budget, rule) == WalkState(out, stack, textLen, stopped)
      decreases |tokens| - i
    {
      WalkSnoc(tokens, i, budget, rule);
      out, stack, textLen, stopped := WalkToken(out, stack, textLen, tokens[i], budget, rule);
      if stopped {
        WalkStaysStopped(tokens, i + 1, budget, rule);
        break;
      }
      i := i + 1;
    }
    assert stopped || tokens[..i] == tokens;
  }

  /** One pass of the loop body: the token is emitted, pushed, popped, cut or skipped. */
  method WalkToken(out: seq<Piece>, stack: seq<string>, textLen: int, tok: string, budget: int, rule: NameRule)
    returns (out': seq<Piece>, stack': seq<string>, textLen': int, stopped: bool)
    ensures WalkState(out', stack', textLen', stopped) == Step(WalkState(out, stack, textLen, false), tok, budget, rule)
  {
    ghost var before := WalkState(out, stack, textLen, false);
    out', stack', textLen', stopped := out, stack, textLen, false;
    if |tok| > 0 && tok[0] == '<' {
      if |tok| >= 2 && tok[1] == '/' {
        StepCloseTag(before, tok, budget, rule);
        var name := CloseName(tok[2..], rule);
        if |stack| > 0 && stack[|stack| - 1] == name {
          stack' := stack[..|stack| - 1];
        }
        out' := out + [Markup(tok)];
      } else if |tok| >= 2 && tok[|tok| - 2..] == "/>" {
        StepSelfClosing(before, tok, budget, rule);
        out' := out + [Markup(tok)];
      } else {
        StepOpenTag(before, tok, budget, rule);
        stack' := stack + [OpenName(tok)];
        out' := out + [Markup(tok)];
      }
    } else if textLen < budget {
      StepTextKept(before, tok, budget, rule);
      var remaining := budget - textLen;
      var chunk := if remaining < |tok| then tok[..remaining] else tok;
      textLen' := textLen + |chunk|;
      out' := out + [Chunk(chunk)];
      if textLen' >= budget {
        out' := out' + [Ellipsis];
        stopped := true;
        assert out' == out + [Chunk(chunk), Ellipsis];
      }
    } else {
      StepTextSkipped(before, tok, budget, rule);
    }
  }

  /** `for name in reversed(stack): if name: result.append(f"</{name}>")`. */
  method CloseOpenTags(stack: seq<string>) returns (closes: seq<Piece>)
    ensures closes == Closes(stack)
  {
    closes := [];
    var j := |stack|;
    while j > 0
      invariant 0 <= j <= |stack|
      invariant closes == Closes(stack[j..])
      decreases j
    {
      j := j - 1;
      assert stack[j..][1..] == stack[j + 1..];
      if stack[j] != "" {
        closes := closes + [CloseTag(stack[j])];
      }
    }
    assert stack[0..] == stack;
  }

  /** A closing tag is emitted and pops the top of the stack exactly when its name matches. */
  lemma StepCloseTag(w: WalkState, tok: string, budget: int, rule: NameRule)
    requires !w.stopped && |tok| >= 2 && tok[0] == '<' && tok[1] == '/'
    ensures var name := CloseName(tok[2..], rule);
            Step(w, tok, budget, rule)
            == w.(out := w.out + [Markup(tok)],
                  stack := if |w.stack| > 0 && w.stack[|w.stack| - 1] == name then w.stack[..|w.stack| - 1] else w.stack)
  {
  }

  /** A self-closing tag is emitted but not pushed. */
  lemma StepSelfClosing(w: WalkState, tok: string, budget: int, rule: NameRule)
    requires !w.stopped && |tok| >= 2 && tok[0] == '<' && tok[1] != '/' && tok[|tok| - 2..] == "/>"
    ensures Step(w, tok, budget, rule) == w.(out := w.out + [Markup(tok)])
  {
  }

  /** Any other tag is emitted and its lower-cased name is pushed. */
  lemma StepOpenTag(w: WalkState, tok: string, budget: int, rule: NameRule)
    requires !w.stopped && |tok| >= 1 && tok[0] == '<' && !(|tok| >= 2 && tok[1] == '/')
    requires !(|tok| >= 2 && tok[|tok| - 2..] == "/>")
    ensures Step(w, tok, budget, rule) == w.(out := w.out + [Markup(tok)], stack := w.stack + [OpenName(tok)])
  {
  }

  /** Text is skipped once the budget is used up. */
  lemma StepTextSkipped(w: WalkState, tok: string, budget: int, rule: NameRule)
    requires !w.stopped && !(|tok| > 0 && tok[0] == '<') && w.textLen >= budget
    ensures Step(w, tok, budget, rule) == w
  {
  }

  /** Otherwise text is cut to the remaining budget; reaching it appends "..." and stops. */
  lemma StepTextKept(w: WalkState, tok: string, budget: int, rule: NameRule)
    requires !w.stopped && !(|tok| > 0 && tok[0] == '<') && w.textLen < budget
    ensures var remaining := budget - w.textLen;
            var chunk := if remaining < |tok| then tok[..remaining] else tok;
            var textLen := w.textLen + |chunk|;
            Step(w, tok, budget, rule)
            == if textLen >= budget
               then w.(out := w.out + [Chunk(chunk), Ellipsis], textLen := textLen, stopped := true)
               else w.(out := w.out + [Chunk(chunk)], textLen := textLen)
  {
  }

  /** The walk over one more token is one more Step. */
  lemma WalkSnoc(tokens: seq<string>, i: nat, budget: int, rule: NameRule)
    requires i < |tokens|
    ensures Walk(tokens[..i + 1], budget, rule) == Step(Walk(tokens[..i], budget, rule), tokens[i], budget, rule)
  {
    assert tokens[..i + 1][..i] == tokens[..i];
  }

  /** Once the walk has stopped, further tokens change nothing. */
  lemma {:induction false} WalkStaysStopped(tokens: seq<string>, i: nat, budget: int, rule: NameRule)
    requires i <= |tokens|
    ensures Walk(tokens[..i], budget, rule).stopped ==> Walk(tokens, budget, rule) == Walk(tokens[..i], budget, rule)
    decreases |tokens| - i
  {
    if i < |tokens| && Walk(tokens[..i], budget, rule).stopped {
      assert tokens[..i + 1][..i] == tokens[..i];
      WalkStaysStopped(tokens, i + 1, budget, rule);
    } else if i == |tokens| {
      assert tokens[..i] == tokens;
    }
  }
}

module HtmlTruncateProps {
  import opened Strings
  import opened HtmlTruncate
  import opened Wrappers

  lemma {:induction false} TextLengthAppend(a: seq<Piece>, b: seq<Piece>)
    ensures TextLength(a + b) == TextLength(a) + TextLength(b)
    decreases |a|
  {
    if a == [] {
      assert a + b == b;
    } else {
      assert (a + b)[1..] == a[1..] + b;
      TextLengthAppend(a[1..], b);
    }
  }

  /** Closing tags carry no text. */
  lemma {:induction false} ClosesHaveNoText(stack: seq<string>)
    ensures TextLength(Closes(stack)) == 0
    decreases |stack|
  {
    if stack != [] {
      ClosesHaveNoText(stack[1..]);
      var last := if stack[0] != "" then [CloseTag(stack[0])] else [];
      TextLengthAppend(Closes(stack[1..]), last);
      assert TextLength(last) == 0 by {
        if last != [] {
          assert last[1..] == [];
        }
      }
    }
  }

  /** What the loop keeps true: the text counter, the budget and the ellipsis. */
  ghost predicate WalkInv(w: WalkState, budget: int)
  {
    && w.textLen == TextLength(w.out)
    && 0 <= w.textLen
    && (budget <= 0 ==> w.textLen == 0)
    && (budget > 0 ==> w.textLen <= budget)
    && (w.stopped <==> Ellipsis in w.out)
    && (w.stopped ==> budget > 0 && w.textLen == budget && w.out[|w.out| - 1] == Ellipsis)
  }

  lemma StepKeepsInv(w: WalkState, tok: string, budget: int, rule: NameRule)
    requires WalkInv(w, budget)
    ensures WalkInv(Step(w, tok, budget, rule), budget)
  {
    var w' := Step(w, tok, budget, rule);
    if w.stopped || w' == w {
    } else if |tok| > 0 && tok[0] == '<' {
      TextLengthAppend(w.out, [Markup(tok)]);
      assert TextLength([Markup(tok)]) == 0;
      assert Ellipsis !in [Markup(tok)];
    } else {
      var remaining := budget - w.textLen;
      var chunk := if remaining < |tok| then tok[..remaining] else tok;
      TextLengthAppend(w.out, [Chunk(chunk)]);
      assert TextLength([Chunk(chunk)]) == |chunk| by {
        assert [Chunk(chunk)][1..] == [];
      }
      if w.textLen + |chunk| >= budget {
        assert w'.out == (w.out + [Chunk(chunk)]) + [Ellipsis];
        TextLengthAppend(w.out + [Chunk(chunk)], [Ellipsis]);
        assert TextLength([Ellipsis]) == 0;
        assert w'.out[|w'.out| - 1] == Ellipsis;
      } else {
        assert Ellipsis !in [Chunk(chunk)];
      }
    }
  }

  lemma {:induction false} WalkKeepsInv(tokens: seq<string>, budget: int, rule: NameRule)
    ensures WalkInv(Walk(tokens, budget, rule), budget)
    decreases |tokens|
  {
    if tokens != [] {
      WalkKeepsInv(tokens[..|tokens| - 1], budget, rule);
      StepKeepsInv(Walk(tokens[..|tokens| - 1], budget, rule), tokens[|tokens| - 1], budget, rule);
    }
  }

  /**
   * The visible text of the result never exceeds the budget (and is empty
   * when the budget is not positive); "..." is present exactly when the
   * walk stopped, which happens only with the text at the full budget.
   */
  lemma TruncateHtmlWithinBudget(html: string, limit: int, rule: NameRule)
    ensures var budget := Budget(html, limit);
            var w := Walk(Tokenize(html), budget, rule);
            && TextLength(w.out + Closes(w.stack)) <= (if budget > 0 then budget else 0)
            && (Ellipsis in w.out <==> w.stopped)
            && (w.stopped ==> TextLength(w.out) == budget)
  {
    var budget := Budget(html, limit);
    var w := Walk(Tokenize(html), budget, rule);
    WalkKeepsInv(Tokenize(html), budget, rule);
    TextLengthAppend(w.out, Closes(w.stack));
    ClosesHaveNoText(w.stack);
  }

  /** The tags among `tokens`, in order. */
  function MarkupOf(tokens: seq<string>): seq<Piece>
  {
    if tokens == [] then []
    else
      var t := tokens[|tokens| - 1];
      MarkupOf(tokens[..|tokens| - 1]) + (if |t| > 0 && t[0] == '<' then [Markup(t)] else [])
  }

  /** With a budget of zero or less all text is skipped, no "..." appears and every tag is kept. */
  lemma {:induction false} ZeroBudgetKeepsOnlyTags(tokens: seq<string>, budget: int, rule: NameRule)
    requires budget <= 0
    ensures Walk(tokens, budget, rule).out == MarkupOf(tokens)
    ensures !Walk(tokens, budget, rule).stopped && Walk(tokens, budget, rule).textLen == 0
    decreases |tokens|
  {
    if tokens != [] {
      ZeroBudgetKeepsOnlyTags(tokens[..|tokens| - 1], budget, rule);
    }
  }

  /** Every token as it would be emitted untouched. */
  function PiecesOf(tokens: seq<string>): seq<Piece>
  {
    if tokens == [] then []
    else
      var t := tokens[|tokens| - 1];
      PiecesOf(tokens[..|tokens| - 1]) + [if |t| > 0 && t[0] == '<' then Markup(t) else Chunk(t)]
  }

  /** Total length of the text tokens. */
  function TextOf(tokens: seq<string>): nat
  {
    if tokens == [] then 0
    else
      var t := tokens[|tokens| - 1];
      TextOf(tokens[..|tokens| - 1]) + (if |t| > 0 && t[0] == '<' then 0 else |t|)
  }

  /** Text shorter than the budget passes through whole, with no "...". */
  lemma {:induction false} ShortTextPassesThrough(tokens: seq<string>, budget: int, rule: NameRule)
    requires TextOf(tokens) < budget
    ensures Walk(tokens, budget, rule).out == PiecesOf(tokens)
    ensures !Walk(tokens, budget, rule).stopped && Walk(tokens, budget, rule).textLen == TextOf(tokens)
    decreases |tokens|
  {
    if tokens != [] {
      ShortTextPassesThrough(tokens[..|tokens| - 1], budget, rule);
    }
  }

  /** Every name on the stack is lower-case (opening names are lower-cased when pushed). */
  lemma {:induction false} StackNamesLowerCase(tokens: seq<string>, budget: int, rule: NameRule)
    ensures forall j :: 0 <= j < |Walk(tokens, budget, rule).stack| ==>
              Lower(Walk(tokens, budget, rule).stack[j]) == Walk(tokens, budget, rule).stack[j]
    decreases |tokens|
  {
    if tokens != [] {
      StackNamesLowerCase(tokens[..|tokens| - 1], budget, rule);
    }
  }

  /** The most recently opened tag is closed first (LIFO). */
  lemma {:induction false} ClosesLastFirst(stack: seq<string>, name: string)
    ensures Closes(stack + [name]) == (if name != "" then [CloseTag(name)] else []) + Closes(stack)
    decreases |stack|
  {
    if stack == [] {
      assert ([] + [name])[1..] == [];
    } else {
      assert (stack + [name])[1..] == stack[1..] + [name];
      ClosesLastFirst(stack[1..], name);
    }
  }

  /** Exactly the non-empty names left on the stack are closed. */
  lemma {:induction false} ClosesExactlyNonEmpty(stack: seq<string>, name: string)
    ensures CloseTag(name) in Closes(stack) <==> name != "" && name in stack
    decreases |stack|
  {
    if stack != [] {
      ClosesExactlyNonEmpty(stack[1..], name);
      assert stack == [stack[0]] + stack[1..];
    }
  }

  /** IndexFrom finds the first occurrence. */
  lemma {:induction false} IndexFromIs(s: string, c: char, from: nat, k: nat)
    requires from <= k < |s| && s[k] == c && forall j :: from <= j < k ==> s[j] != c
    ensures IndexFrom(s, c, from) == k
    decreases k - from
  {
    if from < k {
      IndexFromIs(s, c, from + 1, k);
    }
  }

  /** The tokens of the example "<span>a</span>". */
  lemma TokenizeSpanExample()
    ensures Tokenize("<span>a</span>") == ["<span>", "a", "</span>"]
  {
    var s := "<span>a</span>";
    IndexFromIs(s, '>', 1, 5);
    assert s[..6] == "<span>" && s[6..] == "a</span>";
    var s1 := "a</span>";
    IndexFromIs(s1, '<', 0, 1);
    assert s1[..1] == "a" && s1[1..] == "</span>";
    var s2 := "</span>";
    IndexFromIs(s2, '>', 1, 6);
    assert s2[..7] == s2 && s2[7..] == [];
    assert Tokenize(s2) == [s2];
    assert Tokenize(s1) == ["a", s2];
  }

  /** The example holds no style element. */
  lemma SpanExampleBudget(limit: int)
    ensures Budget("<span>a</span>", limit) == limit
  {
    var s := "<span>a</span>";
    forall i | 0 <= i <= |s|
      ensures StyleOpenEnd(s, i) == None
    {
      if i == 0 {
        assert SpacesEnd(s, 1) == 1;
        assert Lower(s[1..6])[0] == 's' && Lower(s[1..6])[1] == 'p';
      } else if i == 7 {
        assert SpacesEnd(s, 8) == 8;
        assert Lower(s[8..13])[0] == '/';
      }
    }
    NoStyleFound(s, 0);
  }

  lemma {:induction false} NoStyleFound(s: string, i: nat)
    requires i <= |s| && forall j :: i <= j <= |s| ==> StyleOpenEnd(s, j) == None
    ensures StyleBodiesFrom(s, i) == []
    decreases |s| - i
  {
    if i < |s| {
      NoStyleFound(s, i + 1);
    }
  }

  lemma OpenNameSpan()
    ensures OpenName("<span>") == "span"
  {
    var t := "<span>";
    assert SpacesEnd(t, 1) == 1;
    assert t[1..] == "span>";
    assert NamePrefix("span>") == 4 by {
      assert "span>"[1..] == "pan>" && "pan>"[1..] == "an>" && "an>"[1..] == "n>" && "n>"[1..] == ">";
      assert NamePrefix(">") == 0;
    }
    assert t[1..5] == "span";
  }

  lemma RenderCons(p: Piece, ps: seq<Piece>)
    ensures Render([p] + ps) == PieceText(p) + Render(ps)
  {
    assert ([p] + ps)[1..] == ps;
  }

  /** The walk over the example's first two tokens. */
  lemma WalkSpanPrefix(rule: NameRule)
    ensures Walk(["<span>", "a"], 10, rule) == WalkState([Markup("<span>"), Chunk("a")], ["span"], 1, false)
  {
    var toks := ["<span>", "a"];
    var w0 := WalkState([], [], 0, false);
    var w1 := WalkState([Markup("<span>")], ["span"], 0, false);
    assert Walk(["<span>"], 10, rule) == w1 by {
      assert ["<span>"][..0] == [];
      StepOpenTag(w0, "<span>", 10, rule);
      OpenNameSpan();
      assert [] + [Markup("<span>")] == [Markup("<span>")];
    }
    assert toks[..1] == ["<span>"];
    StepTextKept(w1, "a", 10, rule);
  }

  /** The walk over the example's three tokens, for either rule. */
  lemma WalkSpanExample(rule: NameRule)
    ensures var w := Walk(["<span>", "a", "</span>"], 10, rule);
            && w.out == [Markup("<span>"), Chunk("a"), Markup("</span>")]
            && w.stack == (if CloseName("span>", rule) == "span" then [] else ["span"])
  {
    var w2 := WalkState([Markup("<span>"), Chunk("a")], ["span"], 1, false);
    WalkSpanLast(rule);
    StepCloseSpan(w2, rule);
  }

  /** The walk over the three tokens is the walk over the first two and one more Step. */
  lemma WalkSpanLast(rule: NameRule)
    ensures Walk(["<span>", "a", "</span>"], 10, rule)
         == Step(WalkState([Markup("<span>"), Chunk("a")], ["span"], 1, false), "</span>", 10, rule)
  {
    var toks := ["<span>", "a", "</span>"];
    assert toks[..2] == ["<span>", "a"];
    WalkSpanPrefix(rule);
  }

  /** Closing the span after the text: popped exactly when the rule keeps the name "span". */
  lemma StepCloseSpan(w2: WalkState, rule: NameRule)
    requires w2 == WalkState([Markup("<span>"), Chunk("a")], ["span"], 1, false)
    ensures var w3 := Step(w2, "</span>", 10, rule);
            && w3.out == [Markup("<span>"), Chunk("a"), Markup("</span>")]
            && w3.stack == (if CloseName("span>", rule) == "span" then [] else ["span"])
  {
    StepCloseTag(w2, "</span>", 10, rule);
    assert "</span>"[2..] == "span>";
    assert ["span"][..0] == [];
    assert [Markup("<span>"), Chunk("a")] + [Markup("</span>")] == [Markup("<span>"), Chunk("a"), Markup("</span>")];
  }

  lemma RenderThree(a: Piece, b: Piece, c: Piece)
    ensures Render([a, b, c]) == PieceText(a) + (PieceText(b) + (PieceText(c) + ""))
  {
    var ps := [a, b, c];
    assert ps[1..] == [b, c] && ps[1..][1..] == [c] && ps[1..][1..][1..] == [];
    assert Render([c]) == PieceText(c) + "";
    assert Render([b, c]) == PieceText(b) + Render([c]);
  }

  lemma RenderFour(a: Piece, b: Piece, c: Piece, d: Piece)
    ensures Render([a, b, c, d]) == PieceText(a) + (PieceText(b) + (PieceText(c) + (PieceText(d) + "")))
  {
    var ps := [a, b, c, d];
    assert ps[1..] == [b, c, d];
    RenderThree(b, c, d);
  }

  /** TruncateHtmlSpec from its tokens, budget and walk. */
  lemma SpecFromParts(html: string, limit: int, rule: NameRule, toks: seq<string>, budget: int, out: seq<Piece>, stack: seq<string>)
    requires Tokenize(html) == toks && Budget(html, limit) == budget
    requires Walk(toks, budget, rule).out == out && Walk(toks, budget, rule).stack == stack
    ensures TruncateHtmlSpec(html, limit, rule) == Render(out + Closes(stack))
  {
  }

  /** The example's pieces under the rule as written, rendered. */
  lemma SpanPiecesAsWritten()
    ensures Render([Markup("<span>"), Chunk("a"), Markup("</span>")] + Closes(["span"])) == "<span>a</span></span>"
  {
    assert ["span"][1..] == [];
    assert Closes(["span"]) == [CloseTag("span")];
    assert [Markup("<span>"), Chunk("a"), Markup("</span>")] + [CloseTag("span")]
        == [Markup("<span>"), Chunk("a"), Markup("</span>"), CloseTag("span")];
    RenderFour(Markup("<span>"), Chunk("a"), Markup("</span>"), CloseTag("span"));
    SpanLiteralWithExtraClose();
  }

  /** The example's pieces under the intended rule, rendered. */
  lemma SpanPiecesIntended()
    ensures Render([Markup("<span>"), Chunk("a"), Markup("</span>")] + Closes([])) == "<span>a</span>"
  {
    assert [Markup("<span>"), Chunk("a"), Markup("</span>")] + [] == [Markup("<span>"), Chunk("a"), Markup("</span>")];
    RenderThree(Markup("<span>"), Chunk("a"), Markup("</span>"));
    SpanLiteral();
  }

  /**
   * As written, the closing "</span>" is read as the name "" and never pops
   * "span", so "<span>a</span>" comes back with an extra "</span>".
   */
  lemma SpanExampleAsWritten()
    ensures TruncateHtmlSpec("<span>a</span>", 10, AsWritten) == "<span>a</span></span>"
  {
    TokenizeSpanExample();
    SpanExampleBudget(10);
    CloseNameAsWrittenCutsAtS();
    WalkSpanExample(AsWritten);
    SpanPiecesAsWritten();
    SpecFromParts("<span>a</span>", 10, AsWritten, ["<span>", "a", "</span>"], 10,
      [Markup("<span>"), Chunk("a"), Markup("</span>")], ["span"]);
  }

  /** With the intended name rule the same input comes back unchanged. */
  lemma SpanExampleIntended()
    ensures TruncateHtmlSpec("<span>a</span>", 10, Intended) == "<span>a</span>"
  {
    TokenizeSpanExample();
    SpanExampleBudget(10);
    CloseNameSpanIntended();
    WalkSpanExample(Intended);
    SpanPiecesIntended();
    SpecFromParts("<span>a</span>", 10, Intended, ["<span>", "a", "</span>"], 10,
      [Markup("<span>"), Chunk("a"), Markup("</span>")], []);
  }

  lemma SpanLiteralWithExtraClose()
    ensures "<span>" + ("a" + ("</span>" + ("</" + "span" + ">" + ""))) == "<span>a</span></span>"
  {
  }

  lemma CloseNameSpanIntended()
    ensures CloseName("span>", Intended) == "span"
  {
    CloseNameIntended("span");
    assert "span" + ">" == "span>";
  }

  lemma SpanLiteral()
    ensures "<span>" + ("a" + ("</span>" + "")) == "<span>a</span>"
  {
  }

}
