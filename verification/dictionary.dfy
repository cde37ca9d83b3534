/**
 * The dictionary plugin: the words it looks up for a clipboard text, the
 * keys it tries for a word, and the FIFO queue of lookups with its cache.
 * The lookups themselves run on a worker thread; here a finished or failed
 * lookup is an event with its result as a parameter.
 */
module Dictionary {
  import opened Wrappers
  import opened Strings

  const MaxLookupWords := 5
  const EmptyClipboardNote := "Copy a word or phrase to the clipboard to see dictionary results."

  // Extracting the words to look up.

  predicate IsSeparator(c: char)
  {
    c == ',' || c == '\n'
  }

  /** Index of the first comma or line feed at or after `i`, or |s|. */
  function NextSeparator(s: string, i: nat): (k: nat)
    requires i <= |s|
    ensures i <= k <= |s|
    ensures k < |s| ==> IsSeparator(s[k])
    ensures forall j :: i <= j < k ==> !IsSeparator(s[j])
    decreases |s| - i
  {
    if i == |s| || IsSeparator(s[i]) then i else NextSeparator(s, i + 1)
  }

  /**
   * The pieces of `s` between commas and line feeds. Splitting on runs of
   * separators, as the source does, only drops the empty pieces this keeps,
   * and empty pieces are skipped by every caller.
   */
  function Segments(s: string): (segs: seq<string>)
    ensures |segs| > 0
    ensures forall seg, j :: seg in segs && 0 <= j < |seg| ==> !IsSeparator(seg[j])
    ensures (forall j :: 0 <= j < |s| ==> !IsSeparator(s[j])) ==> segs == [s]
    decreases |s|
  {
    var k := NextSeparator(s, 0);
    if k == |s| then [s] else [s[..k]] + Segments(s[k + 1..])
  }

  predicate IsAsciiLetter(c: char)
  {
    'A' <= c <= 'Z' || 'a' <= c <= 'z'
  }

  /** The first separator of a text is also the first of any longer text it begins. */
  lemma NextSeparatorOfPrefix(a: string, x: string, i: nat)
    requires i <= |a| && NextSeparator(a, i) < |a|
    ensures NextSeparator(a + x, i) == NextSeparator(a, i)
  {
    var k := NextSeparator(a, i);
    var k' := NextSeparator(a + x, i);
    assert forall j :: i <= j < |a| ==> (a + x)[j] == a[j];
  }

  /**
   * Cutting a text at one separator splits its segments there: the pieces
   * of `s` are exactly its runs between separators, in order.
   */
  lemma {:induction false} SegmentsSplitAt(a: string, c: char, b: string)
    requires IsSeparator(c)
    ensures Segments(a + [c] + b) == Segments(a) + Segments(b)
    decreases |a|
  {
    var s := a + [c] + b;
    var k0 := NextSeparator(a, 0);
    var k := NextSeparator(s, 0);
    if k0 == |a| {
      assert s[|a|] == c;
      assert forall j :: 0 <= j < |a| ==> s[j] == a[j];
      assert k == |a|;
      assert s[..k] == a && s[k + 1..] == b;
    } else {
      NextSeparatorOfPrefix(a, [c] + b, 0);
      assert a + ([c] + b) == s;
      assert k == k0;
      assert s[..k] == a[..k0];
      assert s[k + 1..] == a[k0 + 1..] + [c] + b;
      SegmentsSplitAt(a[k0 + 1..], c, b);
    }
  }

  /**
   * A character that may continue a word: the class `[A-Za-z'\\-]`, which as
   * a raw string admits letters, the apostrophe, the backslash and the hyphen.
   */
  predicate IsWordTail(c: char)
  {
    IsAsciiLetter(c) || c == '\'' || c == '\\' || c == '-'
  }

  function FirstLetter(s: string, i: nat): (k: nat)
    requires i <= |s|
    ensures i <= k <= |s|
    ensures k < |s| ==> IsAsciiLetter(s[k])
    ensures forall j :: i <= j < k ==> !IsAsciiLetter(s[j])
    decreases |s| - i
  {
    if i == |s| || IsAsciiLetter(s[i]) then i else FirstLetter(s, i + 1)
  }

  function WordEnd(s: string, i: nat): (k: nat)
    requires i <= |s|
    ensures i <= k <= |s|
    ensures forall j :: i <= j < k ==> IsWordTail(s[j])
    ensures k == |s| || !IsWordTail(s[k])
    decreases |s| - i
  {
    if i < |s| && IsWordTail(s[i]) then WordEnd(s, i + 1) else i
  }

  function FirstSpace(s: string, i: nat): (k: nat)
    requires i <= |s|
    ensures i <= k <= |s|
    ensures k < |s| ==> IsSpace(s[k])
    ensures forall j :: i <= j < k ==> !IsSpace(s[j])
    decreases |s| - i
  {
    if i == |s| || IsSpace(s[i]) then i else FirstSpace(s, i + 1)
  }

  /**
   * The first regex word of a stripped segment, or, when it has no ASCII
   * letter, its first whitespace-separated token. The word starts at the
   * first ASCII letter (`FirstLetter`) and runs as far as the word
   * characters go; the token runs from the start to the first whitespace.
   */
  function FirstToken(seg: string): (t: string)
    requires seg != [] && !IsSpace(seg[0])
    ensures t != []
    ensures var i := FirstLetter(seg, 0);
      i < |seg| ==>
        i + |t| <= |seg| && t == seg[i..i + |t|] && IsAsciiLetter(t[0])
        && (forall j :: 0 <= j < |t| ==> IsWordTail(t[j]))
        && (i + |t| == |seg| || !IsWordTail(seg[i + |t|]))
    ensures FirstLetter(seg, 0) == |seg| ==>
      |t| <= |seg| && t == seg[..|t|]
      && (forall j :: 0 <= j < |t| ==> !IsSpace(t[j]))
      && (|t| == |seg| || IsSpace(seg[|t|]))
  {
    var i := FirstLetter(seg, 0);
    if i < |seg| then seg[i..WordEnd(seg, i + 1)] else seg[..FirstSpace(seg, 0)]
  }

  /** The first token of every segment that is not blank, in order. */
  function CandidateWords(segs: seq<string>): (words: seq<string>)
    ensures |words| <= |segs|
    decreases |segs|
  {
    if |segs| == 0 then []
    else
      var t := Strip(segs[|segs| - 1]);
      CandidateWords(segs[..|segs| - 1]) + (if t == [] then [] else [FirstToken(t)])
  }

  /**
   * Candidates of consecutive runs of segments concatenate: every segment
   * that is not blank contributes its first token, in segment order.
   */
  lemma {:induction false} CandidateWordsAppend(a: seq<string>, b: seq<string>)
    ensures CandidateWords(a + b) == CandidateWords(a) + CandidateWords(b)
    ensures |b| == 1 ==> CandidateWords(b) == if Strip(b[0]) == [] then [] else [FirstToken(Strip(b[0]))]
    decreases |b|
  {
    if |b| == 0 {
      assert a + b == a;
    } else {
      var init := b[..|b| - 1];
      var t := Strip(b[|b| - 1]);
      var x := if t == [] then [] else [FirstToken(t)];
      AppendLast(a, b);
      CandidateWordsAppend(a, init);
      assert CandidateWords(a + b) == CandidateWords(a + init) + x;
      assert CandidateWords(b) == CandidateWords(init) + x;
      Assoc3(CandidateWords(a), CandidateWords(init), x);
      if |b| == 1 {
        assert init == [];
      }
    }
  }

  lemma AppendLast<T>(a: seq<T>, b: seq<T>)
    requires |b| > 0
    ensures (a + b)[..|a + b| - 1] == a + b[..|b| - 1]
    ensures (a + b)[|a + b| - 1] == b[|b| - 1]
  {
  }

  lemma Assoc3<T>(a: seq<T>, b: seq<T>, c: seq<T>)
    ensures a + b + c == a + (b + c)
  {
  }

  /** Every segment that is not blank gives a candidate. */
  lemma CandidatesCover(segs: seq<string>, k: int)
    requires 0 <= k < |segs| && Strip(segs[k]) != []
    ensures FirstToken(Strip(segs[k])) in CandidateWords(segs)
  {
    var pre, x, post := segs[..k], segs[k], segs[k + 1..];
    SplitAround(segs, k);
    var w := FirstToken(Strip(x));
    CandidatesAround(pre, x, post);
    assert CandidateWords(segs) == CandidateWords(pre) + [w] + CandidateWords(post);
    assert CandidateWords(segs)[|CandidateWords(pre)|] == w;
  }

  /** The candidates around one segment that is not blank. */
  lemma CandidatesAround(pre: seq<string>, x: string, post: seq<string>)
    requires Strip(x) != []
    ensures CandidateWords(pre + [x] + post) == CandidateWords(pre) + [FirstToken(Strip(x))] + CandidateWords(post)
  {
    CandidateWordsAppend(pre, [x]);
    CandidateWordsAppend(pre + [x], post);
  }

  /** A sequence is what comes before position `k`, the element there, and what follows. */
  lemma SplitAround<T>(s: seq<T>, k: int)
    requires 0 <= k < |s|
    ensures s == s[..k] + [s[k]] + s[k + 1..]
  {
  }

  /** Blank segments give no candidate. */
  lemma {:induction false} CandidateWordsOfBlanks(segs: seq<string>)
    requires forall k :: 0 <= k < |segs| ==> Strip(segs[k]) == []
    ensures CandidateWords(segs) == []
    decreases |segs|
  {
    if |segs| > 0 {
      CandidateWordsOfBlanks(segs[..|segs| - 1]);
    }
  }

  /** The first candidate is the first token of the first segment that is not blank. */
  lemma FirstCandidate(segs: seq<string>, k: int)
    requires 0 <= k < |segs| && Strip(segs[k]) != []
    requires forall j :: 0 <= j < k ==> Strip(segs[j]) == []
    ensures CandidateWords(segs) != [] && CandidateWords(segs)[0] == FirstToken(Strip(segs[k]))
  {
    var pre, x, post := segs[..k], segs[k], segs[k + 1..];
    assert forall j :: 0 <= j < |pre| ==> pre[j] == segs[j];
    CandidateWordsOfBlanks(pre);
    SplitAround(segs, k);
    CandidatesAround(pre, x, post);
  }

  /** The lower-cased forms of some words. */
  function LowerForms(ws: seq<string>): set<string>
  {
    set w | w in ws :: Lower(w)
  }

  /** The words in order, keeping only the first of those equal ignoring case. */
  function DedupIgnoringCase(ws: seq<string>): (r: seq<string>)
    ensures |r| <= |ws|
    decreases |ws|
  {
    if |ws| == 0 then []
    else
      var before := DedupIgnoringCase(ws[..|ws| - 1]);
      var w := ws[|ws| - 1];
      if Lower(w) in LowerForms(before) then before else before + [w]
  }

  /** `_extract_lookup_words`: at most five words, first occurrences only. */
  function LookupWords(raw: string): (r: seq<string>)
  {
    var unique := DedupIgnoringCase(CandidateWords(Segments(raw)));
    if |unique| <= MaxLookupWords then unique else unique[..MaxLookupWords]
  }

  /** The loops of `_extract_lookup_words`: first tokens of the segments, then de-duplication, then the cap. */
  method ExtractLookupWords(raw: string) returns (r: seq<string>)
    ensures r == LookupWords(raw)
    ensures |r| <= MaxLookupWords
  {
    var words := FirstTokens(Segments(raw));
    var unique := KeepFirstIgnoringCase(words);
    r := if |unique| <= MaxLookupWords then unique else unique[..MaxLookupWords];
  }

  /** The segment loop: the first token of each segment that is not blank once stripped. */
  method FirstTokens(segs: seq<string>) returns (words: seq<string>)
    ensures words == CandidateWords(segs)
  {
    words := [];
    var i := 0;
    while i < |segs|
      invariant 0 <= i <= |segs|
      invariant words == CandidateWords(segs[..i])
    {
      CandidateWordsSnoc(segs, i);
      words := AddFirstToken(words, Strip(segs[i]));
      i := i + 1;
    }
    assert segs[..i] == segs;
  }

  /** One pass of the segment loop, on the stripped segment: a blank one is skipped, otherwise its first token is kept. */
  method AddFirstToken(words: seq<string>, seg: string) returns (words': seq<string>)
    requires seg != [] ==> !IsSpace(seg[0])
    ensures words' == words + (if seg == [] then [] else [FirstToken(seg)])
  {
    if seg == [] {
      return words;
    }
    words' := words + [FirstToken(seg)];
  }

  /** One more segment adds its first token, unless it is blank. */
  lemma CandidateWordsSnoc(segs: seq<string>, i: int)
    requires 0 <= i < |segs|
    ensures var t := Strip(segs[i]);
      CandidateWords(segs[..i + 1]) == CandidateWords(segs[..i]) + (if t == [] then [] else [FirstToken(t)])
  {
    assert segs[..i + 1][..i] == segs[..i];
  }

  /** The de-duplication loop, with its set of lower-cased words seen so far. */
  method KeepFirstIgnoringCase(words: seq<string>) returns (unique: seq<string>)
    ensures unique == DedupIgnoringCase(words)
  {
    var seen: set<string> := {};
    unique := [];
    var j := 0;
    ghost var done: seq<string> := [];
    while j < |words|
      invariant 0 <= j <= |words|
      invariant done == words[..j]
      invariant unique == DedupIgnoringCase(done)
      invariant seen == LowerForms(unique)
    {
      var w := words[j];
      DedupSnoc(done, w);
      if Lower(w) !in seen {
        LowerFormsSnoc(unique, w);
        seen := seen + {Lower(w)};
        unique := unique + [w];
      }
      done := done + [w];
      j := j + 1;
      assert done == words[..j];
    }
    assert words[..j] == words;
  }

  lemma DedupSnoc(ws: seq<string>, w: string)
    ensures var d := DedupIgnoringCase(ws);
      DedupIgnoringCase(ws + [w]) == if Lower(w) in LowerForms(d) then d else d + [w]
  {
    assert (ws + [w])[..|ws|] == ws;
  }

  lemma LowerFormsSnoc(ws: seq<string>, w: string)
    ensures LowerForms(ws + [w]) == LowerForms(ws) + {Lower(w)}
  {
    assert forall x :: x in ws + [w] <==> x in ws || x == w;
  }

  // Properties of the word extraction.

  /** No two of the words are equal ignoring case. */
  predicate DistinctIgnoringCase(ws: seq<string>)
  {
    forall i, j :: 0 <= i < j < |ws| ==> Lower(ws[i]) != Lower(ws[j])
  }

  /** No two kept words are equal ignoring case. */
  lemma {:induction false} DedupDistinct(ws: seq<string>)
    ensures DistinctIgnoringCase(DedupIgnoringCase(ws))
    decreases |ws|
  {
    if |ws| > 0 {
      DedupDistinct(ws[..|ws| - 1]);
      var before := DedupIgnoringCase(ws[..|ws| - 1]);
      var w := ws[|ws| - 1];
      if Lower(w) !in LowerForms(before) {
        var r := before + [w];
        forall i, j | 0 <= i < j < |r|
          ensures Lower(r[i]) != Lower(r[j])
        {
          assert r[i] == before[i] && before[i] in before;
          if j == |before| {
            assert Lower(before[i]) in LowerForms(before);
            assert r[j] == w;
          } else {
            assert r[j] == before[j];
          }
        }
        assert DistinctIgnoringCase(r);
      }
    }
  }

  /** Every word is represented, ignoring case, and only given words are kept. */
  lemma {:induction false} DedupCovers(ws: seq<string>)
    ensures LowerForms(DedupIgnoringCase(ws)) == LowerForms(ws)
    ensures forall w :: w in DedupIgnoringCase(ws) ==> w in ws
    decreases |ws|
  {
    if |ws| > 0 {
      var init := ws[..|ws| - 1];
      DedupCovers(init);
      assert ws == init + [ws[|ws| - 1]];
      assert LowerForms(ws) == LowerForms(init) + {Lower(ws[|ws| - 1])};
    }
  }

  /** Later words never reorder or remove earlier ones: the kept words stay in first-occurrence order. */
  lemma {:induction false} DedupExtends(ws: seq<string>, more: seq<string>)
    ensures var a := DedupIgnoringCase(ws);
      |a| <= |DedupIgnoringCase(ws + more)| && DedupIgnoringCase(ws + more)[..|a|] == a
    decreases |more|
  {
    if |more| > 0 {
      var init := more[..|more| - 1];
      DedupExtends(ws, init);
      assert (ws + more)[..|ws + more| - 1] == ws + init;
    } else {
      assert ws + more == ws;
    }
  }

  /** `w` is the first token of one of the segments that is not blank. */
  ghost predicate FirstTokenOfSegment(segs: seq<string>, w: string)
  {
    exists k :: 0 <= k < |segs| && Strip(segs[k]) != [] && w == FirstToken(Strip(segs[k]))
  }

  /** Each candidate word is the first token of a segment that is not blank. */
  lemma {:induction false} CandidatesAreFirstTokens(segs: seq<string>)
    ensures forall w :: w in CandidateWords(segs) ==> FirstTokenOfSegment(segs, w)
    decreases |segs|
  {
    if |segs| > 0 {
      var n := |segs| - 1;
      var t := Strip(segs[n]);
      CandidatesAreFirstTokens(segs[..n]);
      forall w | w in CandidateWords(segs)
        ensures FirstTokenOfSegment(segs, w)
      {
        if w in CandidateWords(segs[..n]) {
          FirstTokenOfLongerSegments(segs, n, w);
        } else {
          assert t != [] && w == FirstToken(t);
          FirstTokenOfSegmentAt(segs, n);
        }
      }
    }
  }

  lemma FirstTokenOfSegmentAt(segs: seq<string>, k: int)
    requires 0 <= k < |segs| && Strip(segs[k]) != []
    ensures FirstTokenOfSegment(segs, FirstToken(Strip(segs[k])))
  {
  }

  lemma FirstTokenOfLongerSegments(segs: seq<string>, n: int, w: string)
    requires 0 <= n <= |segs| && FirstTokenOfSegment(segs[..n], w)
    ensures FirstTokenOfSegment(segs, w)
  {
    var k :| 0 <= k < n && Strip(segs[..n][k]) != [] && w == FirstToken(Strip(segs[..n][k]));
    assert segs[..n][k] == segs[k];
  }

  /**
   * The extracted words: at most five, pairwise different ignoring case, each
   * the first token of a segment of the clipboard text.
   */
  lemma LookupWordsShape(raw: string)
    ensures var r := LookupWords(raw);
      |r| <= MaxLookupWords
      && DistinctIgnoringCase(r)
      && (forall w :: w in r ==> w in CandidateWords(Segments(raw)))
      && (|DedupIgnoringCase(CandidateWords(Segments(raw)))| <= MaxLookupWords ==>
            LowerForms(r) == LowerForms(CandidateWords(Segments(raw))))
  {
    var cands := CandidateWords(Segments(raw));
    DedupDistinct(cands);
    DedupCovers(cands);
    var unique := DedupIgnoringCase(cands);
    var r := LookupWords(raw);
    assert forall w :: w in r ==> w in unique;
  }

  /** The first word looked up is the first candidate, and there is one whenever there is a candidate. */
  lemma LookupWordsFirst(raw: string)
    ensures LookupWords(raw) == [] <==> CandidateWords(Segments(raw)) == []
    ensures CandidateWords(Segments(raw)) != [] ==> LookupWords(raw)[0] == CandidateWords(Segments(raw))[0]
  {
    var cands := CandidateWords(Segments(raw));
    DedupFirst(cands);
    CappedFirst(DedupIgnoringCase(cands), LookupWords(raw));
  }

  /** Capping at five keeps the first word and keeps a word whenever there is one. */
  lemma CappedFirst(unique: seq<string>, r: seq<string>)
    requires r == if |unique| <= MaxLookupWords then unique else unique[..MaxLookupWords]
    ensures r == [] <==> unique == []
    ensures unique != [] ==> r[0] == unique[0]
  {
  }

  /** De-duplication keeps the first word, and keeps a word whenever there is one. */
  lemma DedupFirst(ws: seq<string>)
    ensures DedupIgnoringCase(ws) == [] <==> ws == []
    ensures ws != [] ==> DedupIgnoringCase(ws)[0] == ws[0]
  {
    if ws != [] {
      assert [ws[0]] + ws[1..] == ws;
      DedupExtends([ws[0]], ws[1..]);
      assert DedupIgnoringCase([ws[0]]) == [ws[0]];
    }
  }

  // Keys tried for a word.

  /**
   * `lookup_keys`. `lemma_` is what the lemmatizer returns for the word. The
   * loop keeps the non-empty keys that were not seen before.
   */
  method LookupKeys(word: string, lemma_: string) returns (out: seq<string>)
    ensures word == [] ==> out == []
    ensures word != [] ==> |out| >= 1 && out[0] == word
    ensures word != [] ==> (out == [word, lemma_] <==> lemma_ != [] && lemma_ != word)
    ensures word != [] ==> (out == [word] <==> lemma_ == [] || lemma_ == word)
  {
    if word == [] {
      return [];
    }
    var keys := [word];
    if lemma_ != [] && lemma_ != word {
      keys := keys + [lemma_];
    }
    var seen: set<string> := {};
    out := [];
    var i := 0;
    while i < |keys|
      invariant 0 <= i <= |keys|
      invariant seen == set k | k in out
      invariant out == keys[..i]
    {
      var k := keys[i];
      if k != [] && k !in seen {
        out := out + [k];
        seen := seen + {k};
      }
      i := i + 1;
    }
  }

  // The lookup queue.

  /** The entry shown for the clipboard: `_clip_from_html`'s arguments. */
  datatype Entry = Entry(title: string, html: string, source: string, error: Option<string>)

  /** A word no two of whose positions hold the same entry. */
  predicate Distinct(q: seq<string>)
  {
    forall i, j :: 0 <= i < j < |q| ==> q[i] != q[j]
  }

  /** The rest of a queue of distinct words is distinct and does not hold its head. */
  lemma DistinctTail(q: seq<string>)
    requires q != [] && Distinct(q)
    ensures Distinct(q[1..]) && q[0] !in q[1..]
    ensures forall w :: w in q[1..] ==> w in q
  {
    forall k | 0 <= k < |q[1..]|
      ensures q[1..][k] != q[0]
    {
      assert q[1..][k] == q[k + 1];
    }
  }

  /** `_enqueue_missing` over the first words: the queue after them. */
  function Enqueued(queue: seq<string>, words: seq<string>, cache: set<string>, loading: Option<string>): seq<string>
    decreases |words|
  {
    if |words| == 0 then queue
    else
      var q := Enqueued(queue, words[..|words| - 1], cache, loading);
      var w := words[|words| - 1];
      if w == [] || w in cache || loading == Some(w) || w in q then q else q + [w]
  }

  class Lookups {
    const fontFamily: string
    var cache: map<string, (string, Option<string>)>
    var loadingWord: Option<string>
    var pendingQueue: seq<string>
    var workerRunning: bool

    /**
     * The queue holds distinct, non-empty words that are neither cached nor
     * being looked up; the word being looked up is not cached yet.
     */
    ghost predicate Valid()
      reads this
    {
      Distinct(pendingQueue)
      && (forall w :: w in pendingQueue ==> w != [] && w !in cache && loadingWord != Some(w))
      && (loadingWord.Some? ==> loadingWord.value !in cache)
    }

    constructor(fontFamily: string)
      ensures Valid() && this.fontFamily == fontFamily
      ensures cache == map[] && loadingWord.None? && pendingQueue == [] && !workerRunning
    {
      this.fontFamily := fontFamily;
      cache := map[];
      loadingWord := None;
      pendingQueue := [];
      workerRunning := false;
    }

    /** `_style_message`: the html wrapped in a div in the configured font. */
    function StyleMessage(html: string): string
      reads this
    {
      "<div style='font-family:" + ReplaceEach(fontFamily, '"', '\'') + "; font-size:14pt'>" + html + "</div>"
    }

    function NotFound(word: string): string
      reads this
    {
      StyleMessage("<p>No definition found for <b>" + word + "</b>.</p>")
    }

    /** `_enqueue_missing`: appends the words that are not cached, loading or queued. */
    method EnqueueMissing(words: seq<string>)
      requires Valid()
      modifies this
      ensures Valid()
      ensures pendingQueue == Enqueued(old(pendingQueue), words, cache.Keys, loadingWord)
      ensures cache == old(cache) && loadingWord == old(loadingWord) && workerRunning == old(workerRunning)
    {
      var i := 0;
      ghost var q0 := pendingQueue;
      while i < |words|
        invariant 0 <= i <= |words|
        invariant Valid()
        invariant pendingQueue == Enqueued(q0, words[..i], cache.Keys, loadingWord)
        invariant cache == old(cache) && loadingWord == old(loadingWord) && workerRunning == old(workerRunning)
      {
        assert words[..i + 1][..i] == words[..i];
        var w := words[i];
        if w != [] && w !in cache && loadingWord != Some(w) && w !in pendingQueue {
          pendingQueue := pendingQueue + [w];
        }
        i := i + 1;
      }
      assert words[..i] == words;
    }

    /** `_start_next_pending`: with no worker running, the head of the queue starts loading. */
    method StartNextPending()
      requires Valid()
      modifies this
      ensures Valid()
      ensures cache == old(cache)
      ensures old(workerRunning) ==> pendingQueue == old(pendingQueue) && loadingWord == old(loadingWord) && workerRunning
      ensures !old(workerRunning) && old(pendingQueue) == [] ==>
        pendingQueue == [] && loadingWord == old(loadingWord) && !workerRunning
      ensures !old(workerRunning) && old(pendingQueue) != [] ==>
        pendingQueue == old(pendingQueue)[1..] && loadingWord == Some(old(pendingQueue)[0]) && workerRunning
    {
      if workerRunning {
        return;
      }
      if pendingQueue == [] {
        return;
      }
      var word := pendingQueue[0];
      DistinctTail(pendingQueue);
      pendingQueue := pendingQueue[1..];
      loadingWord := Some(word);
      workerRunning := true;
    }

    /**
     * `_on_lookup_finished`. `cleanHtml` is what the HTML normaliser made of
     * `html`; `err` is the error text, `None` when it is not a string.
     */
    method OnLookupFinished(word: string, html: string, err: Option<string>, cleanHtml: string)
      requires Valid()
      modifies this
      ensures Valid()
      ensures pendingQueue == old(pendingQueue)
      ensures old(loadingWord) != Some(word) ==>
        cache == old(cache) && loadingWord == old(loadingWord) && workerRunning == old(workerRunning)
      ensures old(loadingWord) == Some(word) ==>
        loadingWord.None? && !workerRunning
        && cache == old(cache)[word := (if cleanHtml != [] then cleanHtml else if html != [] then html else NotFound(word),
                                        if err == Some([]) then None else err)]
    {
      if loadingWord != Some(word) {
        return;
      }
      var shown := if cleanHtml != [] then cleanHtml else html;
      var errValue := if err.Some? && err.value != [] then err else None;
      cache := cache[word := (if shown != [] then shown else NotFound(word), errValue)];
      loadingWord := None;
      workerRunning := false;
    }

    /** `_on_lookup_failed`: the word is cached as not found, with the error (or "Lookup failed"). */
    method OnLookupFailed(word: string, error: string)
      requires Valid()
      modifies this
      ensures Valid()
      ensures pendingQueue == old(pendingQueue)
      ensures old(loadingWord) != Some(word) ==>
        cache == old(cache) && loadingWord == old(loadingWord) && workerRunning == old(workerRunning)
      ensures old(loadingWord) == Some(word) ==>
        loadingWord.None? && !workerRunning
        && cache == old(cache)[word := (NotFound(word), Some(if error != [] then error else "Lookup failed"))]
    {
      if loadingWord != Some(word) {
        return;
      }
      cache := cache[word := (NotFound(word), Some(if error != [] then error else "Lookup failed"))];
      loadingWord := None;
      workerRunning := false;
    }

    /** The entry for one lookup word: its cached definition, or a loading or queued notice. */
    function EntryFor(w: string, raw: string): Entry
      reads this
    {
      if w in cache then Entry(w, cache[w].0, raw, cache[w].1)
      else if loadingWord == Some(w) then Entry(w, StyleMessage("<p>Loading dictionary...</p>"), w, None)
      else Entry(w, StyleMessage("<p>Queued for lookup...</p>"), w, None)
    }

    /**
     * `build_items`: one message for a blank clipboard or one without words;
     * otherwise the words are queued, a lookup is started if none runs, and
     * only the first word's entry is returned.
     */
    method BuildItems(clipboard: Option<string>) returns (items: seq<Entry>)
      requires Valid()
      modifies this
      ensures Valid()
      ensures |items| <= 1
      ensures cache == old(cache)
      ensures Strip(clipboard.GetOr("")) == [] ==>
        items == [Entry("Dictionary", StyleMessage("<p>Clipboard is empty.</p><p>" + EmptyClipboardNote + "</p>"),
                        "Plugins: Dictionary", None)]
        && pendingQueue == old(pendingQueue) && loadingWord == old(loadingWord) && workerRunning == old(workerRunning)
      ensures var raw := Strip(clipboard.GetOr(""));
        raw != [] && LookupWords(raw) == [] ==>
        items == [Entry("Dictionary", StyleMessage("<p>No valid words found in selection.</p>"), raw, None)]
        && pendingQueue == old(pendingQueue) && loadingWord == old(loadingWord) && workerRunning == old(workerRunning)
      ensures var raw := Strip(clipboard.GetOr(""));
        var words := LookupWords(raw);
        var q := Enqueued(old(pendingQueue), words, old(cache).Keys, old(loadingWord));
        raw != [] && words != [] ==>
        items == [old(EntryFor(words[0], raw))]
        && (old(workerRunning) ==> pendingQueue == q && loadingWord == old(loadingWord) && workerRunning)
        && (!old(workerRunning) && q == [] ==> pendingQueue == [] && loadingWord == old(loadingWord) && !workerRunning)
        && (!old(workerRunning) && q != [] ==> pendingQueue == q[1..] && loadingWord == Some(q[0]) && workerRunning)
    {
      var raw := Strip(clipboard.GetOr(""));
      if raw == [] {
        var note := EmptyClipboardNote;
        return [Entry("Dictionary", StyleMessage("<p>Clipboard is empty.</p><p>" + note + "</p>"),
                      "Plugins: Dictionary", None)];
      }
      var words := ExtractLookupWords(raw);
      if words == [] {
        return [Entry("Dictionary", StyleMessage("<p>No valid words found in selection.</p>"), raw, None)];
      }
      items := LookUp(words, raw);
    }

    /**
     * The part of `build_items` for a non-empty list of words: queue them, take
     * the first word's entry, then start a lookup if no worker is running.
     */
    method LookUp(words: seq<string>, raw: string) returns (items: seq<Entry>)
      requires Valid() && words != []
      modifies this
      ensures Valid()
      ensures items == [old(EntryFor(words[0], raw))] && items[0].title == words[0]
      ensures cache == old(cache)
      ensures var q := Enqueued(old(pendingQueue), words, old(cache).Keys, old(loadingWord));
        && (old(workerRunning) ==> pendingQueue == q && loadingWord == old(loadingWord) && workerRunning)
        && (!old(workerRunning) && q == [] ==> pendingQueue == [] && loadingWord == old(loadingWord) && !workerRunning)
        && (!old(workerRunning) && q != [] ==> pendingQueue == q[1..] && loadingWord == Some(q[0]) && workerRunning)
    {
      EnqueueMissing(words);
      // Entries are built for every word before the next lookup starts; only the first is kept.
      items := [EntryFor(words[0], raw)];
      if !workerRunning {
        StartNextPending();
      }
    }
  }

  // Properties of the queue.

  /** Enqueueing keeps the queue's existing order and only appends at the back. */
  lemma {:induction false} EnqueuedExtends(queue: seq<string>, words: seq<string>, cache: set<string>,
                                         loading: Option<string>)
    ensures var q := Enqueued(queue, words, cache, loading);
      |queue| <= |q| && q[..|queue|] == queue
    decreases |words|
  {
    if |words| > 0 {
      EnqueuedExtends(queue, words[..|words| - 1], cache, loading);
    }
  }

  /** After enqueueing, every given word that is not cached or loading is waiting in the queue. */
  lemma {:induction false} EnqueuedCovers(queue: seq<string>, words: seq<string>, cache: set<string>,
                                        loading: Option<string>)
    ensures forall w :: w in words && w != [] && w !in cache && loading != Some(w) ==>
      w in Enqueued(queue, words, cache, loading)
    decreases |words|
  {
    if |words| > 0 {
      var init := words[..|words| - 1];
      EnqueuedCovers(queue, init, cache, loading);
      EnqueuedExtends(Enqueued(queue, init, cache, loading), [], cache, loading);
      forall w | w in words && w != [] && w !in cache && loading != Some(w)
        ensures w in Enqueued(queue, words, cache, loading)
      {
        if w in init {
          var q := Enqueued(queue, init, cache, loading);
          assert w in q;
        }
      }
    }
  }

  /** Enqueueing never creates a duplicate. */
  lemma {:induction false} EnqueuedDistinct(queue: seq<string>, words: seq<string>, cache: set<string>,
                                          loading: Option<string>)
    requires Distinct(queue)
    ensures Distinct(Enqueued(queue, words, cache, loading))
    decreases |words|
  {
    if |words| > 0 {
      EnqueuedDistinct(queue, words[..|words| - 1], cache, loading);
    }
  }
}
