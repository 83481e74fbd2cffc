/** `formatMarkdownBold`: the text split around `**bold**` runs by the pattern
    `(\*\*.*?\*\*)`, following the `split` algorithm of section 22.2.6.14 of
    ECMA-262 (RegExp.prototype[@@split]), then with empty parts dropped. */
module BoldMarkup {
  import opened Wrappers

  /** The characters `.` does not match without the `s` flag. */
  predicate IsLineTerminator(c: char)
  {
    c == '\n' || c == '\r' || c == '\U{2028}' || c == '\U{2029}'
  }

  /** `s` has the two characters `**` at position `j`. */
  predicate StarsAt(s: string, j: int)
  {
    0 <= j && j + 1 < |s| && s[j] == '*' && s[j + 1] == '*'
  }

  /** No line terminator among the positions `from .. to - 1` of `s`. */
  predicate Clean(s: string, from: int, to: int)
  {
    forall k :: from <= k < to && 0 <= k < |s| ==> !IsLineTerminator(s[k])
  }

  /** The pattern can match exactly `s[q..e]`: two stars, characters other than
      line terminators, two stars. */
  predicate IsMatch(s: string, q: int, e: int)
  {
    0 <= q && q + 4 <= e <= |s| && StarsAt(s, q) && StarsAt(s, e - 2) && Clean(s, q + 2, e - 2)
  }

  /** The lazy `.*?`: the first `**` at or after `j` reached without crossing a
      line terminator. */
  function CloseFrom(s: string, j: nat): (r: Option<nat>)
    ensures r.Some? ==> j <= r.value && StarsAt(s, r.value) && Clean(s, j, r.value)
    ensures r.Some? ==> forall k :: j <= k < r.value ==> !StarsAt(s, k)
    ensures r.None? ==> forall k :: j <= k && StarsAt(s, k) ==> !Clean(s, j, k)
    decreases |s| - j
  {
    if j + 1 >= |s| then None
    else if StarsAt(s, j) then Some(j)
    else if IsLineTerminator(s[j]) then None
    else CloseFrom(s, j + 1)
  }

  /** The end of the match the pattern makes when tried exactly at `q`, if any:
      the shortest of all possible matches there. */
  function MatchAt(s: string, q: nat): (r: Option<nat>)
    ensures r.Some? ==> IsMatch(s, q, r.value)
    ensures r.Some? ==> forall e :: q <= e < r.value ==> !IsMatch(s, q, e)
    ensures r.None? ==> forall e :: !IsMatch(s, q, e)
  {
    if StarsAt(s, q) then
      match CloseFrom(s, q + 2)
      case Some(j) => Some(j + 2)
      case None => None
    else None
  }

  /** The split loop with `p` the end of the last match and `q` the position being
      tried: each match contributes the text before it and, through the capture
      group, the match itself; after the last match comes the rest of the text. */
  function SplitFrom(s: string, p: nat, q: nat): seq<string>
    requires p <= q <= |s|
    decreases |s| - q
  {
    if q == |s| then [s[p..]]
    else
      match MatchAt(s, q)
      case Some(e) => [s[p..q], s[q..e]] + SplitFrom(s, e, e)
      case None => SplitFrom(s, p, q + 1)
  }

  /** `text.split(/(\*\*.*?\*\*)/)`, as inlined in the player's `renderHighlight`. */
  function Split(s: string): (r: seq<string>)
    ensures Concat(r) == s
    ensures |r| % 2 == 1
    ensures forall i :: 0 <= i < |r| && i % 2 == 1 ==> IsBoldPart(r[i])
  {
    SplitFromConcat(s, 0, 0);
    SplitFromShape(s, 0, 0);
    assert s[0..] == s;
    SplitFrom(s, 0, 0)
  }

  /** `filter(Boolean)` on strings: drops the empty ones. */
  function NonEmpty(parts: seq<string>): (r: seq<string>)
    ensures forall i :: 0 <= i < |r| ==> r[i] != ""
    ensures |r| <= |parts|
    ensures forall x :: x in r <==> x in parts && x != ""
  {
    if parts == [] then []
    else if parts[0] == "" then NonEmpty(parts[1..])
    else [parts[0]] + NonEmpty(parts[1..])
  }

  /** Filtering keeps each non-empty part as it is and in order: it works part by
      part, so it distributes over concatenation. */
  lemma {:induction false} NonEmptyAppend(a: seq<string>, b: seq<string>)
    ensures NonEmpty(a + b) == NonEmpty(a) + NonEmpty(b)
  {
    if a != [] {
      assert (a + b)[0] == a[0];
      assert (a + b)[1..] == a[1..] + b;
      NonEmptyAppend(a[1..], b);
    } else {
      assert a + b == b;
    }
  }

  /** A single part is kept exactly when it is non-empty. */
  lemma NonEmptySingleton(x: string)
    ensures NonEmpty([x]) == if x == "" then [] else [x]
  {
    assert [x][1..] == [];
  }

  /** `formatMarkdownBold`: the split with the empty parts dropped. Its parts join
      back into the text; none is empty; the empty text gives none. */
  function FormatMarkdownBold(text: string): (r: seq<string>)
    ensures Concat(r) == text
    ensures forall i :: 0 <= i < |r| ==> r[i] != ""
    ensures text == "" ==> r == []
  {
    NonEmptyConcat(Split(text));
    NonEmpty(Split(text))
  }

  /** The parts joined back together. */
  function Concat(parts: seq<string>): string
  {
    if parts == [] then "" else parts[0] + Concat(parts[1..])
  }

  /** A matched part: opening and closing `**`, nothing but non-terminators in
      between, and no `**` starting anywhere after the opener before the closer,
      so the text between the delimiters holds no `**` either. */
  predicate IsBoldPart(m: string)
  {
    && |m| >= 4
    && StarsAt(m, 0)
    && StarsAt(m, |m| - 2)
    && Clean(m, 0, |m|)
    && forall k :: 2 <= k < |m| - 2 ==> !StarsAt(m, k)
  }

  // ---------------------------------------------------------------------------
  // The parts put back together give the text.

  lemma {:induction false} SplitFromConcat(s: string, p: nat, q: nat)
    requires p <= q <= |s|
    ensures Concat(SplitFrom(s, p, q)) == s[p..]
    decreases |s| - q
  {
    if q == |s| {
      assert Concat([s[p..]]) == s[p..] + Concat([]);
    } else {
      match MatchAt(s, q)
      case Some(e) =>
        var rest := SplitFrom(s, e, e);
        SplitFromConcat(s, e, e);
        var parts := [s[p..q], s[q..e]] + rest;
        assert parts[1..] == [s[q..e]] + rest;
        assert ([s[q..e]] + rest)[1..] == rest;
        assert Concat(parts) == s[p..q] + (s[q..e] + s[e..]);
        assert s[p..q] + (s[q..e] + s[e..]) == s[p..];
      case None =>
        SplitFromConcat(s, p, q + 1);
    }
  }

  lemma {:induction false} NonEmptyConcat(parts: seq<string>)
    ensures Concat(NonEmpty(parts)) == Concat(parts)
  {
    if parts != [] {
      NonEmptyConcat(parts[1..]);
      if parts[0] != "" {
        assert ([parts[0]] + NonEmpty(parts[1..]))[1..] == NonEmpty(parts[1..]);
      }
    }
  }

  /** `formatMarkdownBold` loses and adds nothing: its parts, none of them empty,
      join back into the text; the empty text gives no parts at all. */
  lemma FormatMarkdownBoldKeepsText(text: string)
    ensures Concat(FormatMarkdownBold(text)) == text
    ensures forall i :: 0 <= i < |FormatMarkdownBold(text)| ==> FormatMarkdownBold(text)[i] != ""
    ensures text == "" ==> FormatMarkdownBold(text) == []
  {
    SplitFromConcat(text, 0, 0);
    NonEmptyConcat(Split(text));
    assert text[0..] == text;
  }

  // ---------------------------------------------------------------------------
  // Plain parts and matched parts alternate; every matched part is a bold run.

  /** A match of the pattern, cut out of the text, is a bold part. */
  lemma MatchIsBoldPart(s: string, q: nat, e: nat)
    requires IsMatch(s, q, e)
    requires forall e' :: q <= e' < e ==> !IsMatch(s, q, e')
    ensures IsBoldPart(s[q..e])
  {
    var m := s[q..e];
    assert StarsAt(m, 0) && StarsAt(m, |m| - 2);
    forall k | 0 <= k < |m|
      ensures !IsLineTerminator(m[k])
    {
      assert m[k] == s[q + k];
    }
    forall k | 2 <= k < |m| - 2
      ensures !StarsAt(m, k)
    {
      if StarsAt(m, k) {
        assert StarsAt(s, q + k);
        assert IsMatch(s, q, q + k + 2);
      }
    }
  }

  /** The split has an odd number of parts, and the parts at odd positions, and
      only those, came from the capture group. */
  lemma {:induction false} SplitFromShape(s: string, p: nat, q: nat)
    requires p <= q <= |s|
    ensures |SplitFrom(s, p, q)| % 2 == 1
    ensures forall i :: 0 <= i < |SplitFrom(s, p, q)| && i % 2 == 1 ==> IsBoldPart(SplitFrom(s, p, q)[i])
    decreases |s| - q
  {
    if q < |s| {
      match MatchAt(s, q)
      case Some(e) =>
        SplitFromShape(s, e, e);
        MatchIsBoldPart(s, q, e);
        var rest := SplitFrom(s, e, e);
        var parts := [s[p..q], s[q..e]] + rest;
        forall i | 0 <= i < |parts| && i % 2 == 1
          ensures IsBoldPart(parts[i])
        {
          if i > 1 {
            assert parts[i] == rest[i - 2];
          }
        }
      case None =>
        SplitFromShape(s, p, q + 1);
    }
  }

  /** Every part the split takes from the capture group starts and ends with `**`,
      is at least four long, has no line terminator, and holds no `**` inside. */
  lemma SplitMatchedParts(s: string)
    ensures |Split(s)| % 2 == 1
    ensures forall i :: 0 <= i < |Split(s)| && i % 2 == 1 ==> IsBoldPart(Split(s)[i])
  {
    SplitFromShape(s, 0, 0);
  }

  // ---------------------------------------------------------------------------
  // Text without `**` is a single plain part.

  lemma {:induction false} NoStarsFrom(s: string, q: nat)
    requires q <= |s|
    requires forall k :: 0 <= k < |s| ==> !StarsAt(s, k)
    ensures SplitFrom(s, 0, q) == [s]
    decreases |s| - q
  {
    if q < |s| {
      assert MatchAt(s, q).None?;
      NoStarsFrom(s, q + 1);
    }
  }

  /** Text in which `**` never occurs comes back whole: one part, or none for the
      empty text. */
  lemma NoStarsIsOnePart(text: string)
    requires forall k :: 0 <= k < |text| ==> !StarsAt(text, k)
    ensures Split(text) == [text]
    ensures text != "" ==> FormatMarkdownBold(text) == [text]
  {
    NoStarsFrom(text, 0);
    assert NonEmpty([text]) == if text == "" then [] else [text] + NonEmpty([]);
  }

  // ---------------------------------------------------------------------------
  // A declarative account of the split: leftmost, lazy matching, and nothing
  // else, determines the parts.

  /** No match of the pattern starts at `q`. */
  ghost predicate NoMatchAt(s: string, q: int)
  {
    forall e :: !IsMatch(s, q, e)
  }

  /** `s[q..e]` is a match, and no shorter one starts at `q`. */
  ghost predicate ShortestMatch(s: string, q: int, e: int)
  {
    IsMatch(s, q, e) && forall e' :: q <= e' < e ==> !IsMatch(s, q, e')
  }

  /** No match of the pattern starts anywhere in `from .. to - 1`. */
  ghost predicate NoMatchBetween(s: string, from: int, to: int)
  {
    forall q :: from <= q < to ==> NoMatchAt(s, q)
  }

  /** Scanning from `p`, the first place a match starts is `q`, and the lazy match
      there is `s[q..e]`. */
  ghost predicate FirstMatchFrom(s: string, p: int, q: int, e: int)
  {
    p <= q && NoMatchBetween(s, p, q) && ShortestMatch(s, q, e)
  }

  /** `parts` splits `s[p..]` into plain text and matches, alternately, with no
      match starting inside any plain part and every match the shortest at its start. */
  ghost predicate Tokenizes(s: string, p: nat, parts: seq<string>)
    requires p <= |s|
    decreases |parts|
  {
    if |parts| == 1 then
      parts[0] == s[p..] && NoMatchBetween(s, p, |s|)
    else if |parts| >= 3 then
      var q, e := p + |parts[0]|, p + |parts[0]| + |parts[1]|;
      && e <= |s|
      && s[p..q] == parts[0] && s[q..e] == parts[1]
      && FirstMatchFrom(s, p, q, e)
      && Tokenizes(s, e, parts[2..])
    else false
  }

  lemma {:induction false} SplitFromTokenizes(s: string, p: nat, q: nat)
    requires p <= q <= |s|
    requires NoMatchBetween(s, p, q)
    ensures Tokenizes(s, p, SplitFrom(s, p, q))
    decreases |s| - q
  {
    if q < |s| {
      match MatchAt(s, q)
      case Some(e) =>
        SplitFromTokenizes(s, e, e);
        var parts := [s[p..q], s[q..e]] + SplitFrom(s, e, e);
        assert parts[2..] == SplitFrom(s, e, e);
      case None =>
        SplitFromTokenizes(s, p, q + 1);
    }
  }

  /** From a position after which no match starts, the split ends in one plain part. */
  lemma {:induction false} PlainRunSplit(s: string, p: nat, q: nat)
    requires p <= q <= |s|
    requires NoMatchBetween(s, q, |s|)
    ensures SplitFrom(s, p, q) == [s[p..]]
    decreases |s| - q
  {
    if q < |s| {
      assert NoMatchAt(s, q);
      PlainRunSplit(s, p, q + 1);
    }
  }

  /** The split scans past every position without a match and cuts at the first match. */
  lemma {:induction false} SkipToMatch(s: string, p: nat, r: nat, q: nat, e: nat)
    requires p <= r <= q
    requires FirstMatchFrom(s, p, q, e)
    ensures q < e <= |s|
    ensures SplitFrom(s, p, r) == [s[p..q], s[q..e]] + SplitFrom(s, e, e)
    decreases q - r
  {
    if r < q {
      assert NoMatchAt(s, r);
      assert MatchAt(s, r).None?;
      SkipToMatch(s, p, r + 1, q, e);
    } else {
      assert IsMatch(s, q, e);
      assert MatchAt(s, q) == Some(e);
    }
  }

  /** The split is the only leftmost, lazy tokenization of the text. */
  lemma {:induction false} TokenizesOnlyAsSplit(s: string, p: nat, parts: seq<string>)
    requires p <= |s|
    requires Tokenizes(s, p, parts)
    ensures parts == SplitFrom(s, p, p)
    decreases |parts|
  {
    if |parts| == 1 {
      PlainRunSplit(s, p, p);
    } else {
      var q, e := p + |parts[0]|, p + |parts[0]| + |parts[1]|;
      assert FirstMatchFrom(s, p, q, e) && Tokenizes(s, e, parts[2..]);
      var a, m, rest := s[p..q], s[q..e], parts[2..];
      SkipToMatch(s, p, p, q, e);
      TokenizesOnlyAsSplit(s, e, rest);
      SplitAtTwo(parts);
      assert parts == [a, m] + rest;
    }
  }

  lemma SplitAtTwo(parts: seq<string>)
    requires |parts| >= 2
    ensures parts == [parts[0], parts[1]] + parts[2..]
  {
  }

  /** A list of strings is the split of the text exactly when it tokenizes the text
      leftmost and lazily: the declarative account determines the split. */
  lemma SplitIsTheLeftmostLazyTokenization(s: string, parts: seq<string>)
    ensures Tokenizes(s, 0, parts) <==> parts == Split(s)
  {
    SplitFromTokenizes(s, 0, 0);
    if Tokenizes(s, 0, parts) {
      TokenizesOnlyAsSplit(s, 0, parts);
    }
  }

  /** An unclosed `**` stays inside a plain part. */
  lemma UnclosedStarsStayPlain()
    ensures FormatMarkdownBold("a**b") == ["a**b"]
  {
    var s := "a**b";
    assert MatchAt(s, 0).None? && MatchAt(s, 1).None? && MatchAt(s, 2).None? && MatchAt(s, 3).None?;
    assert SplitFrom(s, 0, 3) == SplitFrom(s, 0, 4) == [s];
    assert SplitFrom(s, 0, 1) == SplitFrom(s, 0, 2) == SplitFrom(s, 0, 3);
    assert Split(s) == [s];
    assert NonEmpty([s]) == [s] + NonEmpty([]);
  }

  /** Two bold runs come out separately, each closed at its own first `**`. */
  lemma TwoBoldRunsSplitApart()
    ensures FormatMarkdownBold("**a** and **b**") == ["**a**", " and ", "**b**"]
  {
    TwoBoldRunsSplit();
    var parts := ["", "**a**", " and ", "**b**", ""];
    assert NonEmpty(parts[4..]) == [];
    assert NonEmpty(parts[3..]) == ["**b**"];
    assert NonEmpty(parts[2..]) == [" and ", "**b**"];
    assert NonEmpty(parts[1..]) == ["**a**", " and ", "**b**"];
  }

  lemma TwoBoldRunsSplit()
    ensures Split("**a** and **b**") == ["", "**a**", " and ", "**b**", ""]
  {
    TwoBoldRunsHead();
  }

  /** The scan cuts out the first run at once, with an empty plain part before it. */
  lemma TwoBoldRunsHead()
    ensures SplitFrom("**a** and **b**", 0, 0) == ["", "**a**", " and ", "**b**", ""]
  {
    var t := "**a** and **b**";
    TwoBoldRunsMatches();
    TwoBoldRunsTail();
    assert t[0..0] == "" && t[0..5] == "**a**";
    assert SplitFrom(t, 0, 0) == ["", "**a**"] + SplitFrom(t, 5, 5);
  }

  /** After the first run, the scan skips " and " and cuts out the second run. */
  lemma TwoBoldRunsTail()
    ensures SplitFrom("**a** and **b**", 5, 5) == [" and ", "**b**", ""]
  {
    var t := "**a** and **b**";
    TwoBoldRunsMatches();
    assert |t| == 15 && t[15..] == "";
    assert SplitFrom(t, 15, 15) == [""];
    assert t[5..10] == " and " && t[10..15] == "**b**";
    assert SplitFrom(t, 5, 10) == [" and ", "**b**", ""];
    assert SplitFrom(t, 5, 9) == SplitFrom(t, 5, 10);
    assert SplitFrom(t, 5, 8) == SplitFrom(t, 5, 9);
    assert SplitFrom(t, 5, 7) == SplitFrom(t, 5, 8);
    assert SplitFrom(t, 5, 6) == SplitFrom(t, 5, 7);
  }

  lemma TwoBoldRunsMatches()
    ensures MatchAt("**a** and **b**", 0) == Some(5)
    ensures forall q :: 5 <= q < 10 ==> MatchAt("**a** and **b**", q).None?
    ensures MatchAt("**a** and **b**", 10) == Some(15)
  {
    var t := "**a** and **b**";
    assert CloseFrom(t, 2) == Some(3);
    assert CloseFrom(t, 12) == Some(13);
    forall q | 5 <= q < 10
      ensures MatchAt(t, q).None?
    {
      assert !StarsAt(t, q);
    }
  }

  // ---------------------------------------------------------------------------
  // Rendering the parts: plain text, or bold text with its delimiters removed.

  datatype Segment = Plain(text: string) | Strong(text: string)

  /** JavaScript's `m.slice(2, -2)`. */
  function SliceInner(m: string): (r: string)
    ensures |m| >= 4 ==> r == m[2..|m| - 2]
    ensures |m| < 4 ==> r == ""
  {
    var from := if |m| < 2 then |m| else 2;
    var to := if |m| >= 2 then |m| - 2 else 0;
    if to <= from then "" else m[from..to]
  }

  /** `m.startsWith('**') && m.endsWith('**')`. */
  predicate LooksBold(m: string)
  {
    |m| >= 2 && m[..2] == "**" && m[|m| - 2..] == "**"
  }

  /** The markup a segment stands for: bold text gets its delimiters back. */
  function Markup(seg: Segment): string
  {
    match seg
    case Plain(t) => t
    case Strong(t) => "**" + t + "**"
  }

  function Restore(segs: seq<Segment>): string
  {
    if segs == [] then "" else Markup(segs[0]) + Restore(segs[1..])
  }

  /** The player's `renderHighlight` as written: any part that starts and ends with
      `**` is shown bold, whether or not the pattern matched it. */
  function RenderAsWritten(parts: seq<string>): (segs: seq<Segment>)
    ensures |segs| == |parts|
    ensures forall i :: 0 <= i < |parts| ==> (segs[i].Strong? <==> LooksBold(parts[i]))
    ensures forall i :: 0 <= i < |parts| && segs[i].Plain? ==> segs[i].text == parts[i]
    ensures forall i :: 0 <= i < |parts| && segs[i].Strong? && |parts[i]| >= 4 ==> Markup(segs[i]) == parts[i]
    ensures forall i :: 0 <= i < |parts| && segs[i].Strong? && |parts[i]| < 4 ==> segs[i].text == ""
  {
    seq(|parts|, i requires 0 <= i < |parts| =>
      if LooksBold(parts[i]) then Strong(SliceInner(parts[i])) else Plain(parts[i]))
  }

  /** As written, text can vanish: `"***"` holds no match, so it is one plain part,
      yet it passes the prefix/suffix test and renders as an empty bold run. */
  lemma RenderAsWrittenLosesText()
    ensures Split("***") == ["***"]
    ensures RenderAsWritten(Split("***")) == [Strong("")]
    ensures Restore(RenderAsWritten(Split("***"))) != "***"
  {
    assert MatchAt("***", 2).None?;
    assert CloseFrom("***", 3).None?;
    assert MatchAt("***", 1).None?;
    assert SplitFrom("***", 0, 1) == SplitFrom("***", 0, 2) == SplitFrom("***", 0, 3);
    assert CloseFrom("***", 2).None?;
    assert MatchAt("***", 0).None?;
    assert Split("***") == ["***"];
    assert LooksBold("***");
    assert Restore([Strong("")]) == "****" + Restore([]);
  }

  /** `renderHighlight` corrected: bold exactly for the parts the capture group
      produced, which are the ones at odd positions. */
  function RenderHighlight(text: string): (segs: seq<Segment>)
    ensures |segs| == |Split(text)|
    ensures forall i :: 0 <= i < |segs| ==> (segs[i].Strong? <==> i % 2 == 1)
    ensures forall i :: 0 <= i < |segs| && segs[i].Plain? ==> segs[i].text == Split(text)[i]
  {
    var parts := Split(text);
    seq(|parts|, i requires 0 <= i < |parts| =>
      if i % 2 == 1 then Strong(SliceInner(parts[i])) else Plain(parts[i]))
  }

  lemma {:induction false} RestoreParts(segs: seq<Segment>, parts: seq<string>)
    requires |segs| == |parts|
    requires forall i :: 0 <= i < |segs| ==> Markup(segs[i]) == parts[i]
    ensures Restore(segs) == Concat(parts)
  {
    if segs != [] {
      RestoreParts(segs[1..], parts[1..]);
    }
  }

  /** Corrected, no text is lost: putting the delimiters back around the bold
      segments gives the original text, and the segments marked bold are exactly
      the runs the pattern matched. */
  lemma RenderHighlightRestores(text: string)
    ensures Restore(RenderHighlight(text)) == text
    ensures forall i :: 0 <= i < |RenderHighlight(text)| ==>
      (RenderHighlight(text)[i].Strong? <==> i % 2 == 1)
    ensures forall i :: 0 <= i < |RenderHighlight(text)| ==>
      Markup(RenderHighlight(text)[i]) == Split(text)[i]
  {
    var parts := Split(text);
    var segs := RenderHighlight(text);
    SplitMatchedParts(text);
    forall i | 0 <= i < |segs|
      ensures Markup(segs[i]) == parts[i]
    {
      if i % 2 == 1 {
        var m := parts[i];
        assert m == "**" + m[2..|m| - 2] + "**";
      }
    }
    RestoreParts(segs, parts);
    SplitFromConcat(text, 0, 0);
    assert text[0..] == text;
  }

  /** The two renderings agree on every matched run and on every plain part that
      does not both start and end with `**`. */
  lemma RenderingsAgreeExceptStarredPlainText(text: string)
    ensures |RenderAsWritten(Split(text))| == |RenderHighlight(text)|
    ensures forall i :: 0 <= i < |RenderHighlight(text)| && (i % 2 == 1 || !LooksBold(Split(text)[i])) ==>
      RenderAsWritten(Split(text))[i] == RenderHighlight(text)[i]
  {
    SplitMatchedParts(text);
    var parts := Split(text);
    forall i | 0 <= i < |parts| && i % 2 == 1
      ensures LooksBold(parts[i])
    {
      var m := parts[i];
      assert m[..2] == [m[0], m[1]];
      assert m[|m| - 2..] == [m[|m| - 2], m[|m| - 1]];
    }
  }
}
