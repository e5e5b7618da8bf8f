/** `highlightText` of `components/testimonials-columns.tsx`: a testimonial
    is split on the brand names with
    `text.split(/(Lime Green Studios|Lime Green)/gi)` and the captured
    brand names are highlighted.

    The split follows `RegExp.prototype[@@split]` (ECMA-262 section
    22.2.6.14): scan positions left to right; where the pattern matches, cut
    the text before it and emit the captured match; otherwise move one
    position on. The pattern never matches the empty string, so the
    empty-match rules of that algorithm never apply.

    Matching ignores case. In the non-unicode `i` mode a character is
    compared after `toUpperCase`, and a character at or above U+0080 is never
    mapped onto an ASCII one; since both brand names are ASCII letters and
    spaces, ASCII case folding gives exactly the engine's matches. */
module Highlight {
  import opened Strings

  const LongBrand: string := "lime green studios"
  const ShortBrand: string := "lime green"

  function LowerAscii(c: char): char {
    if 'A' <= c <= 'Z' then (c as int + 32) as char else c
  }

  /** `s` starts with `word` ignoring ASCII case (`word` is lower case). */
  predicate StartsWithIgnoringCase(s: string, word: string) {
    |word| == 0 ||
    (|s| > 0 && LowerAscii(s[0]) == word[0] && StartsWithIgnoringCase(s[1..], word[1..]))
  }

  /** The recursive definition compares the characters one by one. */
  lemma {:induction false} StartsWithIgnoringCaseChars(s: string, word: string)
    ensures StartsWithIgnoringCase(s, word) <==>
              |word| <= |s| && forall i :: 0 <= i < |word| ==> LowerAscii(s[i]) == word[i]
  {
    if |word| > 0 && |s| > 0 {
      StartsWithIgnoringCaseChars(s[1..], word[1..]);
      assert forall i :: 1 <= i < |word| && i < |s| ==> s[1..][i - 1] == s[i] && word[1..][i - 1] == word[i];
    }
  }

  lemma {:induction false} StartsWithIgnoringCaseLength(s: string, word: string)
    requires StartsWithIgnoringCase(s, word)
    ensures |word| <= |s|
  {
    if |word| > 0 {
      StartsWithIgnoringCaseLength(s[1..], word[1..]);
    }
  }

  /** The length of the brand name the pattern matches at position `q` of
      `s`, 0 when it does not match there. The alternatives are tried in
      order, so "Lime Green Studios" wins over "Lime Green". */
  function BrandAt(s: string, q: nat): (n: nat)
    requires q <= |s|
    ensures n == 0 || n == |LongBrand| || n == |ShortBrand|
    ensures q + n <= |s|
  {
    if StartsWithIgnoringCase(s[q..], LongBrand) then
      StartsWithIgnoringCaseLength(s[q..], LongBrand);
      |LongBrand|
    else if StartsWithIgnoringCase(s[q..], ShortBrand) then
      StartsWithIgnoringCaseLength(s[q..], ShortBrand);
      |ShortBrand|
    else 0
  }

  /** The split loop from last cut `p` and scan position `q`. */
  function SplitFrom(s: string, p: nat, q: nat): (parts: seq<string>)
    requires p <= q <= |s|
    ensures |parts| % 2 == 1
    decreases |s| - q
  {
    if q == |s| then [s[p..]]
    else
      var n := BrandAt(s, q);
      if n == 0 then SplitFrom(s, p, q + 1)
      else [s[p..q], s[q..q + n]] + SplitFrom(s, q + n, q + n)
  }

  /** `text.split(/(Lime Green Studios|Lime Green)/gi)`. */
  function SplitOnBrand(text: string): seq<string> {
    SplitFrom(text, 0, 0)
  }

  /** The concatenation of a list of strings. */
  function Concat(parts: seq<string>): string {
    if |parts| == 0 then "" else parts[0] + Concat(parts[1..])
  }

  /** No match of the pattern starts at positions `lo` up to `hi` of `s`. */
  predicate NoMatchBetween(s: string, lo: nat, hi: nat)
    requires lo <= hi <= |s|
  {
    forall q :: lo <= q < hi ==> BrandAt(s, q) == 0
  }

  /** The parts the split produces, described without the scan: an
      unmatched stretch, then (if any) the match the pattern takes right
      after it followed by the parts of the rest. */
  predicate IsBrandSplit(s: string, from: nat, parts: seq<string>)
    requires from <= |s|
    decreases |parts|
  {
    |parts| >= 1 &&
    var plain := parts[0];
    from + |plain| <= |s| && s[from..from + |plain|] == plain &&
    NoMatchBetween(s, from, from + |plain|) &&
    if |parts| == 1 then from + |plain| == |s|
    else
      var at := from + |plain|;
      at < |s| && |parts| >= 3 &&
      BrandAt(s, at) > 0 && parts[1] == s[at..at + BrandAt(s, at)] &&
      IsBrandSplit(s, at + BrandAt(s, at), parts[2..])
  }

  lemma {:induction false} SplitFromIsBrandSplit(s: string, p: nat, q: nat)
    requires p <= q <= |s|
    requires NoMatchBetween(s, p, q)
    ensures IsBrandSplit(s, p, SplitFrom(s, p, q))
    decreases |s| - q
  {
    if q == |s| {
      BrandSplitEnd(s, p);
    } else if BrandAt(s, q) == 0 {
      SplitFromIsBrandSplit(s, p, q + 1);
      SplitFromSkip(s, p, q);
    } else {
      var n := BrandAt(s, q);
      SplitFromIsBrandSplit(s, q + n, q + n);
      BrandSplitCut(s, p, q);
    }
  }

  lemma BrandSplitEnd(s: string, p: nat)
    requires p <= |s| && NoMatchBetween(s, p, |s|)
    ensures IsBrandSplit(s, p, SplitFrom(s, p, |s|))
  {
    assert SplitFrom(s, p, |s|) == [s[p..]];
  }

  /** Where the pattern does not match, the scan moves one position on. */
  lemma SplitFromSkip(s: string, p: nat, q: nat)
    requires p <= q < |s| && BrandAt(s, q) == 0
    ensures SplitFrom(s, p, q) == SplitFrom(s, p, q + 1)
  {
  }

  /** Where the pattern matches, the text before it and the match are cut off. */
  lemma SplitFromCut(s: string, p: nat, q: nat)
    requires p <= q < |s| && BrandAt(s, q) > 0
    ensures var n := BrandAt(s, q);
      SplitFrom(s, p, q) == [s[p..q], s[q..q + n]] + SplitFrom(s, q + n, q + n)
  {
  }

  lemma BrandSplitCut(s: string, p: nat, q: nat)
    requires p <= q < |s| && BrandAt(s, q) > 0 && NoMatchBetween(s, p, q)
    requires IsBrandSplit(s, q + BrandAt(s, q), SplitFrom(s, q + BrandAt(s, q), q + BrandAt(s, q)))
    ensures IsBrandSplit(s, p, SplitFrom(s, p, q))
  {
    var n := BrandAt(s, q);
    var rest := SplitFrom(s, q + n, q + n);
    var parts := SplitFrom(s, p, q);
    SplitFromCut(s, p, q);
    assert |parts[0]| == q - p && parts[1] == s[q..q + n] && parts[2..] == rest;
  }

  /** The split is exactly the cut described by `IsBrandSplit`. */
  lemma SplitOnBrandCuts(text: string)
    ensures IsBrandSplit(text, 0, SplitOnBrand(text))
  {
    SplitFromIsBrandSplit(text, 0, 0);
  }

  /** The split leaves nothing out: its parts concatenate back to the text,
      because the capturing group keeps the separators. */
  lemma {:induction false} SplitFromConcat(s: string, p: nat, q: nat)
    requires p <= q <= |s|
    ensures Concat(SplitFrom(s, p, q)) == s[p..]
    decreases |s| - q
  {
    if q == |s| {
      assert Concat(SplitFrom(s, p, q)) == s[p..] + "";
    } else if BrandAt(s, q) == 0 {
      SplitFromSkip(s, p, q);
      SplitFromConcat(s, p, q + 1);
    } else {
      var n := BrandAt(s, q);
      SplitFromConcat(s, q + n, q + n);
      ConcatCut(s, p, q);
    }
  }

  lemma ConcatCut(s: string, p: nat, q: nat)
    requires p <= q < |s| && BrandAt(s, q) > 0
    requires Concat(SplitFrom(s, q + BrandAt(s, q), q + BrandAt(s, q))) == s[q + BrandAt(s, q)..]
    ensures Concat(SplitFrom(s, p, q)) == s[p..]
  {
    var n := BrandAt(s, q);
    var rest := SplitFrom(s, q + n, q + n);
    var parts := SplitFrom(s, p, q);
    SplitFromCut(s, p, q);
    assert parts[1..][1..] == rest;
    assert s[p..] == s[p..q] + (s[q..q + n] + s[q + n..]);
  }

  lemma SplitRoundTrip(text: string)
    ensures Concat(SplitOnBrand(text)) == text
  {
    SplitFromConcat(text, 0, 0);
  }

  // ---------------------------------------------------------------- Highlighting

  /** `part.match(/Lime Green Studios|Lime Green/i)` succeeds: the pattern
      matches somewhere in `part`. */
  predicate ContainsBrand(part: string) {
    exists q :: 0 <= q < |part| && BrandAt(part, q) > 0
  }

  datatype Fragment = Plain(text: string) | Highlighted(text: string)

  /** `highlightText(text)`: each part of the split, highlighted when it
      matches the pattern. */
  function HighlightText(text: string): (r: seq<Fragment>)
    ensures |r| == |SplitOnBrand(text)|
    ensures forall i :: 0 <= i < |r| ==> r[i].text == SplitOnBrand(text)[i]
  {
    var parts := SplitOnBrand(text);
    seq(|parts|, i requires 0 <= i < |parts| =>
      if ContainsBrand(parts[i]) then Highlighted(parts[i]) else Plain(parts[i]))
  }

  lemma {:induction false} StartsWithIgnoringCaseExtend(x: string, y: string, w: string)
    requires |x| <= |y| && y[..|x|] == x
    ensures StartsWithIgnoringCase(x, w) ==> StartsWithIgnoringCase(y, w)
  {
    if |w| > 0 && |x| > 0 {
      assert y[1..][..|x| - 1] == x[1..];
      StartsWithIgnoringCaseExtend(x[1..], y[1..], w[1..]);
    }
  }

  lemma {:induction false} StartsWithIgnoringCaseTruncate(x: string, w: string, k: nat)
    requires |w| <= k <= |x|
    ensures StartsWithIgnoringCase(x, w) ==> StartsWithIgnoringCase(x[..k], w)
  {
    if |w| > 0 {
      assert x[..k][1..] == x[1..][..k - 1];
      StartsWithIgnoringCaseTruncate(x[1..], w[1..], k - 1);
    }
  }

  /** A match found inside a stretch of `s` is a match in `s` itself, so a
      stretch where the scan found nothing contains no brand name. */
  lemma PlainStretchHasNoBrand(s: string, from: nat, len: nat)
    requires from + len <= |s|
    requires NoMatchBetween(s, from, from + len)
    ensures !ContainsBrand(s[from..from + len])
  {
    var part := s[from..from + len];
    forall q | 0 <= q < |part|
      ensures BrandAt(part, q) == 0
    {
      assert BrandAt(s, from + q) == 0;
      assert part[q..] == s[from + q..][..len - q];
      StartsWithIgnoringCaseExtend(part[q..], s[from + q..], LongBrand);
      StartsWithIgnoringCaseExtend(part[q..], s[from + q..], ShortBrand);
    }
  }

  /** The captured match is itself recognised by the pattern. */
  lemma CapturedIsBrand(s: string, at: nat)
    requires at < |s| && BrandAt(s, at) > 0
    ensures ContainsBrand(s[at..at + BrandAt(s, at)])
  {
    var n := BrandAt(s, at);
    var part := s[at..at + n];
    assert part[0..] == part == s[at..][..n];
    if n == |LongBrand| {
      StartsWithIgnoringCaseTruncate(s[at..], LongBrand, n);
    } else {
      StartsWithIgnoringCaseTruncate(s[at..], ShortBrand, n);
    }
    assert BrandAt(part, 0) > 0;
  }

  /** In a brand split, exactly the odd-numbered parts (the captured
      separators) contain a brand name. */
  lemma {:induction false} BrandSplitParts(s: string, from: nat, parts: seq<string>, i: nat)
    requires from <= |s| && IsBrandSplit(s, from, parts) && i < |parts|
    ensures ContainsBrand(parts[i]) <==> i % 2 == 1
    decreases |parts|
  {
    var at := from + |parts[0]|;
    if i == 0 {
      PlainStretchHasNoBrand(s, from, |parts[0]|);
    } else if i == 1 {
      CapturedIsBrand(s, at);
    } else {
      BrandSplitParts(s, at + BrandAt(s, at), parts[2..], i - 2);
      assert parts[2..][i - 2] == parts[i];
    }
  }

  /** A fragment is highlighted exactly when it is a captured brand name:
      the odd positions. So no plain fragment mentions either brand. */
  lemma HighlightedIffCaptured(text: string)
    ensures forall i :: 0 <= i < |HighlightText(text)| ==>
              (HighlightText(text)[i].Highlighted? <==> i % 2 == 1)
    ensures forall i :: 0 <= i < |HighlightText(text)| && HighlightText(text)[i].Plain? ==>
              !ContainsBrand(HighlightText(text)[i].text)
  {
    SplitOnBrandCuts(text);
    forall i | 0 <= i < |HighlightText(text)|
      ensures HighlightText(text)[i].Highlighted? <==> i % 2 == 1
    {
      BrandSplitParts(text, 0, SplitOnBrand(text), i);
    }
  }

  /** With `k` brand names found, there are `2k + 1` fragments: the plain
      stretches around and between them. */
  lemma FragmentCount(text: string)
    ensures |HighlightText(text)| == 2 * CountHighlighted(HighlightText(text)) + 1
  {
    HighlightedIffCaptured(text);
    CountOdd(HighlightText(text));
  }

  function CountHighlighted(fs: seq<Fragment>): nat {
    if |fs| == 0 then 0
    else CountHighlighted(fs[..|fs| - 1]) + (if fs[|fs| - 1].Highlighted? then 1 else 0)
  }

  lemma {:induction false} CountOdd(fs: seq<Fragment>)
    requires |fs| % 2 == 1
    requires forall i :: 0 <= i < |fs| ==> (fs[i].Highlighted? <==> i % 2 == 1)
    ensures |fs| == 2 * CountHighlighted(fs) + 1
  {
    if |fs| > 1 {
      var init := fs[..|fs| - 2];
      CountOdd(init);
      assert fs[..|fs| - 1][..|fs| - 2] == init;
    }
  }

  /** Each captured part is exactly what the pattern matches at that point
      of the text: the longer name when it matches there, in whatever case
      the text spells it, and the shorter one only otherwise. */
  lemma {:induction false} CapturedIsWhatMatches(s: string, p: nat, q: nat, i: nat)
    requires p <= q <= |s|
    requires i < |SplitFrom(s, p, q)| && i % 2 == 1
    ensures BrandAt(Concat(SplitFrom(s, p, q)[i..]), 0) == |SplitFrom(s, p, q)[i]|
    decreases |s| - q
  {
    if q < |s| {
      var n := BrandAt(s, q);
      if n == 0 {
        SplitFromSkip(s, p, q);
        CapturedIsWhatMatches(s, p, q + 1, i);
      } else if i == 1 {
        CapturedHere(s, p, q);
      } else {
        CutShift(s, p, q, i);
        CapturedIsWhatMatches(s, q + n, q + n, i - 2);
      }
    }
  }

  /** Past a cut, part `i` is part `i - 2` of the rest of the split. */
  lemma CutShift(s: string, p: nat, q: nat, i: nat)
    requires p <= q < |s| && BrandAt(s, q) > 0
    requires 2 <= i < |SplitFrom(s, p, q)|
    ensures var n := BrandAt(s, q);
      && |SplitFrom(s, p, q)| == |SplitFrom(s, q + n, q + n)| + 2
      && SplitFrom(s, q + n, q + n)[i - 2..] == SplitFrom(s, p, q)[i..]
  {
    SplitFromCut(s, p, q);
  }

  lemma CapturedHere(s: string, p: nat, q: nat)
    requires p <= q < |s| && BrandAt(s, q) > 0
    ensures BrandAt(Concat(SplitFrom(s, p, q)[1..]), 0) == |SplitFrom(s, p, q)[1]|
  {
    var n := BrandAt(s, q);
    var rest := SplitFrom(s, q + n, q + n);
    var parts := SplitFrom(s, p, q);
    SplitFromCut(s, p, q);
    SplitFromConcat(s, q + n, q + n);
    assert parts[1..] == [s[q..q + n]] + rest;
    assert Concat(parts[1..]) == s[q..];
    BrandAtSuffix(s, q);
  }

  lemma BrandAtSuffix(s: string, q: nat)
    requires q <= |s|
    ensures BrandAt(s[q..], 0) == BrandAt(s, q)
  {
    assert s[q..][0..] == s[q..];
  }

  lemma LongerBrandPreferred(text: string, i: nat)
    requires i < |SplitOnBrand(text)| && i % 2 == 1
    ensures var parts := SplitOnBrand(text);
            BrandAt(Concat(parts[i..]), 0) == |parts[i]| &&
            (StartsWithIgnoringCase(Concat(parts[i..]), LongBrand) ==> |parts[i]| == |LongBrand|)
  {
    CapturedIsWhatMatches(text, 0, 0, i);
  }

  /** Two texts that differ only in ASCII letter case. */
  predicate SameIgnoringCase(s: string, t: string) {
    |s| == |t| && forall i :: 0 <= i < |s| ==> LowerAscii(s[i]) == LowerAscii(t[i])
  }

  /** Matching ignores case: texts that differ only in letter case have
      matches of the same length at the same positions, hence splits with the
      same number of parts. */
  lemma CaseInsensitive(s: string, t: string, q: nat)
    requires SameIgnoringCase(s, t) && q <= |s|
    ensures BrandAt(s, q) == BrandAt(t, q)
  {
    StartsWithIgnoringCaseChars(s[q..], LongBrand);
    StartsWithIgnoringCaseChars(t[q..], LongBrand);
    StartsWithIgnoringCaseChars(s[q..], ShortBrand);
    StartsWithIgnoringCaseChars(t[q..], ShortBrand);
    assert forall i :: 0 <= i < |s| - q ==> s[q..][i] == s[q + i] && t[q..][i] == t[q + i];
  }

  lemma {:induction false} CaseInsensitiveSplit(s: string, t: string, p: nat, q: nat)
    requires SameIgnoringCase(s, t) && p <= q <= |s|
    ensures |SplitFrom(s, p, q)| == |SplitFrom(t, p, q)|
    decreases |s| - q
  {
    if q < |s| {
      CaseInsensitive(s, t, q);
      var n := BrandAt(s, q);
      if n == 0 {
        CaseInsensitiveSplit(s, t, p, q + 1);
      } else {
        CaseInsensitiveSplit(s, t, q + n, q + n);
      }
    }
  }
}
