/** Chunks are already chunked: cutting one again gives it back. */
module ChunkingFixpoint {
  import opened Text
  import opened Chunking
  import opened ChunkingConservation
  import opened ChunkingShape

  // ---------------------------------------------------------------- shapes of text

  predicate Trimmed(s: string) {
    s != "" && !IsSpace(s[0]) && !IsSpace(s[|s| - 1])
  }

  predicate NoBlankLine(s: string) {
    forall i: nat | i < |s| :: !BlankLineAt(s, i)
  }

  /** A segment: trimmed, without a blank line inside. */
  predicate Plain(s: string) {
    Trimmed(s) && NoBlankLine(s)
  }

  /** A chunk: trimmed, and each blank line inside is one pair of newlines between visible characters. */
  predicate Tidy(s: string) {
    && Trimmed(s)
    && forall i: nat | i < |s| && BlankLineAt(s, i) :: CleanBreak(s, i)
  }

  predicate CleanBreak(s: string, i: nat) {
    0 < i && i + 2 < |s| && !IsSpace(s[i - 1]) && !IsSpace(s[i + 2])
  }

  predicate CrLfAt(s: string, i: nat) {
    i + 1 < |s| && s[i] == '\r' && s[i + 1] == '\n'
  }

  predicate NoCrLf(s: string) {
    forall i: nat | i < |s| :: !CrLfAt(s, i)
  }

  /** When `clean` is set, no "\r\n" may occur. */
  predicate Fine(s: string, clean: bool) {
    clean ==> NoCrLf(s)
  }

  /** What cutting preserves. */
  predicate Smooth(s: string, clean: bool) {
    NoBlankLine(s) && Fine(s, clean)
  }

  lemma SliceFine(s: string, a: nat, b: nat, clean: bool)
    requires a <= b <= |s| && Fine(s, clean)
    ensures Fine(s[a..b], clean)
  {
    forall i: nat | i < b - a
      ensures CrLfAt(s[a..b], i) ==> CrLfAt(s, a + i)
    {
    }
  }

  lemma SliceSmooth(s: string, a: nat, b: nat, clean: bool)
    requires a <= b <= |s| && Smooth(s, clean)
    ensures Smooth(s[a..b], clean)
  {
    SliceFine(s, a, b, clean);
    forall i: nat | i < b - a
      ensures BlankLineAt(s[a..b], i) ==> BlankLineAt(s, a + i)
    {
    }
  }

  lemma CutSmooth(s: string, j: nat, clean: bool)
    requires j <= |s| && Smooth(s, clean)
    ensures Smooth(s[..j], clean) && Smooth(s[j..], clean)
  {
    assert s[0..j] == s[..j] && s[j..|s|] == s[j..];
    SliceSmooth(s, 0, j, clean);
    SliceSmooth(s, j, |s|, clean);
  }

  lemma StripIsSlice(s: string)
    ensures var a := |s| - |LStrip(s)|; a >= 0 && a + |Strip(s)| <= |s| && Strip(s) == s[a..a + |Strip(s)|]
  {
    var l := LStrip(s);
    DropWhileParts(s, IsSpace);
    RStripParts(l);
    assert Strip(s) == l[..|Strip(s)|];
  }

  lemma StripPlain(s: string, clean: bool)
    requires Strip(s) != "" && Smooth(s, clean)
    ensures Plain(Strip(s)) && Fine(Strip(s), clean)
  {
    StripEnds(s);
    StripIsSlice(s);
    SliceSmooth(s, |s| - |LStrip(s)|, |s| - |LStrip(s)| + |Strip(s)|, clean);
  }

  predicate AllSmooth(ss: seq<string>, clean: bool) {
    forall i | 0 <= i < |ss| :: Smooth(ss[i], clean)
  }

  predicate AllPlain(ss: seq<string>, clean: bool) {
    forall i | 0 <= i < |ss| :: Plain(ss[i]) && Fine(ss[i], clean)
  }

  // ---------------------------------------------------------------- segments are plain

  lemma {:induction false} StripAllPlain(ss: seq<string>, clean: bool)
    requires AllSmooth(ss, clean)
    ensures AllPlain(StripAll(ss), clean)
  {
    if ss != [] {
      StripAllPlain(ss[1..], clean);
      if Strip(ss[0]) != "" {
        StripPlain(ss[0], clean);
      }
    }
  }

  lemma PrependSmooth(head: string, rest: seq<string>, clean: bool)
    requires Smooth(head, clean) && AllSmooth(rest, clean)
    ensures AllSmooth([head] + rest, clean)
  {
  }

  lemma SuffixFine(rest: string, s: string, clean: bool)
    requires IsSuffix(rest, s) && Fine(s, clean)
    ensures Fine(rest, clean)
  {
    SliceFine(s, |s| - |rest|, |s|, clean);
    assert s[|s| - |rest|..|s|] == rest;
  }

  lemma {:induction false} ParagraphsSmooth(s: string, clean: bool)
    requires Fine(s, clean)
    ensures AllSmooth(SplitParagraphs(s), clean)
    decreases |s|
  {
    var i := FirstBlankLine(s);
    BeforeBlankLineSmooth(s, clean);
    if i < |s| {
      var rest := DropWhile(s[i..], IsNewline);
      DropWhileParts(s[i..], IsNewline);
      SuffixFine(s[i..], s, clean);
      SuffixFine(rest, s[i..], clean);
      ParagraphsSmooth(rest, clean);
      PrependSmooth(s[..i], SplitParagraphs(rest), clean);
    } else {
      assert s[..i] == s;
    }
  }

  lemma BeforeBlankLineSmooth(s: string, clean: bool)
    requires Fine(s, clean)
    ensures Smooth(s[..FirstBlankLine(s)], clean)
  {
    var i := FirstBlankLine(s);
    FirstBlankLineIsFirst(s);
    SliceFine(s, 0, i, clean);
    assert s[0..i] == s[..i];
    forall k: nat | k < i
      ensures !BlankLineAt(s[..i], k)
    {
      assert !BlankLineAt(s, k);
    }
  }

  lemma PartsSmooth(s: string, rest: string, clean: bool)
    requires IsSuffix(rest, s) && Smooth(s, clean)
    ensures Smooth(Before(s, rest), clean) && Smooth(rest, clean)
  {
    CutSmooth(s, |s| - |rest|, clean);
  }

  lemma {:induction false} SentencesSmooth(s: string, clean: bool)
    requires Smooth(s, clean)
    ensures AllSmooth(FindSentences(s), clean)
    decreases |s|
  {
    if s == [] {
    } else if IsTerminator(s[0]) {
      CutSmooth(s, 1, clean);
      SentencesSmooth(s[1..], clean);
    } else {
      var rest := AfterSentence(s);
      AfterSentenceSuffix(s);
      PartsSmooth(s, rest, clean);
      SentencesSmooth(rest, clean);
      PrependSmooth(Before(s, rest), FindSentences(rest), clean);
    }
  }

  /** A word: at least one character, none of them whitespace. */
  predicate IsWord(s: string) {
    s != "" && forall i | 0 <= i < |s| :: !IsSpace(s[i])
  }

  lemma WordPlain(s: string, clean: bool)
    requires IsWord(s)
    ensures Plain(s) && Fine(s, clean)
  {
  }

  predicate AllWords(ss: seq<string>) {
    forall i | 0 <= i < |ss| :: IsWord(ss[i])
  }

  lemma {:induction false} WordsOfTrimmed(s: string)
    requires Trimmed(s)
    ensures AllWords(SplitWords(s))
    decreases |s|
  {
    var rest := DropWhile(s, NotSpace);
    DropWhileParts(s, NotSpace);
    if rest != [] {
      var next := DropWhile(rest, IsSpace);
      assert IsWord(Before(s, rest));
      AfterGap(s, rest);
      WordsOfTrimmed(next);
      PrependWord(Before(s, rest), SplitWords(next));
    } else {
      assert IsWord(s);
      assert SplitWords(s) == [s];
    }
  }

  lemma PrependWord(head: string, rest: seq<string>)
    requires IsWord(head) && AllWords(rest)
    ensures AllWords([head] + rest)
  {
  }

  lemma AfterGap(s: string, rest: string)
    requires Trimmed(s) && IsSuffix(rest, s) && rest != []
    ensures Trimmed(DropWhile(rest, IsSpace))
  {
    DropWhileParts(rest, IsSpace);
    assert rest[|rest| - 1] == s[|s| - 1];
  }

  lemma WordsPlain(ss: seq<string>, clean: bool)
    requires AllWords(ss)
    ensures AllPlain(ss, clean)
  {
    forall i | 0 <= i < |ss|
      ensures Plain(ss[i]) && Fine(ss[i], clean)
    {
      WordPlain(ss[i], clean);
    }
  }

  predicate SegmentsPlain(segments: seq<Segment>, clean: bool) {
    forall i | 0 <= i < |segments| :: Plain(segments[i].text) && Fine(segments[i].text, clean)
  }

  lemma LabelledPlain(texts: seq<string>, clean: bool)
    ensures AllPlain(texts, clean) ==> SegmentsPlain(Labelled(texts), clean)
  {
  }

  lemma ExpandPlain(paragraph: string, maxLength: int, clean: bool)
    requires Plain(paragraph) && Fine(paragraph, clean)
    ensures SegmentsPlain(ExpandParagraph(paragraph, maxLength), clean)
  {
    if |paragraph| > maxLength {
      SentencesSmooth(paragraph, clean);
      StripAllPlain(FindSentences(paragraph), clean);
      WordsOfTrimmed(paragraph);
      WordsPlain(SplitWords(paragraph), clean);
      LabelledPlain(StripAll(FindSentences(paragraph)), clean);
      LabelledPlain(SplitWords(paragraph), clean);
    }
  }

  lemma {:induction false} ExpandAllPlain(paragraphs: seq<string>, maxLength: int, clean: bool)
    requires AllPlain(paragraphs, clean)
    ensures SegmentsPlain(ExpandAll(paragraphs, maxLength), clean)
  {
    if paragraphs != [] {
      ExpandAllPlain(paragraphs[..|paragraphs| - 1], maxLength, clean);
      ExpandPlain(paragraphs[|paragraphs| - 1], maxLength, clean);
    }
  }

  lemma SegmentsArePlain(text: string, maxLength: int, clean: bool)
    requires Fine(Normalize(text), clean)
    ensures SegmentsPlain(Segments(text, maxLength), clean)
  {
    ParagraphsSmooth(Normalize(text), clean);
    StripAllPlain(SplitParagraphs(Normalize(text)), clean);
    ExpandAllPlain(Paragraphs(text), maxLength, clean);
  }

  // ---------------------------------------------------------------- chunks are tidy

  predicate PackingTidy(p: Packing, clean: bool) {
    && (p.current != "" ==> Tidy(p.current) && Fine(p.current, clean))
    && forall i | 0 <= i < |p.chunks| :: Tidy(p.chunks[i]) && Fine(p.chunks[i], clean)
  }

  lemma JoinTidy(a: string, joiner: string, b: string, clean: bool)
    requires Tidy(a) && Fine(a, clean) && Plain(b) && Fine(b, clean) && (joiner == " " || joiner == "\n\n")
    ensures Tidy(a + joiner + b) && Fine(a + joiner + b, clean)
  {
    var s, n, m := a + joiner + b, |a|, |a| + |joiner|;
    forall i: nat | i < |s|
      ensures BlankLineAt(s, i) ==> CleanBreak(s, i)
      ensures clean ==> !CrLfAt(s, i)
    {
      if i + 1 < n {
        assert BlankLineAt(s, i) == BlankLineAt(a, i) && CrLfAt(s, i) == CrLfAt(a, i);
      } else if i >= m {
        assert BlankLineAt(s, i) == BlankLineAt(b, i - m) && CrLfAt(s, i) == CrLfAt(b, i - m);
      }
    }
  }

  lemma {:induction false} HardSplitTidy(word: string, maxLength: nat, clean: bool)
    requires maxLength > 0 && forall i | 0 <= i < |word| :: !IsSpace(word[i])
    ensures PackingTidy(HardSplit(word, maxLength), clean)
  {
    if |word| >= maxLength {
      WordPlain(word[..maxLength], clean);
      HardSplitTidy(word[maxLength..], maxLength, clean);
    } else if word != "" {
      WordPlain(word, clean);
    }
  }

  lemma {:induction false} PackWordsTidy(words: seq<string>, maxLength: nat, clean: bool)
    requires maxLength > 0 && AllWords(words)
    ensures PackingTidy(PackWords(words, maxLength), clean)
  {
    if words != [] {
      var p, word := PackWords(words[..|words| - 1], maxLength), words[|words| - 1];
      PackWordsTidy(words[..|words| - 1], maxLength, clean);
      WordPlain(word, clean);
      HardSplitTidy(word, maxLength, clean);
      if p.current != "" {
        JoinTidy(p.current, " ", word, clean);
      }
    }
  }

  lemma AddSegmentTidy(p: Packing, segment: Segment, maxLength: nat, clean: bool)
    requires maxLength > 0 && PackingTidy(p, clean) && Plain(segment.text)
    requires |segment.text| <= maxLength ==> Fine(segment.text, clean)
    ensures PackingTidy(AddSegment(p, segment, maxLength), clean)
  {
    if |segment.text| > maxLength {
      WordsOfTrimmed(segment.text);
      PackWordsTidy(SplitWords(segment.text), maxLength, clean);
    } else if p.current != "" {
      JoinTidy(p.current, if segment.separator == Blank then "\n\n" else " ", segment.text, clean);
    }
  }

  /** No segment that fits holds "\r\n"; the others are packed by words, which hold no whitespace. */
  predicate FittingClean(segments: seq<Segment>, maxLength: nat) {
    forall i | 0 <= i < |segments| && |segments[i].text| <= maxLength :: NoCrLf(segments[i].text)
  }

  lemma {:induction false} PackSegmentsTidy(segments: seq<Segment>, maxLength: nat, clean: bool)
    requires maxLength > 0 && SegmentsPlain(segments, false) && (clean ==> FittingClean(segments, maxLength))
    ensures PackingTidy(PackSegments(segments, maxLength), clean)
  {
    if segments != [] {
      var p, segment := PackSegments(segments[..|segments| - 1], maxLength), segments[|segments| - 1];
      PackSegmentsTidy(segments[..|segments| - 1], maxLength, clean);
      AddSegmentTidy(p, segment, maxLength, clean);
    }
  }

  lemma ChunksTidy(text: string, maxLength: nat, clean: bool)
    requires maxLength > 0 && Fine(Normalize(text), clean)
    ensures forall i | 0 <= i < |Chunks(text, maxLength)| ::
              Tidy(Chunks(text, maxLength)[i]) && Fine(Chunks(text, maxLength)[i], clean)
  {
    SegmentsArePlain(text, maxLength, clean);
    PackSegmentsTidy(Segments(text, maxLength), maxLength, clean);
  }

  // ---------------------------------------------------------------- texts that fit whole

  function JoinBlank(paragraphs: seq<string>): string {
    if paragraphs == [] then ""
    else if |paragraphs| == 1 then paragraphs[0]
    else JoinBlank(paragraphs[..|paragraphs| - 1]) + "\n\n" + paragraphs[|paragraphs| - 1]
  }

  lemma {:induction false} JoinBlankCons(head: string, rest: seq<string>)
    requires rest != []
    ensures JoinBlank([head] + rest) == head + "\n\n" + JoinBlank(rest)
  {
    var all := [head] + rest;
    if |rest| > 1 {
      JoinBlankCons(head, rest[..|rest| - 1]);
      assert all[..|all| - 1] == [head] + rest[..|rest| - 1];
    } else {
      assert all[..|all| - 1] == [head];
    }
  }

  /** Paragraphs whose joined length fits go out as one chunk, unchanged. */
  lemma {:induction false} FitsWhole(paragraphs: seq<string>, maxLength: nat)
    requires paragraphs != [] && 0 < |JoinBlank(paragraphs)| <= maxLength
    requires forall i | 0 <= i < |paragraphs| :: paragraphs[i] != ""
    ensures PackSegments(ExpandAll(paragraphs, maxLength), maxLength) == Packing([], JoinBlank(paragraphs))
  {
    var init, last := paragraphs[..|paragraphs| - 1], paragraphs[|paragraphs| - 1];
    var before := ExpandAll(init, maxLength);
    assert ExpandAll(paragraphs, maxLength) == before + [Segment(last, Blank)];
    assert (before + [Segment(last, Blank)])[..|before|] == before;
    if init != [] {
      assert |JoinBlank(init)| >= |init[|init| - 1]| > 0;
      FitsWhole(init, maxLength);
    } else {
      assert before == [];
    }
  }

  /** The first break of a tidy text leaves a trimmed paragraph before it and a tidy text after it. */
  lemma TidyBreak(s: string)
    requires Tidy(s) && FirstBlankLine(s) < |s|
    ensures var i := FirstBlankLine(s); i + 2 < |s| && Trimmed(s[..i]) && Tidy(s[i + 2..])
  {
    var i := FirstBlankLine(s);
    FirstBlankLineIsFirst(s);
    assert CleanBreak(s, i);
    TidySuffix(s, i + 2);
  }

  lemma TidySuffix(s: string, m: nat)
    requires Tidy(s) && m < |s| && !IsSpace(s[m])
    ensures Tidy(s[m..])
  {
    var rest := s[m..];
    forall k: nat | k < |rest|
      ensures BlankLineAt(rest, k) ==> CleanBreak(rest, k)
    {
      BreakInSuffix(s, m, k);
    }
  }

  lemma BreakInSuffix(s: string, m: nat, k: nat)
    requires m + k < |s| && !IsSpace(s[m])
    requires BlankLineAt(s, m + k) ==> CleanBreak(s, m + k)
    ensures BlankLineAt(s[m..], k) ==> CleanBreak(s[m..], k)
  {
    assert s[m..][0] == s[m];
  }

  /** The scan resumes right behind a pair of newlines that a visible character follows. */
  lemma SplitAtPair(s: string)
    requires FirstBlankLine(s) + 2 < |s| && !IsSpace(s[FirstBlankLine(s) + 2])
    ensures var i := FirstBlankLine(s); SplitParagraphs(s) == [s[..i]] + SplitParagraphs(s[i + 2..])
  {
    var i := FirstBlankLine(s);
    FirstBlankLineIsFirst(s);
    DropPair(s[i..]);
    assert s[i..][2..] == s[i + 2..];
  }

  lemma DropPair(s: string)
    requires |s| > 2 && BlankLineAt(s, 0) && !IsSpace(s[2])
    ensures DropWhile(s, IsNewline) == s[2..]
  {
    assert DropWhile(s, IsNewline) == DropWhile(s[1..], IsNewline);
    assert s[1..][0] == s[1] && s[1..][1..] == s[2..];
    assert DropWhile(s[1..], IsNewline) == DropWhile(s[2..], IsNewline);
    assert s[2..][0] == s[2];
  }

  /** A text in one paragraph is that paragraph. */
  lemma OneParagraph(s: string)
    requires Trimmed(s) && FirstBlankLine(s) == |s|
    ensures JoinBlank(StripAll(SplitParagraphs(s))) == s
  {
    StripOne(s, []);
    assert [s] + [] == [s];
  }

  lemma JoinParts(head: string, rest: string, paragraphs: seq<string>)
    requires Trimmed(head) && rest != "" && JoinBlank(StripAll(paragraphs)) == rest
    ensures JoinBlank(StripAll([head] + paragraphs)) == head + "\n\n" + rest
  {
    StripOne(head, paragraphs);
    JoinBlankCons(head, StripAll(paragraphs));
  }

  lemma AroundBreak(s: string)
    requires Tidy(s) && FirstBlankLine(s) < |s|
    ensures FirstBlankLine(s) + 2 < |s|
    ensures s[..FirstBlankLine(s)] + "\n\n" + s[FirstBlankLine(s) + 2..] == s
  {
    FirstBlankLineIsFirst(s);
    assert CleanBreak(s, FirstBlankLine(s));
    AroundPair(s, FirstBlankLine(s));
  }

  lemma AroundPair(s: string, i: nat)
    requires i + 2 <= |s| && s[i] == '\n' && s[i + 1] == '\n'
    ensures s[..i] + "\n\n" + s[i + 2..] == s
  {
    assert s[i..i + 2] == "\n\n";
    assert s == s[..i] + s[i..i + 2] + s[i + 2..];
  }

  /** A tidy text is its paragraphs joined by blank lines. */
  lemma {:induction false} TidyRoundTrip(s: string)
    requires Tidy(s)
    ensures JoinBlank(StripAll(SplitParagraphs(s))) == s
    decreases |s|
  {
    if FirstBlankLine(s) == |s| {
      OneParagraph(s);
    } else {
      var i := FirstBlankLine(s);
      TidyBreak(s);
      SplitAtPair(s);
      TidyRoundTrip(s[i + 2..]);
      JoinParts(s[..i], s[i + 2..], SplitParagraphs(s[i + 2..]));
      AroundBreak(s);
    }
  }

  lemma StripOne(head: string, rest: seq<string>)
    requires Trimmed(head)
    ensures StripAll([head] + rest) == [head] + StripAll(rest)
  {
    StripIdentity(head);
    assert ([head] + rest)[1..] == rest;
  }

  /** A text with a blank line splits into what precedes it and the rest, at least two newlines later. */
  lemma SplitStep(s: string) returns (head: string, tail: string)
    requires FirstBlankLine(s) < |s|
    ensures SplitParagraphs(s) == [head] + SplitParagraphs(tail)
    ensures |head| + 2 + |tail| <= |s|
  {
    var i := FirstBlankLine(s);
    FirstBlankLineIsFirst(s);
    NewlineRun(s[i..]);
    head, tail := s[..i], DropWhile(s[i..], IsNewline);
  }

  /** Splitting into paragraphs and joining them again never lengthens a text. */
  lemma {:induction false} JoinLength(s: string)
    ensures |JoinBlank(StripAll(SplitParagraphs(s)))| <= |s|
    decreases |s|
  {
    if FirstBlankLine(s) == |s| {
      JoinHeadLength(s, []);
      assert [s] + [] == [s];
    } else {
      var head, tail := SplitStep(s);
      var rest := SplitParagraphs(tail);
      JoinLength(tail);
      JoinHeadLength(head, rest);
    }
  }

  lemma NewlineRun(s: string)
    requires |s| > 0 && BlankLineAt(s, 0)
    ensures |DropWhile(s, IsNewline)| + 2 <= |s|
  {
    assert s[1..][0] == '\n';
  }

  lemma JoinHeadLength(head: string, rest: seq<string>)
    ensures |JoinBlank(StripAll([head] + rest))| <= |head| + if rest == [] then 0 else 2 + |JoinBlank(StripAll(rest))|
  {
    StripEnds(head);
    var h, others := Strip(head), StripAll(rest);
    assert ([head] + rest)[1..] == rest;
    assert StripAll([head] + rest) == (if h == "" then [] else [h]) + others;
    if h == "" {
      assert StripAll([head] + rest) == others;
    } else if others == [] {
      assert StripAll([head] + rest) == [h];
    } else {
      JoinBlankCons(h, others);
    }
  }

  lemma {:induction false} ReplaceShrinks(s: string)
    ensures |ReplaceCrLf(s)| <= |s|
    ensures |ReplaceCrLf(s)| == |s| ==> NoCrLf(s)
    decreases |s|
  {
    if CrLfAt(s, 0) {
      ReplaceShrinks(s[2..]);
    } else if s != [] {
      ReplaceShrinks(s[1..]);
      forall i: nat | 0 < i < |s|
        ensures CrLfAt(s, i) == CrLfAt(s[1..], i - 1)
      {
      }
    }
  }

  // ---------------------------------------------------------------- the fixed-point theorems

  /** A text that is tidy once normalized, and fits, is delivered whole. */
  lemma TidyFits(text: string, maxLength: nat)
    requires Tidy(Normalize(text)) && |Normalize(text)| <= maxLength
    ensures Chunks(text, maxLength) == [Normalize(text)]
  {
    TidyRoundTrip(Normalize(text));
    StrippedEndVisibly(SplitParagraphs(Normalize(text)));
    FitsWhole(Paragraphs(text), maxLength);
  }

  lemma NormalizeClean(c: string)
    requires Trimmed(c) && NoCrLf(c)
    ensures Normalize(c) == c
  {
    forall i | 0 <= i < |c| - 1
      ensures !(c[i] == '\r' && c[i + 1] == '\n')
    {
      assert !CrLfAt(c, i);
    }
    NothingToReplace(c);
    StripIdentity(c);
  }

  /** A chunk without "\r\n" comes back as it is. */
  lemma CleanChunkIsFixed(c: string, maxLength: nat)
    requires 0 < |c| <= maxLength && Tidy(c) && NoCrLf(c)
    ensures Chunks(c, maxLength) == [c]
  {
    NormalizeClean(c);
    TidyFits(c, maxLength);
  }

  /** A chunk that still holds "\r\n" comes back shorter. */
  lemma CrLfChunkChanges(c: string, maxLength: nat)
    requires 0 < |c| <= maxLength && !NoCrLf(c)
    ensures Chunks(c, maxLength) != [c]
  {
    var normalized, paragraphs := Normalize(c), Paragraphs(c);
    ReplaceShrinks(c);
    StripEnds(ReplaceCrLf(c));
    JoinLength(normalized);
    if paragraphs == [] {
      assert Chunks(c, maxLength) == [];
    } else {
      StrippedEndVisibly(SplitParagraphs(normalized));
      JoinNonempty(paragraphs);
      FitsWhole(paragraphs, maxLength);
      assert Chunks(c, maxLength) == [JoinBlank(paragraphs)];
    }
  }

  lemma JoinNonempty(paragraphs: seq<string>)
    requires paragraphs != [] && forall i | 0 <= i < |paragraphs| :: paragraphs[i] != ""
    ensures JoinBlank(paragraphs) != ""
  {
  }

  /** Chunking a chunk gives that chunk back if and only if it holds no "\r\n". */
  lemma ChunkIsFixedIff(text: string, maxLength: nat, k: nat)
    requires maxLength > 0 && k < |Chunks(text, maxLength)|
    ensures var c := Chunks(text, maxLength)[k]; Chunks(c, maxLength) == [c] <==> NoCrLf(c)
  {
    var c := Chunks(text, maxLength)[k];
    ChunksSized(text, maxLength);
    ChunksTidy(text, maxLength, false);
    if NoCrLf(c) {
      CleanChunkIsFixed(c, maxLength);
    } else {
      CrLfChunkChanges(c, maxLength);
    }
  }

  predicate AllFixed(chunks: seq<string>, maxLength: nat)
    requires maxLength > 0
  {
    forall k | 0 <= k < |chunks| :: Chunks(chunks[k], maxLength) == [chunks[k]]
  }

  /** Every chunk of a text is a fixed point if and only if no segment of it that fits holds "\r\n". */
  lemma AllFixedIff(text: string, maxLength: nat)
    requires maxLength > 0
    ensures AllFixed(Chunks(text, maxLength), maxLength) <==> FittingClean(Segments(text, maxLength), maxLength)
  {
    var segments, chunks := Segments(text, maxLength), Chunks(text, maxLength);
    SegmentsArePlain(text, maxLength, false);
    forall k: nat | k < |chunks|
      ensures Chunks(chunks[k], maxLength) == [chunks[k]] <==> NoCrLf(chunks[k])
    {
      ChunkIsFixedIff(text, maxLength, k);
    }
    if FittingClean(segments, maxLength) {
      PackSegmentsTidy(segments, maxLength, true);
    } else {
      var i :| 0 <= i < |segments| && |segments[i].text| <= maxLength && !NoCrLf(segments[i].text);
      SegmentOccurs(segments, maxLength, i);
      var k :| 0 <= k < |chunks| && Occurs(segments[i].text, chunks[k]);
      CrLfOccurs(segments[i].text, chunks[k]);
    }
  }

  lemma CrLfOccurs(w: string, chunk: string)
    requires Occurs(w, chunk) && !NoCrLf(w)
    ensures !NoCrLf(chunk)
  {
    var i :| 0 <= i <= |chunk| && OccursAt(w, chunk, i);
    var j: nat :| j < |w| && CrLfAt(w, j);
    assert w == chunk[i..i + |w|];
    assert CrLfAt(chunk, i + j);
  }

  /** A carriage return in front of "\r\n": what one round of normalization leaves behind. */
  predicate DoubledCrAt(s: string, i: nat) {
    i + 2 < |s| && s[i] == '\r' && s[i + 1] == '\r' && s[i + 2] == '\n'
  }

  lemma {:induction false} ReplaceLeavesNoCrLf(s: string)
    requires forall i: nat | i < |s| :: !DoubledCrAt(s, i)
    ensures NoCrLf(ReplaceCrLf(s))
    decreases |s|
  {
    if s != [] {
      var skip := if CrLfAt(s, 0) then 2 else 1;
      var rest := s[skip..];
      forall i: nat | i < |rest|
        ensures !DoubledCrAt(rest, i)
      {
        assert !DoubledCrAt(s, skip + i);
      }
      ReplaceLeavesNoCrLf(rest);
      var r := ReplaceCrLf(rest);
      var all := [if skip == 2 then '\n' else s[0]] + r;
      assert ReplaceCrLf(s) == all;
      forall i: nat | 0 < i < |all|
        ensures CrLfAt(all, i) == CrLfAt(r, i - 1)
      {
      }
      assert !DoubledCrAt(s, 0) && !CrLfAt(all, 0);
    }
  }

  lemma NormalizedIsClean(text: string)
    requires forall i: nat | i < |text| :: !DoubledCrAt(text, i)
    ensures NoCrLf(Normalize(text))
  {
    var replaced := ReplaceCrLf(text);
    ReplaceLeavesNoCrLf(text);
    StripIsSlice(replaced);
    var a := |replaced| - |LStrip(replaced)|;
    SliceFine(replaced, a, a + |Strip(replaced)|, true);
  }

  /** In particular, every chunk of a text without "\r\r\n", hence of any text without carriage returns, is fixed. */
  lemma ChunksAreFixed(text: string, maxLength: nat, k: nat)
    requires maxLength > 0 && k < |Chunks(text, maxLength)|
    requires forall i: nat | i < |text| :: !DoubledCrAt(text, i)
    ensures Chunks(Chunks(text, maxLength)[k], maxLength) == [Chunks(text, maxLength)[k]]
  {
    NormalizedIsClean(text);
    ChunksTidy(text, maxLength, true);
    ChunkIsFixedIff(text, maxLength, k);
  }

  /** The neighbours of a chunked text never fit into one chunk, except right before an over-long segment. */
  lemma ChunksNearGreedy(text: string, maxLength: nat)
    requires maxLength > 0
    ensures NearGreedy(Segments(text, maxLength), maxLength)
  {
    SegmentsArePlain(text, maxLength, false);
    PackSegmentsNearGreedy(Segments(text, maxLength), maxLength);
  }

  /** A text whose only chunk does change: one carriage return too many survives the first round. */
  lemma DoubledCrIsNotFixed()
    ensures Chunks("a\r\r\nb", 9) == ["a\r\nb"]
    ensures Chunks("a\r\nb", 9) == ["a\nb"]
  {
    ReplaceInLine();
    InLine("a\r\r\nb", "a\r\nb");
    InLine("a\r\nb", "a\nb");
  }

  lemma InLine(text: string, replaced: string)
    requires ReplaceCrLf(text) == replaced && Trimmed(replaced) && |replaced| <= 9 && NoBlankLine(replaced)
    ensures Chunks(text, 9) == [replaced]
  {
    StripIdentity(replaced);
    TidyFits(text, 9);
  }

  lemma ReplaceInLine()
    ensures ReplaceCrLf("a\r\nb") == "a\nb"
    ensures ReplaceCrLf("a\r\r\nb") == "a\r\nb"
  {
    assert "b"[1..] == "" && ReplaceCrLf("b") == "b";
    assert "\r\nb"[2..] == "b" && ReplaceCrLf("\r\nb") == "\nb";
    assert "a\r\nb"[1..] == "\r\nb" == "\r\r\nb"[1..];
    assert "a\r\r\nb"[1..] == "\r\r\nb";
  }
}
