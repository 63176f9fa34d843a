/** The words of the chunks, in terms of the text itself: sentences add cuts behind terminators, and nothing else. */
module ChunkingTokens {
  import opened Text
  import opened Chunking
  import opened ChunkingConservation
  import opened ChunkingFixpoint
  import opened ChunkingWords

  // ---------------------------------------------------------------- cutting behind terminators

  lemma AfterSentenceShorter(s: string)
    requires s != ""
    ensures |AfterSentence(s)| < |s|
  {
    if IsTerminator(s[0]) {
      assert DropWhile(s, NotTerminator) == s;
    }
  }

  /** Cut behind every run of terminators. */
  function CutBehindRuns(s: string): seq<string>
    decreases |s|
  {
    if s == "" then []
    else
      AfterSentenceShorter(s);
      [Before(s, AfterSentence(s))] + CutBehindRuns(AfterSentence(s))
  }

  function CutEachBehindRuns(words: seq<string>): seq<string> {
    if words == [] then [] else CutBehindRuns(words[0]) + CutEachBehindRuns(words[1..])
  }

  /** But for the terminators it skips at the start, the sentence scan cuts just there. */
  lemma {:induction false} SentencesCutBehindRuns(s: string)
    ensures FindSentences(s) == CutBehindRuns(DropWhile(s, IsTerminator))
    decreases |s|
  {
    if s != "" {
      if IsTerminator(s[0]) {
        SentencesCutBehindRuns(s[1..]);
      } else {
        var rest := AfterSentence(s);
        AfterSentenceSuffix(s);
        SentencesCutBehindRuns(rest);
        assert DropWhile(rest, IsTerminator) == rest;
      }
    }
  }

  // ---------------------------------------------------------------- both cuts at once

  predicate Ordinary(c: char) {
    !IsSpace(c) && !IsTerminator(c)
  }

  function AfterToken(s: string): string {
    DropWhile(DropWhile(s, Ordinary), IsTerminator)
  }

  lemma AfterTokenShorter(s: string)
    requires s != "" && !IsSpace(s[0])
    ensures |AfterToken(s)| < |s|
  {
    if IsTerminator(s[0]) {
      assert DropWhile(s, Ordinary) == s;
    }
  }

  /** The maximal visible runs, cut behind every run of terminators. */
  function Tokens(s: string): seq<string>
    decreases |s|
  {
    if s == "" then []
    else if IsSpace(s[0]) then Tokens(s[1..])
    else
      AfterTokenShorter(s);
      [Before(s, AfterToken(s))] + Tokens(AfterToken(s))
  }

  /** A scan that stops inside `a`, or at the seam, does not look into `b`. */
  lemma {:induction false} DropAcross(a: string, b: string, p: char -> bool)
    requires DropWhile(a, p) != "" || b == "" || !p(b[0])
    ensures DropWhile(a + b, p) == DropWhile(a, p) + b
  {
    AppendTail(a, b);
    if a != "" && p(a[0]) {
      DropAcross(a[1..], b, p);
    }
  }

  /** No token crosses a seam in front of whitespace, or behind a terminator that another character follows. */
  predicate Seam(a: string, b: string) {
    || b == ""
    || IsSpace(b[0])
    || (a != "" && IsTerminator(a[|a| - 1]) && !IsTerminator(b[0]))
  }

  lemma SeamLater(a: string, rest: string, b: string)
    requires Seam(a, b) && IsSuffix(rest, a) && rest != ""
    ensures Seam(rest, b)
  {
    assert rest[|rest| - 1] == a[|a| - 1];
  }

  /** The ordinary start of a token does not reach over a seam. */
  lemma RunBeforeSeam(a: string, b: string)
    requires a != "" && !IsSpace(a[0]) && Seam(a, b)
    ensures DropWhile(a + b, Ordinary) == DropWhile(a, Ordinary) + b
    ensures DropWhile(a, Ordinary) != "" ==> Seam(DropWhile(a, Ordinary), b)
    ensures DropWhile(a, Ordinary) == "" ==> b == "" || IsSpace(b[0])
  {
    var run := DropWhile(a, Ordinary);
    DropWhileParts(a, Ordinary);
    if run == "" {
      assert Ordinary(a[|a| - 1]);
    } else {
      SeamLater(a, run, b);
    }
    DropAcross(a, b, Ordinary);
  }

  /** Neither do the terminators that close it. */
  lemma TokenBeforeSeam(a: string, b: string)
    requires a != "" && !IsSpace(a[0]) && Seam(a, b)
    ensures AfterToken(a + b) == AfterToken(a) + b
  {
    var run := DropWhile(a, Ordinary);
    RunBeforeSeam(a, b);
    DropAcross(run, b, IsTerminator);
  }

  lemma AfterTokenSuffix(s: string)
    ensures IsSuffix(AfterToken(s), s)
  {
    DropWhileParts(s, Ordinary);
    DropWhileParts(DropWhile(s, Ordinary), IsTerminator);
    SuffixTransitive(AfterToken(s), DropWhile(s, Ordinary), s);
  }

  lemma {:induction false} TokensAcrossSeam(a: string, b: string)
    requires Seam(a, b) || a == ""
    ensures Tokens(a + b) == Tokens(a) + Tokens(b)
    decreases |a|
  {
    AppendTail(a, b);
    if a != "" {
      if IsSpace(a[0]) {
        if a[1..] != "" {
          SeamLater(a, a[1..], b);
        }
        TokensAcrossSeam(a[1..], b);
      } else {
        var rest := AfterToken(a);
        AfterTokenShorter(a);
        TokenBeforeSeam(a, b);
        AfterTokenSuffix(a);
        BeforeGap(a, rest, b);
        if rest != "" {
          SeamLater(a, rest, b);
        }
        TokensAcrossSeam(rest, b);
        Regroup([Before(a, rest)], Tokens(rest), Tokens(b));
      }
    }
  }

  // ---------------------------------------------------------------- words, then sentences

  lemma {:induction false} SameRun(s: string)
    requires forall i | 0 <= i < |s| :: !IsSpace(s[i])
    ensures DropWhile(s, Ordinary) == DropWhile(s, NotTerminator)
  {
    if s != "" && Ordinary(s[0]) {
      SameRun(s[1..]);
    }
  }

  /** Without whitespace, tokens are cut behind terminators only. */
  lemma {:induction false} TokensOfWord(s: string)
    requires forall i | 0 <= i < |s| :: !IsSpace(s[i])
    ensures Tokens(s) == CutBehindRuns(s)
    decreases |s|
  {
    if s != "" {
      var rest := AfterSentence(s);
      SameRun(s);
      AfterSentenceShorter(s);
      AfterSentenceSuffix(s);
      TokensOfWord(rest);
    }
  }

  lemma {:induction false} TokensOfWords(s: string)
    ensures CutEachBehindRuns(WordsOf(s)) == Tokens(s)
    decreases |s|
  {
    if s != "" {
      if IsSpace(s[0]) {
        TokensOfWords(s[1..]);
      } else {
        var rest := DropWhile(s, NotSpace);
        var word := Before(s, rest);
        DropWhileParts(s, NotSpace);
        SuffixParts(s, rest);
        TokensOfWords(rest);
        TokensOfWord(word);
        TokensAcrossSeam(word, rest);
        EachCons(word, WordsOf(rest));
      }
    }
  }

  lemma EachCons(word: string, words: seq<string>)
    ensures CutEachBehindRuns([word] + words) == CutBehindRuns(word) + CutEachBehindRuns(words)
  {
    assert ([word] + words)[1..] == words;
  }

  // ---------------------------------------------------------------- sentences, then words

  /** Nothing but terminators follows a terminator. */
  predicate OneSentence(s: string) {
    forall i, j | 0 <= i < j < |s| :: IsTerminator(s[i]) ==> IsTerminator(s[j])
  }

  lemma {:induction false} AllDropped(s: string, p: char -> bool)
    requires forall i | 0 <= i < |s| :: p(s[i])
    ensures DropWhile(s, p) == ""
  {
    if s != "" {
      AllDropped(s[1..], p);
    }
  }

  /** In one sentence, a word ends where a token does. */
  lemma {:induction false} SameEnd(s: string)
    requires OneSentence(s) && s != "" && !IsSpace(s[0])
    ensures AfterToken(s) == DropWhile(s, NotSpace)
  {
    if IsTerminator(s[0]) {
      assert forall i | 0 <= i < |s| :: IsTerminator(s[i]) && NotSpace(s[i]);
      assert DropWhile(s, Ordinary) == s;
      AllDropped(s, IsTerminator);
      AllDropped(s, NotSpace);
    } else {
      var tail := s[1..];
      assert forall i, j | 0 <= i < j < |tail| :: tail[i] == s[i + 1] && tail[j] == s[j + 1];
      assert DropWhile(s, Ordinary) == DropWhile(tail, Ordinary);
      if tail != "" && !IsSpace(tail[0]) {
        SameEnd(tail);
      } else {
        assert DropWhile(tail, Ordinary) == tail == DropWhile(tail, IsTerminator) == DropWhile(tail, NotSpace);
      }
    }
  }

  lemma {:induction false} WordsOfSentence(s: string)
    requires OneSentence(s)
    ensures WordsOf(s) == Tokens(s)
    decreases |s|
  {
    if s != "" {
      var rest := if IsSpace(s[0]) then s[1..] else DropWhile(s, NotSpace);
      DropWhileParts(s, NotSpace);
      assert forall i, j | 0 <= i < j < |rest| :: rest[i] == s[i + |s| - |rest|] && rest[j] == s[j + |s| - |rest|];
      WordsOfSentence(rest);
      if !IsSpace(s[0]) {
        SameEnd(s);
      }
    }
  }

  /** Ordinary text and then terminators: one sentence. */
  lemma RunThenTerminators(s: string, start: nat)
    requires start <= |s|
    requires forall i | 0 <= i < start :: !IsTerminator(s[i])
    requires forall i | start <= i < |s| :: IsTerminator(s[i])
    ensures OneSentence(s)
  {
  }

  /** The terminators behind a run are those that `run` opens with. */
  lemma TerminatorsAt(s: string, run: string)
    requires IsSuffix(run, s)
    ensures var rest, start := DropWhile(run, IsTerminator), |s| - |run|;
            forall i | start <= i < |s| - |rest| :: IsTerminator(s[i])
  {
    DropWhileParts(run, IsTerminator);
    var start := |s| - |run|;
    assert forall i | start <= i < |s| :: s[i] == run[i - start];
  }

  /** What is cut off at the front: ordinary text up to some point, and terminators from there on. */
  lemma FirstSentenceParts(s: string) returns (start: nat)
    ensures start <= |s| - |AfterSentence(s)| && IsSuffix(AfterSentence(s), s)
    ensures forall i | 0 <= i < start :: !IsTerminator(s[i])
    ensures forall i | start <= i < |s| - |AfterSentence(s)| :: IsTerminator(s[i])
    ensures AfterSentence(s) != "" ==> start < |s| - |AfterSentence(s)|
  {
    var run := DropWhile(s, NotTerminator);
    DropWhileParts(s, NotTerminator);
    AfterSentenceSuffix(s);
    TerminatorsAt(s, run);
    start := |s| - |run|;
  }

  /** What is cut off at the front is one sentence, and a seam follows it. */
  lemma FirstSentence(s: string)
    requires s != ""
    ensures var rest := AfterSentence(s);
            IsSuffix(rest, s) && OneSentence(Before(s, rest)) && Seam(Before(s, rest), rest)
  {
    var start := FirstSentenceParts(s);
    AfterSentenceSuffix(s);
    RunThenTerminators(Before(s, AfterSentence(s)), start);
  }

  lemma WordsOfOne(s: string)
    ensures AllWordsOf([s]) == WordsOf(s)
  {
    assert [s][..0] == [];
    assert AllWordsOf([]) == [];
  }

  lemma AllWordsCons(s: string, ss: seq<string>)
    ensures AllWordsOf([s] + ss) == WordsOf(s) + AllWordsOf(ss)
  {
    AllWordsAppend([s], ss);
    WordsOfOne(s);
  }

  lemma {:induction false} WordsOfSentences(s: string)
    ensures AllWordsOf(CutBehindRuns(s)) == Tokens(s)
    decreases |s|
  {
    if s != "" {
      var rest := AfterSentence(s);
      AfterSentenceShorter(s);
      FirstSentence(s);
      WordsOfSentences(rest);
      AllWordsCons(Before(s, rest), CutBehindRuns(rest));
      WordsOfSentence(Before(s, rest));
      SuffixParts(s, rest);
      TokensAcrossSeam(Before(s, rest), rest);
    }
  }

  /** Cutting a text behind terminators and taking the words is taking the words and cutting those. */
  lemma SentencesCutWords(s: string)
    ensures AllWordsOf(CutBehindRuns(s)) == CutEachBehindRuns(WordsOf(s))
  {
    WordsOfSentences(s);
    TokensOfWords(s);
  }

  // ---------------------------------------------------------------- from the text to the segments

  /** The words of a paragraph as the segments hold them: an over-long one is cut into sentences first. */
  function SegmentWords(paragraph: string, maxLength: int): seq<string> {
    if |paragraph| <= maxLength then WordsOf(paragraph)
    else CutEachBehindRuns(WordsOf(Delivered(paragraph, maxLength)))
  }

  function AllSegmentWords(paragraphs: seq<string>, maxLength: int): seq<string> {
    if paragraphs == [] then []
    else AllSegmentWords(paragraphs[..|paragraphs| - 1], maxLength)
         + SegmentWords(paragraphs[|paragraphs| - 1], maxLength)
  }

  predicate NoTerminator(s: string) {
    forall i | 0 <= i < |s| :: !IsTerminator(s[i])
  }

  /** A word without a terminator in front of another character is one piece. */
  lemma OnePiece(s: string)
    requires s != "" && OneSentence(s)
    ensures CutBehindRuns(s) == [s]
  {
    var run := DropWhile(s, NotTerminator);
    DropWhileParts(s, NotTerminator);
    assert forall i | 0 <= i < |run| :: run[i] == s[i + |s| - |run|] && IsTerminator(run[i]);
    AllDropped(run, IsTerminator);
    assert Before(s, "") == s && CutBehindRuns("") == [];
  }

  /** Stripping changes no words. */
  lemma StripKeepsWords(s: string)
    ensures WordsOf(Strip(s)) == WordsOf(s)
  {
    var l := LStrip(s);
    var r := RStrip(l);
    SkipGap(s);
    RStripParts(l);
    var gap := l[|r|..];
    assert l == r + gap;
    WordsAcrossGap(r, gap);
    BlankHasNoWords(gap);
    Regroup(WordsOf(r), [], []);
  }

  lemma {:induction false} BlankHasNoWords(s: string)
    requires forall i | 0 <= i < |s| :: IsSpace(s[i])
    ensures WordsOf(s) == []
  {
    if s != "" {
      BlankHasNoWords(s[1..]);
    }
  }

  lemma {:induction false} StripAllKeepsWords(ss: seq<string>)
    ensures AllWordsOf(StripAll(ss)) == AllWordsOf(ss)
  {
    if ss != [] {
      StripAllKeepsWords(ss[1..]);
      StripKeepsWords(ss[0]);
      StripAllHead(ss);
      assert ss == [ss[0]] + ss[1..];
      AllWordsCons(ss[0], ss[1..]);
    }
  }

  lemma StripAllHead(ss: seq<string>)
    requires ss != []
    ensures AllWordsOf(StripAll(ss)) == WordsOf(Strip(ss[0])) + AllWordsOf(StripAll(ss[1..]))
  {
    if Strip(ss[0]) == "" {
      assert StripAll(ss) == StripAll(ss[1..]);
    } else {
      AllWordsCons(Strip(ss[0]), StripAll(ss[1..]));
    }
  }

  /** Words of one piece each are not cut. */
  lemma {:induction false} PiecesOfPlainWords(words: seq<string>)
    requires forall i | 0 <= i < |words| :: words[i] != "" && OneSentence(words[i])
    ensures CutEachBehindRuns(words) == words
  {
    if words != [] {
      OnePiece(words[0]);
      PiecesOfPlainWords(words[1..]);
    }
  }

  lemma {:induction false} WordsOfUnpunctuated(s: string)
    requires NoTerminator(s)
    ensures forall i | 0 <= i < |WordsOf(s)| :: WordsOf(s)[i] != "" && OneSentence(WordsOf(s)[i])
    decreases |s|
  {
    if s != "" {
      var rest := if IsSpace(s[0]) then s[1..] else DropWhile(s, NotSpace);
      DropWhileParts(s, NotSpace);
      assert forall i | 0 <= i < |rest| :: rest[i] == s[i + |s| - |rest|];
      WordsOfUnpunctuated(rest);
    }
  }

  /** A paragraph without a sentence break is a text without terminators, or one word of nothing else. */
  lemma UnsplitWords(paragraph: string)
    requires Trimmed(paragraph) && (NoTerminator(paragraph) || !SaysMore(paragraph))
    ensures CutEachBehindRuns(WordsOf(paragraph)) == WordsOf(paragraph)
  {
    if NoTerminator(paragraph) {
      WordsOfUnpunctuated(paragraph);
    } else {
      OneWord(paragraph);
    }
    PiecesOfPlainWords(WordsOf(paragraph));
  }

  lemma ExpandWords(paragraph: string, maxLength: int)
    requires Trimmed(paragraph)
    ensures AllWordsOf(Texts(ExpandParagraph(paragraph, maxLength))) == SegmentWords(paragraph, maxLength)
  {
    if |paragraph| <= maxLength {
      assert Texts(ExpandParagraph(paragraph, maxLength)) == [] + [paragraph];
      AllWordsSnoc([], paragraph);
    } else {
      SentencesExist(paragraph);
      LabelledTexts(StripAll(FindSentences(paragraph)));
      LabelledTexts(SplitWords(paragraph));
      if NoTerminator(paragraph) || !SaysMore(paragraph) {
        UnsplitWords(paragraph);
        SplitGivesWords(paragraph);
        WordsOfTrimmed(paragraph);
        WordsOfWords(SplitWords(paragraph));
      } else {
        StripAllKeepsWords(FindSentences(paragraph));
        SentencesCutBehindRuns(paragraph);
        SentencesCutWords(DropWhile(paragraph, IsTerminator));
      }
    }
  }

  lemma {:induction false} ExpandAllWords(paragraphs: seq<string>, maxLength: int)
    requires forall i | 0 <= i < |paragraphs| :: Trimmed(paragraphs[i])
    ensures AllWordsOf(Texts(ExpandAll(paragraphs, maxLength))) == AllSegmentWords(paragraphs, maxLength)
  {
    if paragraphs != [] {
      var init, last := paragraphs[..|paragraphs| - 1], paragraphs[|paragraphs| - 1];
      ExpandAllWords(init, maxLength);
      ExpandWords(last, maxLength);
      TextsJoin(ExpandAll(init, maxLength), ExpandParagraph(last, maxLength));
      AllWordsAppend(Texts(ExpandAll(init, maxLength)), Texts(ExpandParagraph(last, maxLength)));
    }
  }

  lemma TextsJoin(a: seq<Segment>, b: seq<Segment>)
    ensures Texts(a + b) == Texts(a) + Texts(b)
  {
  }

  // ---------------------------------------------------------------- the paragraphs hold the text's words

  lemma {:induction false} ReplaceKeepsWords(s: string)
    ensures WordsOf(ReplaceCrLf(s)) == WordsOf(s)
    decreases |s|
  {
    if s == "" {
    } else if |s| >= 2 && s[0] == '\r' && s[1] == '\n' {
      ReplaceKeepsWords(s[2..]);
      assert s[1..][1..] == s[2..];
    } else if IsSpace(s[0]) {
      ReplaceKeepsWords(s[1..]);
    } else {
      var rest := DropWhile(s, NotSpace);
      ReplaceKeepsWords(rest);
      ReplaceBehindWord(s);
    }
  }

  /** Replacing leaves a leading run of visible characters alone. */
  lemma {:induction false} ReplaceBehindWord(s: string)
    ensures var rest := DropWhile(s, NotSpace);
            && DropWhile(ReplaceCrLf(s), NotSpace) == ReplaceCrLf(rest)
            && Before(ReplaceCrLf(s), ReplaceCrLf(rest)) == Before(s, rest)
  {
    if s != "" && NotSpace(s[0]) {
      ReplaceBehindWord(s[1..]);
      var rest := DropWhile(s, NotSpace);
      var replaced := ReplaceCrLf(s[1..]);
      assert s == [s[0]] + s[1..];
      assert ReplaceCrLf(s) == [s[0]] + replaced;
      RunStartsWith(s[0], replaced);
      BeforeCons(s[0], s[1..], rest);
      BeforeCons(s[0], replaced, ReplaceCrLf(rest));
    }
  }

  lemma RunStartsWith(c: char, s: string)
    requires NotSpace(c)
    ensures DropWhile([c] + s, NotSpace) == DropWhile(s, NotSpace)
  {
    assert ([c] + s)[1..] == s;
  }

  lemma BeforeCons(c: char, s: string, rest: string)
    requires |rest| <= |s|
    ensures Before([c] + s, rest) == [c] + Before(s, rest)
  {
  }

  lemma {:induction false} SkipNewlines(s: string)
    ensures WordsOf(DropWhile(s, IsNewline)) == WordsOf(s)
  {
    if s != "" && IsNewline(s[0]) {
      SkipNewlines(s[1..]);
    }
  }

  lemma {:induction false} SplitParagraphsKeepsWords(s: string)
    ensures AllWordsOf(SplitParagraphs(s)) == WordsOf(s)
    decreases |s|
  {
    var i := FirstBlankLine(s);
    if i < |s| {
      var rest := DropWhile(s[i..], IsNewline);
      SplitParagraphsKeepsWords(rest);
      SkipNewlines(s[i..]);
      AllWordsCons(s[..i], SplitParagraphs(rest));
      assert s == s[..i] + s[i..];
      WordsAcrossGap(s[..i], s[i..]);
    } else {
      assert SplitParagraphs(s) == [] + [s];
      AllWordsSnoc([], s);
    }
  }

  // ---------------------------------------------------------------- the theorem

  /**
   * From text to chunks, word by word: the paragraphs hold the text's words; the chunks hold those words in order,
   * except that in an over-long paragraph a leading run of terminators is gone and words are cut behind terminators,
   * and that what still exceeds the limit is cut to size.
   */
  lemma ChunkWords(text: string, maxLength: nat)
    requires maxLength > 0
    ensures AllWordsOf(Paragraphs(text)) == WordsOf(text)
    ensures AllWordsOf(Chunks(text, maxLength)) == CutAll(AllSegmentWords(Paragraphs(text), maxLength), maxLength)
  {
    WordsStayWhole(text, maxLength);
    StrippedEndVisibly(SplitParagraphs(Normalize(text)));
    ExpandAllWords(Paragraphs(text), maxLength);
    StripAllKeepsWords(SplitParagraphs(Normalize(text)));
    SplitParagraphsKeepsWords(Normalize(text));
    StripKeepsWords(ReplaceCrLf(text));
    ReplaceKeepsWords(text);
  }
}
