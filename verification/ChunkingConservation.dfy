/** What the chunker keeps: every visible character, except a documented family of lost terminators. */
module ChunkingConservation {
  import opened Text
  import opened Chunking

  /** Everything a packing holds, in order. */
  function Content(p: Packing): string {
    Flatten(p.chunks) + p.current
  }

  function Texts(segments: seq<Segment>): seq<string> {
    seq(|segments|, i requires 0 <= i < |segments| => segments[i].text)
  }

  // ---------------------------------------------------------------- packing keeps visible characters

  lemma FlushedContent(p: Packing)
    ensures Flatten(p.Flushed()) == Content(p)
  {
    if p.current != "" {
      FlattenSnoc(p.chunks, p.current);
    } else {
      assert p.Flushed() == p.chunks;
    }
  }

  lemma {:induction false} HardSplitContent(word: string, maxLength: nat)
    requires maxLength > 0
    ensures Content(HardSplit(word, maxLength)) == word
  {
    if |word| >= maxLength {
      var rest := HardSplit(word[maxLength..], maxLength);
      HardSplitContent(word[maxLength..], maxLength);
      FlattenCons(word[..maxLength], rest.chunks);
      assert word == word[..maxLength] + word[maxLength..];
    }
  }

  /** Extending the open run by a separator and a text adds just the text's visible characters. */
  lemma ExtendedVisible(p: Packing, joiner: string, text: string)
    requires forall i | 0 <= i < |joiner| :: IsSpace(joiner[i])
    ensures Visible(Content(Packing(p.chunks, p.current + joiner + text))) == Visible(Content(p)) + Visible(text)
  {
    assert Content(Packing(p.chunks, p.current + joiner + text)) == Content(p) + joiner + text;
    VisibleOfGap(Content(p), joiner, text);
  }

  /** Flushing and then appending the pieces of `next` adds just what `next` holds. */
  lemma FlushedVisible(p: Packing, next: Packing)
    ensures Visible(Content(Packing(p.Flushed() + next.chunks, next.current)))
         == Visible(Content(p)) + Visible(Content(next))
  {
    FlattenAppend(p.Flushed(), next.chunks);
    FlushedContent(p);
    assert Flatten(p.Flushed()) + Flatten(next.chunks) + next.current == Content(p) + Content(next);
    VisibleAppend(Content(p), Content(next));
  }

  /** A text placed in an empty run, or after a flush, adds its visible characters. */
  lemma PlacedVisible(p: Packing, text: string)
    ensures p.current == "" ==> Visible(Content(Packing(p.chunks, text))) == Visible(Content(p)) + Visible(text)
    ensures Visible(Content(Packing(p.Flushed(), text))) == Visible(Content(p)) + Visible(text)
  {
    FlushedContent(p);
    VisibleAppend(Content(p), text);
    assert p.current == "" ==> Content(Packing(p.chunks, text)) == Content(p) + text;
  }

  lemma AddWordVisible(p: Packing, word: string, maxLength: nat)
    requires maxLength > 0
    ensures Visible(Content(AddWord(p, word, maxLength))) == Visible(Content(p)) + Visible(word)
  {
    ExtendedVisible(p, " ", word);
    PlacedVisible(p, word);
    FlushedVisible(p, HardSplit(word, maxLength));
    HardSplitContent(word, maxLength);
  }

  lemma {:induction false} PackWordsVisible(words: seq<string>, maxLength: nat)
    requires maxLength > 0
    ensures Visible(Content(PackWords(words, maxLength))) == Visible(Flatten(words))
  {
    if words != [] {
      var init, word := words[..|words| - 1], words[|words| - 1];
      PackWordsVisible(init, maxLength);
      AddWordVisible(PackWords(init, maxLength), word, maxLength);
      VisibleLast(words);
    }
  }

  lemma VisibleSnoc(a: seq<string>, s: string)
    ensures Visible(Flatten(a + [s])) == Visible(Flatten(a)) + Visible(s)
  {
    FlattenSnoc(a, s);
    VisibleAppend(Flatten(a), s);
  }

  lemma VisibleLast(ss: seq<string>)
    requires ss != []
    ensures Visible(Flatten(ss)) == Visible(Flatten(ss[..|ss| - 1])) + Visible(ss[|ss| - 1])
  {
    SplitLast(ss);
    VisibleSnoc(ss[..|ss| - 1], ss[|ss| - 1]);
  }

  lemma SplitLast<T>(xs: seq<T>)
    requires xs != []
    ensures xs == xs[..|xs| - 1] + [xs[|xs| - 1]]
  {
  }

  lemma AddSegmentVisible(p: Packing, segment: Segment, maxLength: nat)
    requires maxLength > 0
    ensures Visible(Content(AddSegment(p, segment, maxLength))) == Visible(Content(p)) + Visible(segment.text)
  {
    var joiner := if segment.separator == Blank then "\n\n" else " ";
    var candidate := if p.current == "" then segment.text else p.current + joiner + segment.text;
    if |candidate| <= maxLength || |segment.text| <= maxLength {
      ExtendedVisible(p, joiner, segment.text);
      PlacedVisible(p, segment.text);
    } else {
      var words := SplitWords(segment.text);
      FlushedVisible(p, PackWords(words, maxLength));
      PackWordsVisible(words, maxLength);
      SplitWordsKeepsVisible(segment.text);
    }
  }

  lemma {:induction false} PackSegmentsVisible(segments: seq<Segment>, maxLength: nat)
    requires maxLength > 0
    ensures Visible(Content(PackSegments(segments, maxLength))) == Visible(Flatten(Texts(segments)))
  {
    if segments != [] {
      var init, segment := segments[..|segments| - 1], segments[|segments| - 1];
      PackSegmentsVisible(init, maxLength);
      AddSegmentVisible(PackSegments(init, maxLength), segment, maxLength);
      TextsInit(segments);
      VisibleLast(Texts(segments));
    }
  }

  lemma TextsInit(segments: seq<Segment>)
    requires segments != []
    ensures Texts(segments)[..|segments| - 1] == Texts(segments[..|segments| - 1])
  {
  }

  // ---------------------------------------------------------------- paragraphs into segments

  predicate SaysMore(s: string) {
    exists i | 0 <= i < |s| :: !IsTerminator(s[i])
  }

  /** An over-long paragraph that starts with a terminator and has some other character to say. */
  predicate LosesLead(paragraph: string, maxLength: int) {
    && |paragraph| > maxLength
    && paragraph != [] && IsTerminator(paragraph[0])
    && SaysMore(paragraph)
  }

  /** What the chunker delivers of a paragraph: all of it, or all but the leading run of terminators. */
  function Delivered(paragraph: string, maxLength: int): string {
    if LosesLead(paragraph, maxLength) then DropWhile(paragraph, IsTerminator) else paragraph
  }

  function DeliveredAll(paragraphs: seq<string>, maxLength: int): seq<string> {
    seq(|paragraphs|, i requires 0 <= i < |paragraphs| => Delivered(paragraphs[i], maxLength))
  }

  /** Text whose last character is not whitespace. */
  predicate EndsVisibly(s: string) {
    s != [] && !IsSpace(s[|s| - 1])
  }

  lemma StripOfNonempty(s: string, i: nat)
    requires i < |s| && !IsSpace(s[i])
    ensures Strip(s) != ""
  {
    var l := LStrip(s);
    DropWhileParts(s, IsSpace);
    RStripNonempty(l, i - (|s| - |l|));
  }

  lemma RStripNonempty(l: string, i: nat)
    requires i < |l| && !IsSpace(l[i])
    ensures RStrip(l) != ""
  {
    RStripParts(l);
  }

  /** The first sentence of a text that ends visibly shows something: its terminator, or the end of the text. */
  lemma SentenceShows(s: string) returns (k: nat)
    requires EndsVisibly(s) && !IsTerminator(s[0])
    ensures k < |s| - |AfterSentence(s)| && !IsSpace(s[k])
  {
    var afterRun := DropWhile(s, NotTerminator);
    DropWhileParts(s, NotTerminator);
    if afterRun != [] {
      k := |s| - |afterRun|;
      assert s[k] == afterRun[0];
    } else {
      k := |s| - 1;
    }
  }

  lemma FirstSentenceVisible(s: string)
    requires EndsVisibly(s) && !IsTerminator(s[0])
    ensures StripAll(FindSentences(s)) != []
  {
    var k := SentenceShows(s);
    VisibleInPrefix(s, |s| - |AfterSentence(s)|, k);
    HeadKept(Before(s, AfterSentence(s)), FindSentences(AfterSentence(s)));
  }

  lemma HeadKept(head: string, tail: seq<string>)
    requires Strip(head) != ""
    ensures StripAll([head] + tail) != []
  {
  }

  lemma VisibleInPrefix(s: string, j: nat, k: nat)
    requires k < j <= |s| && !IsSpace(s[k])
    ensures Strip(s[..j]) != ""
  {
    assert s[..j][k] == s[k];
    StripOfNonempty(s[..j], k);
  }

  lemma SaysMoreLater(s: string)
    requires s != [] && IsTerminator(s[0])
    ensures SaysMore(s) <==> SaysMore(s[1..])
  {
    assert forall i | 1 <= i < |s| :: s[i] == s[1..][i - 1];
  }

  /** A paragraph that ends visibly yields a sentence exactly when some character is not a terminator. */
  lemma {:induction false} SentencesExist(s: string)
    requires s == [] || EndsVisibly(s)
    ensures StripAll(FindSentences(s)) != [] <==> SaysMore(s)
  {
    if s == [] {
    } else if IsTerminator(s[0]) {
      SentencesExist(s[1..]);
      SaysMoreLater(s);
    } else {
      FirstSentenceVisible(s);
    }
  }

  lemma LabelledTexts(texts: seq<string>)
    ensures Texts(Labelled(texts)) == texts
  {
  }

  lemma ExpandVisible(paragraph: string, maxLength: int)
    requires EndsVisibly(paragraph)
    ensures Visible(Flatten(Texts(ExpandParagraph(paragraph, maxLength)))) == Visible(Delivered(paragraph, maxLength))
  {
    if |paragraph| <= maxLength {
      assert Texts(ExpandParagraph(paragraph, maxLength)) == [paragraph];
      FlattenOne(paragraph);
    } else {
      var found := FindSentences(paragraph);
      SentencesExist(paragraph);
      LabelledTexts(StripAll(found));
      LabelledTexts(SplitWords(paragraph));
      StripAllKeepsVisible(found);
      FindSentencesFlatten(paragraph);
      SplitWordsKeepsVisible(paragraph);
    }
  }

  lemma TextsAppend(a: seq<Segment>, b: seq<Segment>)
    ensures Visible(Flatten(Texts(a + b))) == Visible(Flatten(Texts(a))) + Visible(Flatten(Texts(b)))
  {
    assert Texts(a + b) == Texts(a) + Texts(b);
    FlattenAppend(Texts(a), Texts(b));
    VisibleAppend(Flatten(Texts(a)), Flatten(Texts(b)));
  }

  lemma {:induction false} ExpandAllVisible(paragraphs: seq<string>, maxLength: int)
    requires forall i | 0 <= i < |paragraphs| :: EndsVisibly(paragraphs[i])
    ensures Visible(Flatten(Texts(ExpandAll(paragraphs, maxLength))))
         == Visible(Flatten(DeliveredAll(paragraphs, maxLength)))
  {
    if paragraphs != [] {
      var init, last := paragraphs[..|paragraphs| - 1], paragraphs[|paragraphs| - 1];
      ExpandAllVisible(init, maxLength);
      TextsAppend(ExpandAll(init, maxLength), ExpandParagraph(last, maxLength));
      ExpandVisible(last, maxLength);
      DeliveredInit(paragraphs, maxLength);
      VisibleLast(DeliveredAll(paragraphs, maxLength));
    }
  }

  lemma DeliveredInit(paragraphs: seq<string>, maxLength: int)
    requires paragraphs != []
    ensures DeliveredAll(paragraphs, maxLength)[..|paragraphs| - 1]
         == DeliveredAll(paragraphs[..|paragraphs| - 1], maxLength)
  {
  }

  lemma {:induction false} StrippedEndVisibly(ss: seq<string>)
    ensures forall i | 0 <= i < |StripAll(ss)| ::
              EndsVisibly(StripAll(ss)[i]) && !IsSpace(StripAll(ss)[i][0])
  {
    if ss != [] {
      StrippedEndVisibly(ss[1..]);
      StripEnds(ss[0]);
    }
  }

  // ---------------------------------------------------------------- the conservation theorems

  /**
   * The chunks carry, in order, exactly the visible characters of the input, except that each over-long paragraph
   * opening with terminators and holding anything else loses that opening run.
   */
  lemma ChunksConserve(text: string, maxLength: nat)
    requires maxLength > 0
    ensures Visible(Flatten(Chunks(text, maxLength))) == Visible(Flatten(DeliveredAll(Paragraphs(text), maxLength)))
    ensures Visible(Flatten(Paragraphs(text))) == Visible(text)
  {
    var packing := PackSegments(Segments(text, maxLength), maxLength);
    FlushedContent(packing);
    PackSegmentsVisible(Segments(text, maxLength), maxLength);
    StrippedEndVisibly(SplitParagraphs(Normalize(text)));
    ExpandAllVisible(Paragraphs(text), maxLength);
    StripAllKeepsVisible(SplitParagraphs(Normalize(text)));
    SplitParagraphsKeepsVisible(Normalize(text));
    StripKeepsVisible(ReplaceCrLf(text));
    ReplaceKeepsVisible(text);
  }

  lemma DeliveredLength(paragraph: string, maxLength: int)
    ensures |Visible(Delivered(paragraph, maxLength))| <= |Visible(paragraph)|
    ensures LosesLead(paragraph, maxLength) ==> |Visible(Delivered(paragraph, maxLength))| < |Visible(paragraph)|
  {
    if LosesLead(paragraph, maxLength) {
      var rest := DropWhile(paragraph, IsTerminator);
      DropWhileParts(paragraph, IsTerminator);
      VisibleParts(paragraph, rest);
      VisibleOfWord(Before(paragraph, rest));
    }
  }

  predicate NothingLost(paragraphs: seq<string>, maxLength: int) {
    forall p | p in paragraphs :: !LosesLead(p, maxLength)
  }

  lemma {:induction false} DeliveredAllLength(paragraphs: seq<string>, maxLength: int)
    ensures |Visible(Flatten(DeliveredAll(paragraphs, maxLength)))| <= |Visible(Flatten(paragraphs))|
    ensures !NothingLost(paragraphs, maxLength)
            ==> |Visible(Flatten(DeliveredAll(paragraphs, maxLength)))| < |Visible(Flatten(paragraphs))|
  {
    if paragraphs != [] {
      var init, last := paragraphs[..|paragraphs| - 1], paragraphs[|paragraphs| - 1];
      DeliveredAllLength(init, maxLength);
      DeliveredLength(last, maxLength);
      VisibleLast(paragraphs);
      DeliveredInit(paragraphs, maxLength);
      VisibleLast(DeliveredAll(paragraphs, maxLength));
      assert NothingLost(paragraphs, maxLength) <==> NothingLost(init, maxLength) && !LosesLead(last, maxLength) by {
        assert paragraphs == init + [last];
      }
    }
  }

  /** No visible character is lost if and only if no paragraph is over-long, opens with a terminator and says more. */
  lemma NothingLostIff(text: string, maxLength: nat)
    requires maxLength > 0
    ensures Visible(Flatten(Chunks(text, maxLength))) == Visible(text) <==> NothingLost(Paragraphs(text), maxLength)
  {
    ChunksConserve(text, maxLength);
    DeliveredAllLength(Paragraphs(text), maxLength);
    if NothingLost(Paragraphs(text), maxLength) {
      AllDelivered(Paragraphs(text), maxLength);
    }
  }

  lemma AllDelivered(paragraphs: seq<string>, maxLength: int)
    requires NothingLost(paragraphs, maxLength)
    ensures DeliveredAll(paragraphs, maxLength) == paragraphs
  {
  }

  /** A text that does lose its opening dots: "..ab" in chunks of three arrives as "ab". */
  lemma LeadingDotsAreLost()
    ensures Chunks("..ab", 3) == ["ab"]
  {
    PlainParagraph("..ab");
    DotsDropped();
    assert Segments("..ab", 3) == [Segment("ab", Blank)] by {
      assert Paragraphs("..ab")[..0] == [];
    }
    assert [Segment("ab", Blank)][..0] == [];
  }

  lemma DotsDropped()
    ensures ExpandParagraph("..ab", 3) == [Segment("ab", Blank)]
  {
    var text := "..ab";
    assert IsTerminator(text[0]);
    assert FindSentences(text) == FindSentences(text[1..]) == FindSentences(text[1..][1..]);
    assert text[1..][1..] == "ab";
    LastSentence();
    assert Labelled(["ab"]) == [Segment("ab", Blank)];
  }

  lemma LastSentence()
    ensures FindSentences("ab") == ["ab"] && StripAll(["ab"]) == ["ab"]
  {
    assert "ab"[1..] == "b" && "b"[1..] == "";
    assert DropWhile("b", NotTerminator) == "";
    assert AfterSentence("ab") == "";
    assert Before("ab", "") == "ab";
    StripIdentity("ab");
  }

  /** A text without carriage returns, newlines or outer whitespace is its own only paragraph. */
  lemma PlainParagraph(text: string)
    requires EndsVisibly(text) && !IsSpace(text[0]) && forall i | 0 <= i < |text| :: text[i] != '\r' && text[i] != '\n'
    ensures Paragraphs(text) == [text]
  {
    NothingToReplace(text);
    StripIdentity(text);
    FirstBlankLineIsFirst(text);
    assert StripAll([text]) == [text];
  }

  lemma {:induction false} NothingToReplace(text: string)
    requires forall i | 0 <= i < |text| - 1 :: !(text[i] == '\r' && text[i + 1] == '\n')
    ensures ReplaceCrLf(text) == text
  {
    if text != [] {
      NothingToReplace(text[1..]);
    }
  }
}
