/** The words of the chunks: exactly the words of the segments, in order, of which only over-long ones are cut. */
module ChunkingWords {
  import opened Text
  import opened Chunking
  import opened ChunkingConservation
  import opened ChunkingFixpoint

  // ---------------------------------------------------------------- words

  /** The maximal runs of visible characters. */
  function WordsOf(s: string): seq<string>
    decreases |s|
  {
    if s == "" then []
    else if IsSpace(s[0]) then WordsOf(s[1..])
    else
      var rest := DropWhile(s, NotSpace);
      [Before(s, rest)] + WordsOf(rest)
  }

  function AllWordsOf(ss: seq<string>): seq<string> {
    if ss == [] then [] else AllWordsOf(ss[..|ss| - 1]) + WordsOf(ss[|ss| - 1])
  }

  /** A word that fits stays as it is; one that does not is cut into pieces of exactly the limit, but for the last. */
  function Cut(word: string, maxLength: nat): seq<string>
    requires maxLength > 0
  {
    if |word| <= maxLength then [word] else HardSplit(word, maxLength).Flushed()
  }

  function CutAll(words: seq<string>, maxLength: nat): seq<string>
    requires maxLength > 0
  {
    if words == [] then [] else CutAll(words[..|words| - 1], maxLength) + Cut(words[|words| - 1], maxLength)
  }

  /** The pieces of a word make up the word; each but the last has exactly `maxLength` characters. */
  lemma CutPieces(word: string, maxLength: nat)
    requires maxLength > 0 && word != ""
    ensures var pieces := Cut(word, maxLength);
            && Flatten(pieces) == word
            && (forall i | 0 <= i < |pieces| :: 1 <= |pieces[i]| <= maxLength)
            && (forall i | 0 <= i < |pieces| - 1 :: |pieces[i]| == maxLength)
  {
    if |word| <= maxLength {
      FlattenOne(word);
    } else {
      FlushedContent(HardSplit(word, maxLength));
      HardSplitContent(word, maxLength);
      HardSplitSized(word, maxLength);
      HardSplitFull(word, maxLength);
    }
  }

  lemma {:induction false} HardSplitFull(word: string, maxLength: nat)
    requires maxLength > 0
    ensures forall i | 0 <= i < |HardSplit(word, maxLength).chunks| ::
              |HardSplit(word, maxLength).chunks[i]| == maxLength
  {
    if |word| >= maxLength {
      HardSplitFull(word[maxLength..], maxLength);
    }
  }

  lemma OneWord(w: string)
    requires IsWord(w)
    ensures WordsOf(w) == [w]
  {
    var rest := DropWhile(w, NotSpace);
    DropWhileParts(w, NotSpace);
    assert rest == "" && Before(w, rest) == w && WordsOf(rest) == [];
  }

  lemma AllWordsSnoc(ss: seq<string>, s: string)
    ensures AllWordsOf(ss + [s]) == AllWordsOf(ss) + WordsOf(s)
  {
    var all := ss + [s];
    assert all[..|all| - 1] == ss;
  }

  lemma {:induction false} AllWordsAppend(a: seq<string>, b: seq<string>)
    ensures AllWordsOf(a + b) == AllWordsOf(a) + AllWordsOf(b)
  {
    if b == [] {
      Regroup(a, [], []);
      Regroup(AllWordsOf(a), [], []);
    } else {
      var init, last := b[..|b| - 1], b[|b| - 1];
      AllWordsAppend(a, init);
      SnocParts(a, b);
      AllWordsSnoc(a + init, last);
      Regroup(AllWordsOf(a), AllWordsOf(init), WordsOf(last));
    }
  }

  lemma Regroup(a: seq<string>, b: seq<string>, c: seq<string>)
    ensures a + b + c == a + (b + c)
    ensures a + [] == a
  {
  }

  lemma SnocParts(a: seq<string>, b: seq<string>)
    requires b != []
    ensures a + b == a + b[..|b| - 1] + [b[|b| - 1]]
  {
  }

  lemma {:induction false} CutAppend(a: seq<string>, b: seq<string>, maxLength: nat)
    requires maxLength > 0
    ensures CutAll(a + b, maxLength) == CutAll(a, maxLength) + CutAll(b, maxLength)
  {
    if b == [] {
      Regroup(a, [], []);
      Regroup(CutAll(a, maxLength), [], []);
    } else {
      var init, last := b[..|b| - 1], b[|b| - 1];
      CutAppend(a, init, maxLength);
      SnocParts(a, b);
      CutSnoc(a + init, last, maxLength);
      Regroup(CutAll(a, maxLength), CutAll(init, maxLength), Cut(last, maxLength));
    }
  }

  lemma CutSnoc(words: seq<string>, word: string, maxLength: nat)
    requires maxLength > 0
    ensures CutAll(words + [word], maxLength) == CutAll(words, maxLength) + Cut(word, maxLength)
  {
    var all := words + [word];
    assert all[..|all| - 1] == words;
  }

  /** A list of words holds just those words. */
  lemma {:induction false} WordsOfWords(words: seq<string>)
    requires AllWords(words)
    ensures AllWordsOf(words) == words
  {
    if words != [] {
      WordsOfWords(words[..|words| - 1]);
      OneWord(words[|words| - 1]);
      SplitLast(words);
    }
  }

  predicate AllFit(words: seq<string>, maxLength: nat) {
    forall i | 0 <= i < |words| :: |words[i]| <= maxLength
  }

  lemma {:induction false} FittingUncut(words: seq<string>, maxLength: nat)
    requires maxLength > 0 && AllFit(words, maxLength)
    ensures CutAll(words, maxLength) == words
  {
    if words != [] {
      FittingUncut(words[..|words| - 1], maxLength);
      SplitLast(words);
    }
  }

  /** No word of a text is longer than the text. */
  lemma {:induction false} WordsFit(s: string, maxLength: nat)
    requires |s| <= maxLength
    ensures AllFit(WordsOf(s), maxLength)
    decreases |s|
  {
    if s != "" {
      if IsSpace(s[0]) {
        WordsFit(s[1..], maxLength);
      } else {
        WordsFit(DropWhile(s, NotSpace), maxLength);
      }
    }
  }

  // ---------------------------------------------------------------- words across a gap

  predicate StartsGap(s: string) {
    s == "" || IsSpace(s[0])
  }

  lemma {:induction false} RunBeforeGap(a: string, b: string)
    requires StartsGap(b)
    ensures DropWhile(a + b, NotSpace) == DropWhile(a, NotSpace) + b
  {
    AppendTail(a, b);
    if a != "" && NotSpace(a[0]) {
      RunBeforeGap(a[1..], b);
    }
  }

  lemma BeforeGap(a: string, rest: string, b: string)
    requires |rest| <= |a|
    ensures Before(a + b, rest + b) == Before(a, rest)
  {
  }

  lemma {:induction false} WordsAcrossGap(a: string, b: string)
    requires StartsGap(b)
    ensures WordsOf(a + b) == WordsOf(a) + WordsOf(b)
    decreases |a|
  {
    AppendTail(a, b);
    if a != "" {
      if IsSpace(a[0]) {
        WordsAcrossGap(a[1..], b);
      } else {
        var rest := DropWhile(a, NotSpace);
        RunBeforeGap(a, b);
        BeforeGap(a, rest, b);
        WordsAcrossGap(rest, b);
      }
    }
  }

  lemma {:induction false} SkipGap(s: string)
    ensures WordsOf(DropWhile(s, IsSpace)) == WordsOf(s)
  {
    if s != "" && IsSpace(s[0]) {
      SkipGap(s[1..]);
    }
  }

  /** Joining two texts by a space or a blank line joins their words. */
  lemma JoinWords(a: string, joiner: string, b: string)
    requires joiner == " " || joiner == "\n\n"
    ensures WordsOf(a + joiner + b) == WordsOf(a) + WordsOf(b)
  {
    var tail := joiner + b;
    assert a + joiner + b == a + tail;
    WordsAcrossGap(a, tail);
    assert IsSpace(tail[0]);
    if joiner == " " {
      assert tail[1..] == b;
    } else {
      assert tail[1..][0] == '\n' && tail[1..][1..] == b;
    }
  }

  /** Splitting a trimmed text at whitespace gives its words. */
  lemma {:induction false} SplitGivesWords(s: string)
    requires Trimmed(s)
    ensures SplitWords(s) == WordsOf(s)
    decreases |s|
  {
    var rest := DropWhile(s, NotSpace);
    DropWhileParts(s, NotSpace);
    if rest != [] {
      AfterGap(s, rest);
      SplitGivesWords(DropWhile(rest, IsSpace));
      SkipGap(rest);
    } else {
      assert Before(s, rest) == s;
    }
  }

  // ---------------------------------------------------------------- packing keeps the words

  lemma FlushedWords(p: Packing)
    ensures AllWordsOf(p.Flushed()) == AllWordsOf(p.chunks) + WordsOf(p.current)
  {
    if p.current == "" {
      assert p.Flushed() == p.chunks;
    } else {
      AllWordsSnoc(p.chunks, p.current);
    }
  }

  lemma {:induction false} PiecesAreWords(word: string, maxLength: nat)
    requires maxLength > 0 && forall i | 0 <= i < |word| :: !IsSpace(word[i])
    ensures AllWords(HardSplit(word, maxLength).Flushed())
  {
    if |word| >= maxLength {
      var rest := HardSplit(word[maxLength..], maxLength);
      PiecesAreWords(word[maxLength..], maxLength);
      assert HardSplit(word, maxLength).Flushed() == [word[..maxLength]] + rest.Flushed();
    }
  }

  lemma CutIsWords(word: string, maxLength: nat)
    requires maxLength > 0 && IsWord(word)
    ensures AllWordsOf(Cut(word, maxLength)) == Cut(word, maxLength)
  {
    PiecesAreWords(word, maxLength);
    WordsOfWords(Cut(word, maxLength));
  }

  /** A flush followed by another packing holds the words of both. */
  lemma PackingsJoin(p: Packing, next: Packing)
    ensures AllWordsOf(Packing(p.Flushed() + next.chunks, next.current).Flushed())
         == AllWordsOf(p.Flushed()) + AllWordsOf(next.Flushed())
  {
    FlushedWords(Packing(p.Flushed() + next.chunks, next.current));
    AllWordsAppend(p.Flushed(), next.chunks);
    FlushedWords(next);
    Regroup(AllWordsOf(p.Flushed()), AllWordsOf(next.chunks), WordsOf(next.current));
  }

  /** Growing the open run by a text, or starting one with it, adds the words of that text. */
  lemma GrownWords(p: Packing, joiner: string, text: string)
    requires joiner == " " || joiner == "\n\n"
    ensures p.current == "" ==>
              AllWordsOf(Packing(p.chunks, text).Flushed()) == AllWordsOf(p.Flushed()) + WordsOf(text)
    ensures AllWordsOf(Packing(p.chunks, p.current + joiner + text).Flushed())
         == AllWordsOf(p.Flushed()) + WordsOf(text)
  {
    FlushedWords(p);
    FlushedWords(Packing(p.chunks, text));
    FlushedWords(Packing(p.chunks, p.current + joiner + text));
    JoinWords(p.current, joiner, text);
    Regroup(AllWordsOf(p.chunks), WordsOf(p.current), WordsOf(text));
    Regroup(AllWordsOf(p.chunks), [], []);
  }

  lemma AfterFlush(p: Packing, text: string)
    ensures AllWordsOf(Packing(p.Flushed(), text).Flushed()) == AllWordsOf(p.Flushed()) + WordsOf(text)
  {
    FlushedWords(Packing(p.Flushed(), text));
  }

  lemma AddWordWords(p: Packing, word: string, maxLength: nat)
    requires maxLength > 0 && IsWord(word)
    ensures AllWordsOf(AddWord(p, word, maxLength).Flushed()) == AllWordsOf(p.Flushed()) + Cut(word, maxLength)
  {
    OneWord(word);
    GrownWords(p, " ", word);
    AfterFlush(p, word);
    if |word| > maxLength {
      PackingsJoin(p, HardSplit(word, maxLength));
      CutIsWords(word, maxLength);
    }
  }

  /** Packing words loses, merges and reorders none of them, and cuts only those that do not fit. */
  lemma {:induction false} PackWordsExactly(words: seq<string>, maxLength: nat)
    requires maxLength > 0 && AllWords(words)
    ensures AllWordsOf(PackWords(words, maxLength).Flushed()) == CutAll(words, maxLength)
  {
    if words != [] {
      PackWordsExactly(words[..|words| - 1], maxLength);
      AddWordWords(PackWords(words[..|words| - 1], maxLength), words[|words| - 1], maxLength);
    }
  }

  lemma AddSegmentWords(p: Packing, segment: Segment, maxLength: nat)
    requires maxLength > 0 && Trimmed(segment.text)
    ensures AllWordsOf(AddSegment(p, segment, maxLength).Flushed())
         == AllWordsOf(p.Flushed()) + CutAll(WordsOf(segment.text), maxLength)
  {
    if |segment.text| <= maxLength {
      WordsFit(segment.text, maxLength);
      FittingUncut(WordsOf(segment.text), maxLength);
      GrownWords(p, if segment.separator == Blank then "\n\n" else " ", segment.text);
      AfterFlush(p, segment.text);
    } else {
      OversizedWords(p, segment.text, maxLength);
    }
  }

  lemma OversizedWords(p: Packing, text: string, maxLength: nat)
    requires maxLength > 0 && Trimmed(text)
    ensures var words := PackWords(SplitWords(text), maxLength);
            AllWordsOf(Packing(p.Flushed() + words.chunks, words.current).Flushed())
            == AllWordsOf(p.Flushed()) + CutAll(WordsOf(text), maxLength)
  {
    SplitGivesWords(text);
    WordsOfTrimmed(text);
    PackWordsExactly(SplitWords(text), maxLength);
    PackingsJoin(p, PackWords(SplitWords(text), maxLength));
  }

  lemma {:induction false} PackSegmentsWords(segments: seq<Segment>, maxLength: nat)
    requires maxLength > 0 && SegmentsPlain(segments, false)
    ensures AllWordsOf(PackSegments(segments, maxLength).Flushed())
         == CutAll(AllWordsOf(Texts(segments)), maxLength)
  {
    if segments != [] {
      var init, last := segments[..|segments| - 1], segments[|segments| - 1];
      PackSegmentsWords(init, maxLength);
      AddSegmentWords(PackSegments(init, maxLength), last, maxLength);
      TextsInit(segments);
      CutAppend(AllWordsOf(Texts(init)), WordsOf(last.text), maxLength);
    }
  }

  // ---------------------------------------------------------------- the theorem about a text

  /**
   * The words of the chunks are the words of the segments, one by one and in order, where a word is cut exactly when
   * it alone exceeds the limit.  So no word that fits is cut, and none is lost, merged with another or moved.
   */
  lemma WordsStayWhole(text: string, maxLength: nat)
    requires maxLength > 0
    ensures AllWordsOf(Chunks(text, maxLength)) == CutAll(AllWordsOf(Texts(Segments(text, maxLength))), maxLength)
  {
    SegmentsArePlain(text, maxLength, false);
    PackSegmentsWords(Segments(text, maxLength), maxLength);
  }
}
