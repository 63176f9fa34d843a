/**
 * The chunker in one pass: a text is a list of atoms that are never torn, and its chunks are these atoms filled in
 * greedily, one after the other, each behind the separator it carries.
 */
module ChunkingAtoms {
  import opened Text
  import opened Chunking
  import opened ChunkingConservation
  import opened ChunkingShape
  import opened ChunkingFixpoint
  import opened ChunkingWords
  import opened ChunkingTokens

  // ---------------------------------------------------------------- atoms

  /** A text, how it joins what came before in the same chunk, and whether it has to open a chunk. */
  datatype Atom = Atom(text: string, joiner: string, opens: bool)

  /** A word that fits is one atom; another one is cut, and each of its pieces opens a chunk. */
  function WordAtoms(word: string, joiner: string, opens: bool, maxLength: nat): seq<Atom>
    requires maxLength > 0
  {
    if |word| <= maxLength then [Atom(word, joiner, opens)] else PieceAtoms(Cut(word, maxLength), joiner)
  }

  function PieceAtoms(pieces: seq<string>, joiner: string): seq<Atom> {
    seq(|pieces|, i requires 0 <= i < |pieces| => Atom(pieces[i], if i == 0 then joiner else "", true))
  }

  /** Words join by a space; the first one joins like the text they make up. */
  function WordsAtoms(words: seq<string>, joiner: string, opens: bool, maxLength: nat): seq<Atom>
    requires maxLength > 0
  {
    if words == [] then []
    else if |words| == 1 then WordAtoms(words[0], joiner, opens, maxLength)
    else
      WordsAtoms(words[..|words| - 1], joiner, opens, maxLength)
      + WordAtoms(words[|words| - 1], " ", false, maxLength)
  }

  /** A sentence that fits is one atom; another one opens a chunk, word by word. */
  function SentenceAtoms(sentence: string, joiner: string, maxLength: nat): seq<Atom>
    requires maxLength > 0
  {
    if |sentence| <= maxLength then [Atom(sentence, joiner, false)]
    else WordsAtoms(WordsOf(sentence), joiner, true, maxLength)
  }

  /** The first sentence of a paragraph follows a blank line, the others a space. */
  function SentencesAtoms(sentences: seq<string>, maxLength: nat): seq<Atom>
    requires maxLength > 0
  {
    if sentences == [] then []
    else
      SentencesAtoms(sentences[..|sentences| - 1], maxLength)
      + SentenceAtoms(sentences[|sentences| - 1], if |sentences| == 1 then "\n\n" else " ", maxLength)
  }

  /** A paragraph without a place to break it: no terminator, or nothing but terminators. */
  predicate Unbroken(paragraph: string) {
    NoTerminator(paragraph) || !SaysMore(paragraph)
  }

  /** The sentences of a paragraph: what is delivered of it, cut behind every run of terminators and trimmed. */
  function Sentences(paragraph: string, maxLength: nat): seq<string> {
    StripAll(CutBehindRuns(Delivered(paragraph, maxLength)))
  }

  /** A paragraph that fits is one atom; a longer one goes by sentences, or by words where it cannot be broken. */
  function ParagraphAtoms(paragraph: string, maxLength: nat): seq<Atom>
    requires maxLength > 0
  {
    if |paragraph| <= maxLength then [Atom(paragraph, "\n\n", false)]
    else if Unbroken(paragraph) then WordsAtoms(WordsOf(paragraph), "\n\n", false, maxLength)
    else SentencesAtoms(Sentences(paragraph, maxLength), maxLength)
  }

  function Atoms(paragraphs: seq<string>, maxLength: nat): seq<Atom>
    requires maxLength > 0
  {
    if paragraphs == [] then []
    else
      Atoms(paragraphs[..|paragraphs| - 1], maxLength) + ParagraphAtoms(paragraphs[|paragraphs| - 1], maxLength)
  }

  // ---------------------------------------------------------------- filling

  /** The next atom joins the open chunk if it may and fits, and opens another one otherwise. */
  function Place(p: Packing, a: Atom, maxLength: nat): Packing {
    if p.current != "" && !a.opens && |p.current + a.joiner + a.text| <= maxLength then
      Packing(p.chunks, p.current + a.joiner + a.text)
    else Packing(p.Flushed(), a.text)
  }

  function FillFrom(p: Packing, atoms: seq<Atom>, maxLength: nat): Packing {
    if atoms == [] then p
    else Place(FillFrom(p, atoms[..|atoms| - 1], maxLength), atoms[|atoms| - 1], maxLength)
  }

  function Filled(atoms: seq<Atom>, maxLength: nat): seq<string> {
    FillFrom(Packing([], ""), atoms, maxLength).Flushed()
  }

  lemma FillOne(p: Packing, a: Atom, maxLength: nat)
    ensures FillFrom(p, [a], maxLength) == Place(p, a, maxLength)
  {
    assert [a][..0] == [];
  }

  lemma {:induction false} FillAppend(p: Packing, a: seq<Atom>, b: seq<Atom>, maxLength: nat)
    ensures FillFrom(p, a + b, maxLength) == FillFrom(FillFrom(p, a, maxLength), b, maxLength)
  {
    if b == [] {
      assert a + b == a;
    } else {
      FillAppend(p, a, b[..|b| - 1], maxLength);
      assert (a + b)[..|a + b| - 1] == a + b[..|b| - 1];
    }
  }

  // ---------------------------------------------------------------- packing is filling

  /** The same chunks, except that a full one may count as finished or still as open. */
  predicate Alike(p: Packing, f: Packing, maxLength: nat) {
    && p.Flushed() == f.Flushed()
    && (p.current == f.current || (p.current == "" && |f.current| >= maxLength))
  }

  /** A text that fits either joins both open chunks or none. */
  lemma PlaceFitting(p: Packing, f: Packing, a: Atom, maxLength: nat)
    requires Alike(p, f, maxLength) && 0 < |a.text| <= maxLength && !a.opens
    ensures Alike(if p.current != "" && |p.current + a.joiner + a.text| <= maxLength
                  then Packing(p.chunks, p.current + a.joiner + a.text) else Packing(p.Flushed(), a.text),
                  Place(f, a, maxLength), maxLength)
  {
    assert p.chunks == p.Flushed()[..|p.chunks|] && f.chunks == f.Flushed()[..|f.chunks|];
  }

  /** Atoms that open chunks go one into each. */
  lemma {:induction false} PlacePieces(f: Packing, pieces: seq<string>, joiner: string, n: nat, maxLength: nat)
    requires 0 < n <= |pieces| && forall i | 0 <= i < |pieces| :: pieces[i] != ""
    ensures FillFrom(f, PieceAtoms(pieces, joiner)[..n], maxLength)
         == Packing(f.Flushed() + pieces[..n - 1], pieces[n - 1])
  {
    var atoms := PieceAtoms(pieces, joiner);
    assert atoms[..n][..n - 1] == atoms[..n - 1] && atoms[..n][n - 1] == atoms[n - 1];
    if n == 1 {
      assert f.Flushed() + pieces[..0] == f.Flushed();
    } else {
      PlacePieces(f, pieces, joiner, n - 1, maxLength);
      assert pieces[..n - 1] == pieces[..n - 2] + [pieces[n - 2]];
      assert f.Flushed() + pieces[..n - 2] + [pieces[n - 2]] == f.Flushed() + pieces[..n - 1];
    }
  }

  lemma PlaceAllPieces(f: Packing, pieces: seq<string>, joiner: string, maxLength: nat)
    requires pieces != [] && forall i | 0 <= i < |pieces| :: pieces[i] != ""
    ensures FillFrom(f, PieceAtoms(pieces, joiner), maxLength)
         == Packing(f.Flushed() + pieces[..|pieces| - 1], pieces[|pieces| - 1])
  {
    PlacePieces(f, pieces, joiner, |pieces|, maxLength);
    assert PieceAtoms(pieces, joiner)[..|pieces|] == PieceAtoms(pieces, joiner);
  }

  /** A full last chunk may be open or finished. */
  lemma FlushedAlike(before: seq<string>, p: Packing, maxLength: nat)
    requires maxLength > 0 && p.chunks != [] && (p.current == "" ==> |p.chunks[|p.chunks| - 1]| >= maxLength)
    ensures var all := p.Flushed();
            Alike(Packing(before + p.chunks, p.current), Packing(before + all[..|all| - 1], all[|all| - 1]), maxLength)
  {
    var all := p.Flushed();
    assert before + all[..|all| - 1] + [all[|all| - 1]] == before + all;
    if p.current != "" {
      assert all[..|all| - 1] == p.chunks;
    }
  }

  /** The pieces of a word that is too long, as packed and as filled. */
  lemma OversizedWord(p: Packing, f: Packing, word: string, joiner: string, opens: bool, maxLength: nat)
    requires maxLength > 0 && |word| > maxLength && p.Flushed() == f.Flushed()
    ensures var pieces := HardSplit(word, maxLength);
            Alike(Packing(p.Flushed() + pieces.chunks, pieces.current),
                  FillFrom(f, WordAtoms(word, joiner, opens, maxLength), maxLength), maxLength)
  {
    var pieces := HardSplit(word, maxLength);
    CutPieces(word, maxLength);
    HardSplitFull(word, maxLength);
    PlaceAllPieces(f, pieces.Flushed(), joiner, maxLength);
    FlushedAlike(p.Flushed(), pieces, maxLength);
  }

  /** Adding a word to a packing is filling in its atoms. */
  lemma AddWordFills(p: Packing, f: Packing, word: string, maxLength: nat)
    requires maxLength > 0 && word != "" && Alike(p, f, maxLength)
    ensures Alike(AddWord(p, word, maxLength), FillFrom(f, WordAtoms(word, " ", false, maxLength), maxLength),
                  maxLength)
  {
    if |word| <= maxLength {
      FillOne(f, Atom(word, " ", false), maxLength);
      PlaceFitting(p, f, Atom(word, " ", false), maxLength);
      FlushedWhenClosed(p);
    } else {
      OversizedWord(p, f, word, " ", false, maxLength);
    }
  }

  lemma FlushedWhenClosed(p: Packing)
    ensures p.current == "" ==> p.Flushed() == p.chunks
  {
  }

  /** The first word after a flush. */
  lemma FirstWordFills(p: Packing, f: Packing, word: string, joiner: string, maxLength: nat)
    requires maxLength > 0 && word != "" && p.Flushed() == f.Flushed()
    ensures Alike(AddWord(Packing(p.Flushed(), ""), word, maxLength),
                  FillFrom(f, WordAtoms(word, joiner, true, maxLength), maxLength), maxLength)
  {
    var flushed := Packing(p.Flushed(), "");
    FlushedWhenClosed(flushed);
    if |word| <= maxLength {
      FillOne(f, Atom(word, joiner, true), maxLength);
    } else {
      OversizedWord(flushed, f, word, joiner, true, maxLength);
    }
  }

  // ---------------------------------------------------------------- words, segments, paragraphs

  lemma WordsAtomsSnoc(words: seq<string>, word: string, joiner: string, opens: bool, maxLength: nat)
    requires maxLength > 0 && words != []
    ensures WordsAtoms(words + [word], joiner, opens, maxLength)
         == WordsAtoms(words, joiner, opens, maxLength) + WordAtoms(word, " ", false, maxLength)
  {
    assert (words + [word])[..|words|] == words;
  }

  /** Packing the words of a text after a flush is filling in its atoms. */
  lemma {:induction false} WordsFill(p: Packing, f: Packing, words: seq<string>, joiner: string, maxLength: nat)
    requires maxLength > 0 && words != [] && AllWords(words) && p.Flushed() == f.Flushed()
    ensures var packed := PackWords(words, maxLength);
            Alike(Packing(p.Flushed() + packed.chunks, packed.current),
                  FillFrom(f, WordsAtoms(words, joiner, true, maxLength), maxLength), maxLength)
  {
    var init, word := words[..|words| - 1], words[|words| - 1];
    var before := PackWords(init, maxLength);
    AddWordAfter(p.Flushed(), before, word, maxLength);
    if init == [] {
      assert words == [word] && p.Flushed() + [] == p.Flushed();
      FirstWordFills(p, f, word, joiner, maxLength);
    } else {
      WordsFill(p, f, init, joiner, maxLength);
      assert words == init + [word];
      WordsAtomsSnoc(init, word, joiner, true, maxLength);
      var q := FillFrom(f, WordsAtoms(init, joiner, true, maxLength), maxLength);
      AddWordFills(Packing(p.Flushed() + before.chunks, before.current), q, word, maxLength);
      FillAppend(f, WordsAtoms(init, joiner, true, maxLength), WordAtoms(word, " ", false, maxLength), maxLength);
    }
  }

  function JoinerOf(segment: Segment): string {
    if segment.separator == Blank then "\n\n" else " "
  }

  function SegmentAtoms(segment: Segment, maxLength: nat): seq<Atom>
    requires maxLength > 0
  {
    SentenceAtoms(segment.text, JoinerOf(segment), maxLength)
  }

  function AllSegmentAtoms(segments: seq<Segment>, maxLength: nat): seq<Atom>
    requires maxLength > 0
  {
    if segments == [] then []
    else
      AllSegmentAtoms(segments[..|segments| - 1], maxLength) + SegmentAtoms(segments[|segments| - 1], maxLength)
  }

  lemma WordsExist(s: string)
    requires Trimmed(s)
    ensures SplitWords(s) == WordsOf(s) && AllWords(WordsOf(s)) && WordsOf(s) != []
  {
    SplitGivesWords(s);
    WordsOfTrimmed(s);
  }

  /** Adding a segment to a packing is filling in its atoms. */
  lemma AddSegmentFills(p: Packing, f: Packing, segment: Segment, maxLength: nat)
    requires maxLength > 0 && Trimmed(segment.text) && Alike(p, f, maxLength)
    ensures Alike(AddSegment(p, segment, maxLength), FillFrom(f, SegmentAtoms(segment, maxLength), maxLength),
                  maxLength)
  {
    if |segment.text| <= maxLength {
      FillOne(f, Atom(segment.text, JoinerOf(segment), false), maxLength);
      PlaceFitting(p, f, Atom(segment.text, JoinerOf(segment), false), maxLength);
      FlushedWhenClosed(p);
    } else {
      WordsExist(segment.text);
      WordsFill(p, f, WordsOf(segment.text), JoinerOf(segment), maxLength);
    }
  }

  lemma {:induction false} SegmentsFill(segments: seq<Segment>, maxLength: nat)
    requires maxLength > 0 && forall i | 0 <= i < |segments| :: Trimmed(segments[i].text)
    ensures Alike(PackSegments(segments, maxLength),
                  FillFrom(Packing([], ""), AllSegmentAtoms(segments, maxLength), maxLength), maxLength)
  {
    if segments != [] {
      var init, last := segments[..|segments| - 1], segments[|segments| - 1];
      SegmentsFill(init, maxLength);
      AddSegmentFills(PackSegments(init, maxLength),
                      FillFrom(Packing([], ""), AllSegmentAtoms(init, maxLength), maxLength), last, maxLength);
      FillAppend(Packing([], ""), AllSegmentAtoms(init, maxLength), SegmentAtoms(last, maxLength), maxLength);
    }
  }

  lemma AllSegmentAtomsSnoc(segments: seq<Segment>, segment: Segment, maxLength: nat)
    requires maxLength > 0
    ensures AllSegmentAtoms(segments + [segment], maxLength)
         == AllSegmentAtoms(segments, maxLength) + SegmentAtoms(segment, maxLength)
  {
    assert (segments + [segment])[..|segments|] == segments;
  }

  lemma Associative<T>(a: seq<T>, b: seq<T>, c: seq<T>)
    ensures a + b + c == a + (b + c)
    ensures a + [] == a
  {
  }

  lemma LastApart<T>(xs: seq<T>)
    requires xs != []
    ensures xs[..|xs| - 1] + [xs[|xs| - 1]] == xs
  {
  }

  lemma {:induction false} AllSegmentAtomsAppend(a: seq<Segment>, b: seq<Segment>, maxLength: nat)
    requires maxLength > 0
    ensures AllSegmentAtoms(a + b, maxLength) == AllSegmentAtoms(a, maxLength) + AllSegmentAtoms(b, maxLength)
  {
    if b == [] {
      Associative(a, [], []);
      Associative(AllSegmentAtoms(a, maxLength), [], []);
    } else {
      var init, last := b[..|b| - 1], b[|b| - 1];
      AllSegmentAtomsAppend(a, init, maxLength);
      AllSegmentAtomsSnoc(a + init, last, maxLength);
      LastApart(b);
      Associative(a, init, [last]);
      Associative(AllSegmentAtoms(a, maxLength), AllSegmentAtoms(init, maxLength), SegmentAtoms(last, maxLength));
    }
  }

  lemma LabelledInit(texts: seq<string>)
    requires texts != []
    ensures Labelled(texts)[..|texts| - 1] == Labelled(texts[..|texts| - 1])
    ensures Labelled(texts)[|texts| - 1] == Segment(texts[|texts| - 1], if |texts| == 1 then Blank else Space)
  {
  }

  lemma {:induction false} LabelledSentences(sentences: seq<string>, maxLength: nat)
    requires maxLength > 0
    ensures AllSegmentAtoms(Labelled(sentences), maxLength) == SentencesAtoms(sentences, maxLength)
  {
    if sentences != [] {
      LabelledInit(sentences);
      LabelledSentences(sentences[..|sentences| - 1], maxLength);
    }
  }

  /** A word that is a segment of its own is filled in like a word. */
  lemma SentenceOfWord(word: string, joiner: string, maxLength: nat)
    requires maxLength > 0 && IsWord(word)
    ensures SentenceAtoms(word, joiner, maxLength) == WordAtoms(word, joiner, false, maxLength)
  {
    OneWord(word);
  }

  lemma {:induction false} LabelledWords(words: seq<string>, maxLength: nat)
    requires maxLength > 0 && AllWords(words)
    ensures AllSegmentAtoms(Labelled(words), maxLength) == WordsAtoms(words, "\n\n", false, maxLength)
  {
    if words != [] {
      var init, word := words[..|words| - 1], words[|words| - 1];
      LabelledInit(words);
      LabelledWords(init, maxLength);
      SentenceOfWord(word, if |words| == 1 then "\n\n" else " ", maxLength);
      if init == [] {
        assert words == [word];
      }
    }
  }

  /** Where the sentence scan finds something, it finds the sentences of what is delivered. */
  lemma BrokenSentences(paragraph: string, maxLength: nat)
    requires Trimmed(paragraph) && |paragraph| > maxLength && !Unbroken(paragraph)
    ensures StripAll(FindSentences(paragraph)) == Sentences(paragraph, maxLength) != []
  {
    SentencesExist(paragraph);
    SentencesCutBehindRuns(paragraph);
  }

  lemma UnbrokenSentences(paragraph: string)
    requires Trimmed(paragraph) && !SaysMore(paragraph)
    ensures StripAll(FindSentences(paragraph)) == []
  {
    SentencesExist(paragraph);
  }

  lemma ParagraphFills(paragraph: string, maxLength: nat)
    requires maxLength > 0 && Trimmed(paragraph)
    ensures AllSegmentAtoms(ExpandParagraph(paragraph, maxLength), maxLength) == ParagraphAtoms(paragraph, maxLength)
  {
    if |paragraph| <= maxLength {
      AllSegmentAtomsSnoc([], Segment(paragraph, Blank), maxLength);
      assert [] + [Segment(paragraph, Blank)] == [Segment(paragraph, Blank)];
    } else if Unbroken(paragraph) {
      WordsExist(paragraph);
      LabelledWords(SplitWords(paragraph), maxLength);
      if !SaysMore(paragraph) {
        UnbrokenSentences(paragraph);
      }
    } else {
      BrokenSentences(paragraph, maxLength);
      LabelledSentences(Sentences(paragraph, maxLength), maxLength);
    }
  }

  lemma {:induction false} ParagraphsFill(paragraphs: seq<string>, maxLength: nat)
    requires maxLength > 0 && forall i | 0 <= i < |paragraphs| :: Trimmed(paragraphs[i])
    ensures AllSegmentAtoms(ExpandAll(paragraphs, maxLength), maxLength) == Atoms(paragraphs, maxLength)
  {
    if paragraphs != [] {
      var init, last := paragraphs[..|paragraphs| - 1], paragraphs[|paragraphs| - 1];
      ParagraphsFill(init, maxLength);
      ParagraphFills(last, maxLength);
      AllSegmentAtomsAppend(ExpandAll(init, maxLength), ExpandParagraph(last, maxLength), maxLength);
    }
  }

  /**
   * The whole chunker: the chunks of a text are its atoms, filled in greedily.  So no paragraph, sentence or word that
   * fits is ever torn; sentences and words join by one space and paragraphs by one blank line; and a chunk ends only
   * where the next atom does not fit or has to open a chunk.
   */
  lemma ChunksAreFilled(text: string, maxLength: nat)
    requires maxLength > 0
    ensures Chunks(text, maxLength) == Filled(Atoms(Paragraphs(text), maxLength), maxLength)
  {
    StrippedEndVisibly(SplitParagraphs(Normalize(text)));
    SegmentsArePlain(text, maxLength, false);
    ParagraphsFill(Paragraphs(text), maxLength);
    SegmentsFill(Segments(text, maxLength), maxLength);
  }

  // ---------------------------------------------------------------- where atoms end up

  predicate AllShow(atoms: seq<Atom>) {
    forall i | 0 <= i < |atoms| :: atoms[i].text != ""
  }

  /** The two texts stand in one chunk with the separator between them, or at the border of two chunks. */
  predicate Meet(a: string, joiner: string, b: string, chunks: seq<string>) {
    || OccursIn(a + joiner + b, chunks)
    || exists k | 0 <= k < |chunks| - 1 :: Borders(chunks[k], a, chunks[k + 1], b)
  }

  predicate Borders(chunk: string, a: string, next: string, b: string) {
    IsSuffix(a, chunk) && b <= next
  }

  /** The open chunk ends with the atom placed last. */
  lemma {:induction false} FilledEnds(atoms: seq<Atom>, maxLength: nat)
    requires AllShow(atoms) && atoms != []
    ensures var p := FillFrom(Packing([], ""), atoms, maxLength);
            p.current != "" && IsSuffix(atoms[|atoms| - 1].text, p.current)
  {
  }

  /** Placing an atom extends the last chunk or opens another one. */
  lemma PlaceExtends(p: Packing, a: Atom, maxLength: nat)
    ensures Extends(p.Flushed(), Place(p, a, maxLength).Flushed())
  {
  }

  lemma MeetLater(a: string, joiner: string, b: string, earlier: seq<string>, later: seq<string>)
    requires Meet(a, joiner, b, earlier) && Extends(earlier, later)
    ensures Meet(a, joiner, b, later)
  {
    if OccursIn(a + joiner + b, earlier) {
      OccursLater(a + joiner + b, earlier, later);
    } else {
      var k :| 0 <= k < |earlier| - 1 && Borders(earlier[k], a, earlier[k + 1], b);
      assert later[k] == earlier[k] && earlier[k + 1] <= later[k + 1];
      assert Borders(later[k], a, later[k + 1], b);
    }
  }

  /** An atom meets the one placed before it, in the same chunk behind its separator, or across a border. */
  lemma PlaceMeets(p: Packing, last: string, a: Atom, maxLength: nat)
    requires p.current != "" && IsSuffix(last, p.current) && a.text != ""
    ensures Meet(last, a.joiner, a.text, Place(p, a, maxLength).Flushed())
  {
    var q := Place(p, a, maxLength);
    var n := |p.chunks|;
    if !a.opens && |p.current + a.joiner + a.text| <= maxLength {
      var front := Before(p.current, last);
      SuffixParts(p.current, last);
      assert q.current == front + (last + a.joiner + a.text);
      OccursAtEnd(front, last + a.joiner + a.text);
      assert q.Flushed()[n] == q.current;
    } else {
      assert q.Flushed()[n] == p.current && q.Flushed()[n + 1] == a.text;
      assert Borders(q.Flushed()[n], last, q.Flushed()[n + 1], a.text);
    }
  }

  /** Neighbouring atoms meet. */
  lemma {:induction false} NeighboursMeet(atoms: seq<Atom>, maxLength: nat, i: nat)
    requires AllShow(atoms) && i + 1 < |atoms|
    ensures Meet(atoms[i].text, atoms[i + 1].joiner, atoms[i + 1].text, Filled(atoms, maxLength))
  {
    var n := |atoms| - 1;
    var before := FillFrom(Packing([], ""), atoms[..n], maxLength);
    if i + 1 < n {
      NeighboursMeet(atoms[..n], maxLength, i);
      PlaceExtends(before, atoms[n], maxLength);
      MeetLater(atoms[i].text, atoms[i + 1].joiner, atoms[i + 1].text, before.Flushed(), Filled(atoms, maxLength));
    } else {
      FilledEnds(atoms[..n], maxLength);
      PlaceMeets(before, atoms[i].text, atoms[n], maxLength);
    }
  }

  /** No atom is torn. */
  lemma {:induction false} AtomStaysWhole(atoms: seq<Atom>, maxLength: nat, i: nat)
    requires AllShow(atoms) && i < |atoms|
    ensures OccursIn(atoms[i].text, Filled(atoms, maxLength))
  {
    var n := |atoms| - 1;
    var before, after := FillFrom(Packing([], ""), atoms[..n], maxLength), FillFrom(Packing([], ""), atoms, maxLength);
    if i < n {
      AtomStaysWhole(atoms[..n], maxLength, i);
      PlaceExtends(before, atoms[n], maxLength);
      OccursLater(atoms[i].text, before.Flushed(), after.Flushed());
    } else {
      FilledEnds(atoms, maxLength);
      SuffixParts(after.current, atoms[n].text);
      OccursAtEnd(Before(after.current, atoms[n].text), atoms[n].text);
      assert after.Flushed()[|after.chunks|] == after.current;
    }
  }
}
