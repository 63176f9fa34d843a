/** What the filling of atoms means for a text: which of its parts stay whole, and how neighbours are joined. */
module ChunkingUnits {
  import opened Text
  import opened Chunking
  import opened ChunkingConservation
  import opened ChunkingShape
  import opened ChunkingFixpoint
  import opened ChunkingWords
  import opened ChunkingTokens
  import opened ChunkingAtoms

  // ---------------------------------------------------------------- parts of an atom list

  predicate StartsAt(part: seq<Atom>, atoms: seq<Atom>, n: nat) {
    n + |part| <= |atoms| && forall k | 0 <= k < |part| :: atoms[n + k] == part[k]
  }

  /** `part` is a contiguous part of `atoms`. */
  predicate Within(part: seq<Atom>, atoms: seq<Atom>) {
    exists n: nat | n <= |atoms| :: StartsAt(part, atoms, n)
  }

  lemma WithinLonger(part: seq<Atom>, atoms: seq<Atom>, after: seq<Atom>)
    requires Within(part, atoms)
    ensures Within(part, atoms + after)
  {
    var n: nat :| n <= |atoms| && StartsAt(part, atoms, n);
    assert StartsAt(part, atoms + after, n);
  }

  lemma WithinTransitive(a: seq<Atom>, b: seq<Atom>, c: seq<Atom>)
    requires Within(a, b) && Within(b, c)
    ensures Within(a, c)
  {
    var i: nat :| i <= |b| && StartsAt(a, b, i);
    var j: nat :| j <= |c| && StartsAt(b, c, j);
    forall k | 0 <= k < |a|
      ensures c[j + i + k] == a[k]
    {
      assert b[i + k] == a[k] && c[j + (i + k)] == b[i + k];
    }
    assert StartsAt(a, c, j + i);
  }

  lemma WithinEnd(before: seq<Atom>, part: seq<Atom>)
    ensures Within(part, before + part)
  {
    assert StartsAt(part, before + part, |before|);
  }

  lemma PairAtEnd(before: seq<Atom>, a: seq<Atom>, b: seq<Atom>)
    ensures Within(a + b, before + a + b)
  {
    WithinEnd(before, a + b);
    Associative(before, a, b);
  }

  lemma WholeWithin(part: seq<Atom>, atoms: seq<Atom>, maxLength: nat)
    requires AllShow(atoms) && Within(part, atoms) && |part| == 1
    ensures OccursIn(part[0].text, Filled(atoms, maxLength))
  {
    var n: nat :| n <= |atoms| && StartsAt(part, atoms, n);
    assert atoms[n] == part[0];
    AtomStaysWhole(atoms, maxLength, n);
  }

  lemma MeetWithin(part: seq<Atom>, atoms: seq<Atom>, maxLength: nat)
    requires AllShow(atoms) && Within(part, atoms) && |part| == 2
    ensures Meet(part[0].text, part[1].joiner, part[1].text, Filled(atoms, maxLength))
  {
    var n: nat :| n <= |atoms| && StartsAt(part, atoms, n);
    assert atoms[n] == part[0] && atoms[n + 1] == part[1];
    NeighboursMeet(atoms, maxLength, n);
  }

  // ---------------------------------------------------------------- every atom shows something

  lemma ShowAppend(a: seq<Atom>, b: seq<Atom>)
    requires AllShow(a) && AllShow(b)
    ensures AllShow(a + b)
  {
  }

  lemma WordShows(word: string, joiner: string, opens: bool, maxLength: nat)
    requires maxLength > 0 && word != ""
    ensures AllShow(WordAtoms(word, joiner, opens, maxLength))
  {
    CutPieces(word, maxLength);
  }

  lemma {:induction false} WordsShow(words: seq<string>, joiner: string, opens: bool, maxLength: nat)
    requires maxLength > 0 && AllWords(words)
    ensures AllShow(WordsAtoms(words, joiner, opens, maxLength))
  {
    if |words| == 1 {
      WordShows(words[0], joiner, opens, maxLength);
    } else if words != [] {
      var init, word := words[..|words| - 1], words[|words| - 1];
      WordsShow(init, joiner, opens, maxLength);
      WordShows(word, " ", false, maxLength);
      ShowAppend(WordsAtoms(init, joiner, opens, maxLength), WordAtoms(word, " ", false, maxLength));
    }
  }

  lemma OneSentenceShows(sentence: string, joiner: string, maxLength: nat)
    requires maxLength > 0 && Trimmed(sentence)
    ensures AllShow(SentenceAtoms(sentence, joiner, maxLength))
  {
    WordsExist(sentence);
    WordsShow(WordsOf(sentence), joiner, true, maxLength);
  }

  lemma {:induction false} SentencesShow(sentences: seq<string>, maxLength: nat)
    requires maxLength > 0 && forall i | 0 <= i < |sentences| :: Trimmed(sentences[i])
    ensures AllShow(SentencesAtoms(sentences, maxLength))
  {
    if sentences != [] {
      var init, last := sentences[..|sentences| - 1], sentences[|sentences| - 1];
      var joiner := if |sentences| == 1 then "\n\n" else " ";
      SentencesShow(init, maxLength);
      OneSentenceShows(last, joiner, maxLength);
      ShowAppend(SentencesAtoms(init, maxLength), SentenceAtoms(last, joiner, maxLength));
    }
  }

  lemma ParagraphShows(paragraph: string, maxLength: nat)
    requires maxLength > 0 && Trimmed(paragraph)
    ensures AllShow(ParagraphAtoms(paragraph, maxLength))
  {
    WordsExist(paragraph);
    WordsShow(WordsOf(paragraph), "\n\n", false, maxLength);
    StrippedEndVisibly(CutBehindRuns(Delivered(paragraph, maxLength)));
    SentencesShow(Sentences(paragraph, maxLength), maxLength);
  }

  lemma {:induction false} ParagraphsShow(paragraphs: seq<string>, maxLength: nat)
    requires maxLength > 0 && forall i | 0 <= i < |paragraphs| :: Trimmed(paragraphs[i])
    ensures AllShow(Atoms(paragraphs, maxLength))
  {
    if paragraphs != [] {
      var init, last := paragraphs[..|paragraphs| - 1], paragraphs[|paragraphs| - 1];
      ParagraphsShow(init, maxLength);
      ParagraphShows(last, maxLength);
      ShowAppend(Atoms(init, maxLength), ParagraphAtoms(last, maxLength));
    }
  }

  lemma TextShows(text: string, maxLength: nat)
    requires maxLength > 0
    ensures AllShow(Atoms(Paragraphs(text), maxLength))
  {
    StrippedEndVisibly(SplitParagraphs(Normalize(text)));
    ParagraphsShow(Paragraphs(text), maxLength);
  }

  // ---------------------------------------------------------------- where paragraphs and sentences are

  lemma AtomsSnoc(paragraphs: seq<string>, paragraph: string, maxLength: nat)
    requires maxLength > 0
    ensures Atoms(paragraphs + [paragraph], maxLength)
         == Atoms(paragraphs, maxLength) + ParagraphAtoms(paragraph, maxLength)
  {
    assert (paragraphs + [paragraph])[..|paragraphs|] == paragraphs;
  }

  lemma {:induction false} ParagraphsGoOn(part: seq<Atom>, before: seq<string>, after: seq<string>, maxLength: nat)
    requires maxLength > 0 && Within(part, Atoms(before, maxLength))
    ensures Within(part, Atoms(before + after, maxLength))
  {
    if after == [] {
      assert before + after == before;
    } else {
      var init, last := after[..|after| - 1], after[|after| - 1];
      ParagraphsGoOn(part, before, init, maxLength);
      WithinLonger(part, Atoms(before + init, maxLength), ParagraphAtoms(last, maxLength));
      AtomsSnoc(before + init, last, maxLength);
      LastApart(after);
      Associative(before, init, [last]);
    }
  }

  lemma OneOfParagraphs(before: seq<string>, a: string, after: seq<string>, maxLength: nat)
    requires maxLength > 0
    ensures Within(ParagraphAtoms(a, maxLength), Atoms(before + [a] + after, maxLength))
  {
    AtomsSnoc(before, a, maxLength);
    WithinEnd(Atoms(before, maxLength), ParagraphAtoms(a, maxLength));
    ParagraphsGoOn(ParagraphAtoms(a, maxLength), before + [a], after, maxLength);
  }

  lemma OneApart<T>(xs: seq<T>, i: nat)
    requires i < |xs|
    ensures xs[..i] + [xs[i]] + xs[i + 1..] == xs
  {
  }

  lemma ParagraphWithin(paragraphs: seq<string>, i: nat, maxLength: nat)
    requires maxLength > 0 && i < |paragraphs|
    ensures Within(ParagraphAtoms(paragraphs[i], maxLength), Atoms(paragraphs, maxLength))
  {
    OneApart(paragraphs, i);
    OneOfParagraphs(paragraphs[..i], paragraphs[i], paragraphs[i + 1..], maxLength);
  }

  lemma PairOfParagraphs(before: seq<string>, a: string, b: string, after: seq<string>, maxLength: nat)
    requires maxLength > 0
    ensures Within(ParagraphAtoms(a, maxLength) + ParagraphAtoms(b, maxLength),
                   Atoms(before + [a] + [b] + after, maxLength))
  {
    AtomsSnoc(before, a, maxLength);
    AtomsSnoc(before + [a], b, maxLength);
    PairAtEnd(Atoms(before, maxLength), ParagraphAtoms(a, maxLength), ParagraphAtoms(b, maxLength));
    ParagraphsGoOn(ParagraphAtoms(a, maxLength) + ParagraphAtoms(b, maxLength), before + [a] + [b], after, maxLength);
  }

  lemma PairApart<T>(xs: seq<T>, i: nat)
    requires i + 1 < |xs|
    ensures xs[..i] + [xs[i]] + [xs[i + 1]] + xs[i + 2..] == xs
  {
  }

  function SentenceJoiner(i: nat): string {
    if i == 0 then "\n\n" else " "
  }

  lemma SentencesSnoc(sentences: seq<string>, sentence: string, maxLength: nat)
    requires maxLength > 0
    ensures SentencesAtoms(sentences + [sentence], maxLength)
         == SentencesAtoms(sentences, maxLength) + SentenceAtoms(sentence, SentenceJoiner(|sentences|), maxLength)
  {
    assert (sentences + [sentence])[..|sentences|] == sentences;
  }

  lemma {:induction false} SentencesGoOn(part: seq<Atom>, before: seq<string>, after: seq<string>, maxLength: nat)
    requires maxLength > 0 && Within(part, SentencesAtoms(before, maxLength))
    ensures Within(part, SentencesAtoms(before + after, maxLength))
  {
    if after == [] {
      assert before + after == before;
    } else {
      var init, last := after[..|after| - 1], after[|after| - 1];
      var joiner := SentenceJoiner(|before + init|);
      SentencesGoOn(part, before, init, maxLength);
      WithinLonger(part, SentencesAtoms(before + init, maxLength), SentenceAtoms(last, joiner, maxLength));
      SentencesSnoc(before + init, last, maxLength);
      LastApart(after);
      Associative(before, init, [last]);
    }
  }

  lemma OneOfSentences(before: seq<string>, a: string, after: seq<string>, maxLength: nat)
    requires maxLength > 0
    ensures Within(SentenceAtoms(a, SentenceJoiner(|before|), maxLength),
                   SentencesAtoms(before + [a] + after, maxLength))
  {
    var part := SentenceAtoms(a, SentenceJoiner(|before|), maxLength);
    SentencesSnoc(before, a, maxLength);
    WithinEnd(SentencesAtoms(before, maxLength), part);
    SentencesGoOn(part, before + [a], after, maxLength);
  }

  lemma SentenceWithin(sentences: seq<string>, i: nat, maxLength: nat)
    requires maxLength > 0 && i < |sentences|
    ensures Within(SentenceAtoms(sentences[i], SentenceJoiner(i), maxLength), SentencesAtoms(sentences, maxLength))
  {
    OneApart(sentences, i);
    OneOfSentences(sentences[..i], sentences[i], sentences[i + 1..], maxLength);
  }

  lemma PairOfSentences(before: seq<string>, a: string, b: string, after: seq<string>, maxLength: nat)
    requires maxLength > 0
    ensures Within(SentenceAtoms(a, SentenceJoiner(|before|), maxLength) + SentenceAtoms(b, " ", maxLength),
                   SentencesAtoms(before + [a] + [b] + after, maxLength))
  {
    var first := SentenceAtoms(a, SentenceJoiner(|before|), maxLength);
    SentencesSnoc(before, a, maxLength);
    SentencesSnoc(before + [a], b, maxLength);
    PairAtEnd(SentencesAtoms(before, maxLength), first, SentenceAtoms(b, " ", maxLength));
    SentencesGoOn(first + SentenceAtoms(b, " ", maxLength), before + [a] + [b], after, maxLength);
  }

  /** A paragraph that cannot be broken is its own only sentence. */
  lemma UnbrokenIsOneSentence(paragraph: string, maxLength: nat)
    requires Trimmed(paragraph) && Unbroken(paragraph)
    ensures Sentences(paragraph, maxLength) == [paragraph]
  {
    OnePiece(paragraph);
    StripOne(paragraph, []);
    assert [paragraph] + [] == [paragraph];
  }

  lemma ParagraphTrimmed(text: string, i: nat)
    requires i < |Paragraphs(text)|
    ensures Trimmed(Paragraphs(text)[i])
  {
    StrippedEndVisibly(SplitParagraphs(Normalize(text)));
  }

  // ---------------------------------------------------------------- the theorems about a text

  /** A paragraph that fits is found whole in one chunk. */
  lemma ParagraphStaysWhole(text: string, maxLength: nat, i: nat)
    requires maxLength > 0 && i < |Paragraphs(text)| && |Paragraphs(text)[i]| <= maxLength
    ensures OccursIn(Paragraphs(text)[i], Chunks(text, maxLength))
  {
    ChunksAreFilled(text, maxLength);
    TextShows(text, maxLength);
    ParagraphWithin(Paragraphs(text), i, maxLength);
    WholeWithin(ParagraphAtoms(Paragraphs(text)[i], maxLength), Atoms(Paragraphs(text), maxLength), maxLength);
  }

  /** Sentences are only looked for in paragraphs that can be broken. */
  lemma FittingSentence(text: string, maxLength: nat, i: nat, j: nat)
    requires i < |Paragraphs(text)| && |Paragraphs(text)[i]| > maxLength
    requires j < |Sentences(Paragraphs(text)[i], maxLength)|
    requires |Sentences(Paragraphs(text)[i], maxLength)[j]| <= maxLength
    ensures !Unbroken(Paragraphs(text)[i])
  {
    ParagraphTrimmed(text, i);
    if Unbroken(Paragraphs(text)[i]) {
      UnbrokenIsOneSentence(Paragraphs(text)[i], maxLength);
    }
  }

  /** In a paragraph that is too long, every sentence that fits is found whole in one chunk. */
  lemma SentenceStaysWhole(text: string, maxLength: nat, i: nat, j: nat)
    requires maxLength > 0 && i < |Paragraphs(text)| && |Paragraphs(text)[i]| > maxLength
    requires j < |Sentences(Paragraphs(text)[i], maxLength)|
    requires |Sentences(Paragraphs(text)[i], maxLength)[j]| <= maxLength
    ensures OccursIn(Sentences(Paragraphs(text)[i], maxLength)[j], Chunks(text, maxLength))
  {
    var atoms, sentences := Atoms(Paragraphs(text), maxLength), Sentences(Paragraphs(text)[i], maxLength);
    var part := [Atom(sentences[j], SentenceJoiner(j), false)];
    ChunksAreFilled(text, maxLength);
    TextShows(text, maxLength);
    FittingSentence(text, maxLength, i, j);
    ParagraphWithin(Paragraphs(text), i, maxLength);
    SentenceWithin(sentences, j, maxLength);
    WithinTransitive(part, ParagraphAtoms(Paragraphs(text)[i], maxLength), atoms);
    WholeWithin(part, atoms, maxLength);
  }

  /** Neighbouring sentences of such a paragraph are joined by one space, or stand at the border of two chunks. */
  lemma SentencesMeet(text: string, maxLength: nat, i: nat, j: nat)
    requires maxLength > 0 && i < |Paragraphs(text)| && |Paragraphs(text)[i]| > maxLength
    requires j + 1 < |Sentences(Paragraphs(text)[i], maxLength)|
    requires |Sentences(Paragraphs(text)[i], maxLength)[j]| <= maxLength
    requires |Sentences(Paragraphs(text)[i], maxLength)[j + 1]| <= maxLength
    ensures var sentences := Sentences(Paragraphs(text)[i], maxLength);
            Meet(sentences[j], " ", sentences[j + 1], Chunks(text, maxLength))
  {
    var atoms, sentences := Atoms(Paragraphs(text), maxLength), Sentences(Paragraphs(text)[i], maxLength);
    var a, b := Atom(sentences[j], SentenceJoiner(j), false), Atom(sentences[j + 1], " ", false);
    ChunksAreFilled(text, maxLength);
    TextShows(text, maxLength);
    FittingSentence(text, maxLength, i, j);
    ParagraphWithin(Paragraphs(text), i, maxLength);
    PairOfSentences(sentences[..j], sentences[j], sentences[j + 1], sentences[j + 2..], maxLength);
    PairApart(sentences, j);
    WithinTransitive([a] + [b], ParagraphAtoms(Paragraphs(text)[i], maxLength), atoms);
    MeetWithin([a] + [b], atoms, maxLength);
  }

  /** Neighbouring paragraphs that fit are joined by one blank line, or stand at the border of two chunks. */
  lemma ParagraphsMeet(text: string, maxLength: nat, i: nat)
    requires maxLength > 0 && i + 1 < |Paragraphs(text)|
    requires |Paragraphs(text)[i]| <= maxLength && |Paragraphs(text)[i + 1]| <= maxLength
    ensures Meet(Paragraphs(text)[i], "\n\n", Paragraphs(text)[i + 1], Chunks(text, maxLength))
  {
    var a, b := Atom(Paragraphs(text)[i], "\n\n", false), Atom(Paragraphs(text)[i + 1], "\n\n", false);
    ChunksAreFilled(text, maxLength);
    TextShows(text, maxLength);
    PairOfParagraphs(Paragraphs(text)[..i], a.text, b.text, Paragraphs(text)[i + 2..], maxLength);
    PairApart(Paragraphs(text), i);
    MeetWithin([a] + [b], Atoms(Paragraphs(text), maxLength), maxLength);
  }
}
