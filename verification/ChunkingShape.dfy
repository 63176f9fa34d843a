/** Where the chunker cuts: chunks are as full as they can be, and words and fitting segments stay whole. */
module ChunkingShape {
  import opened Text
  import opened Chunking
  import opened ChunkingConservation

  // ---------------------------------------------------------------- near-greedy packing

  /** Two texts that could not have been joined by `gap` characters. */
  predicate Apart(a: string, gap: nat, b: string, maxLength: nat) {
    |a| + gap + |b| > maxLength
  }

  /** Two chunks that could not have been joined by a space. */
  predicate Tight(a: string, b: string, maxLength: nat) {
    Apart(a, 1, b, maxLength)
  }

  predicate TightAt(chunks: seq<string>, i: nat, maxLength: nat)
    requires i + 1 < |chunks|
  {
    Tight(chunks[i], chunks[i + 1], maxLength)
  }

  /** An empty run follows a full chunk. */
  predicate FullBeforeEmpty(p: Packing, maxLength: nat) {
    p.current == "" && p.chunks != [] ==> |p.chunks[|p.chunks| - 1]| >= maxLength
  }

  predicate AllTight(p: Packing, maxLength: nat) {
    && FullBeforeEmpty(p, maxLength)
    && forall i: nat | i + 1 < |p.Flushed()| :: TightAt(p.Flushed(), i, maxLength)
  }

  lemma {:induction false} HardSplitTight(word: string, maxLength: nat)
    requires |word| >= maxLength > 0
    ensures var p := HardSplit(word, maxLength);
            p.chunks != [] && |p.chunks[0]| == maxLength && AllTight(p, maxLength)
  {
    var rest := HardSplit(word[maxLength..], maxLength);
    var p := HardSplit(word, maxLength);
    assert p.Flushed() == [word[..maxLength]] + rest.Flushed();
    if |word| - maxLength >= maxLength {
      HardSplitTight(word[maxLength..], maxLength);
      forall i: nat | i + 1 < |p.Flushed()|
        ensures TightAt(p.Flushed(), i, maxLength)
      {
        assert i > 0 ==> TightAt(rest.Flushed(), i - 1, maxLength);
      }
    }
  }

  /** Appending a tight packing after a flush stays tight when the two meet tightly. */
  lemma JoinTight(p: Packing, next: Packing, maxLength: nat)
    requires AllTight(p, maxLength) && AllTight(next, maxLength)
    requires p.Flushed() != [] && next.Flushed() != [] ==>
               Tight(p.Flushed()[|p.Flushed()| - 1], next.Flushed()[0], maxLength)
    requires next.Flushed() != []
    ensures AllTight(Packing(p.Flushed() + next.chunks, next.current), maxLength)
  {
    var q := Packing(p.Flushed() + next.chunks, next.current);
    var n := |p.Flushed()|;
    assert q.Flushed() == p.Flushed() + next.Flushed();
    forall i: nat | i + 1 < |q.Flushed()|
      ensures TightAt(q.Flushed(), i, maxLength)
    {
      if i + 1 < n {
        assert TightAt(p.Flushed(), i, maxLength);
      } else if i >= n {
        assert TightAt(next.Flushed(), i - n, maxLength);
      }
    }
  }

  /** Growing the open run, or opening it after a full chunk, keeps every boundary tight. */
  lemma GrowTight(p: Packing, longer: string, maxLength: nat)
    requires AllTight(p, maxLength) && |longer| >= |p.current| && longer != ""
    ensures AllTight(Packing(p.chunks, longer), maxLength)
  {
    var q := Packing(p.chunks, longer);
    forall i: nat | i + 1 < |q.Flushed()|
      ensures TightAt(q.Flushed(), i, maxLength)
    {
      if i + 1 < |p.Flushed()| {
        assert TightAt(p.Flushed(), i, maxLength);
      }
    }
  }

  lemma AddWordTight(p: Packing, word: string, maxLength: nat)
    requires maxLength > 0 && AllTight(p, maxLength)
    ensures AllTight(AddWord(p, word, maxLength), maxLength)
  {
    var candidate := if p.current == "" then word else p.current + " " + word;
    if |candidate| <= maxLength {
      if candidate != "" {
        GrowTight(p, candidate, maxLength);
      }
    } else if |word| <= maxLength {
      var next := Packing([], word);
      assert p.Flushed() + next.chunks == p.Flushed();
      if word != "" {
        JoinTight(p, next, maxLength);
      }
    } else {
      HardSplitTight(word, maxLength);
      JoinTight(p, HardSplit(word, maxLength), maxLength);
    }
  }

  lemma {:induction false} PackWordsTight(words: seq<string>, maxLength: nat)
    requires maxLength > 0
    ensures AllTight(PackWords(words, maxLength), maxLength)
  {
    if words != [] {
      PackWordsTight(words[..|words| - 1], maxLength);
      AddWordTight(PackWords(words[..|words| - 1], maxLength), words[|words| - 1], maxLength);
    }
  }

  /** `later` begins with the chunks of `earlier`, the last of which may have been extended. */
  predicate Extends(earlier: seq<string>, later: seq<string>) {
    && |earlier| <= |later|
    && forall i | 0 <= i < |earlier| :: if i + 1 < |earlier| then later[i] == earlier[i] else earlier[i] <= later[i]
  }

  /** The number of characters by which a segment would have joined the run before it. */
  function Gap(segment: Segment): nat {
    if segment.separator == Blank then 2 else 1
  }

  /** Segment `j` opens the chunk behind boundary `i`: the chunks so far are all that its predecessors produce. */
  predicate Opens(segments: seq<Segment>, maxLength: nat, i: nat, j: nat)
    requires maxLength > 0 && i + 1 < |PackSegments(segments, maxLength).Flushed()|
  {
    && j < |segments|
    && PackSegments(segments[..j], maxLength).Flushed() == PackSegments(segments, maxLength).Flushed()[..i + 1]
  }

  ghost predicate BeforeOversized(segments: seq<Segment>, maxLength: nat, i: nat)
    requires maxLength > 0 && i + 1 < |PackSegments(segments, maxLength).Flushed()|
  {
    exists j: nat :: Opens(segments, maxLength, i, j) && |segments[j].text| > maxLength
  }

  /** The segment behind boundary `i` fits a chunk, but could not have joined the one before. */
  ghost predicate BeforeFitting(segments: seq<Segment>, maxLength: nat, i: nat)
    requires maxLength > 0 && i + 1 < |PackSegments(segments, maxLength).Flushed()|
  {
    var out := PackSegments(segments, maxLength).Flushed();
    exists j: nat ::
      && Opens(segments, maxLength, i, j)
      && segments[j].text <= out[i + 1]
      && Apart(out[i], Gap(segments[j]), segments[j].text, maxLength)
  }

  /** A cut inside an over-long segment, the start of a segment that did not fit in, or that of an over-long one. */
  ghost predicate BoundaryOk(segments: seq<Segment>, maxLength: nat, i: nat)
    requires maxLength > 0 && i + 1 < |PackSegments(segments, maxLength).Flushed()|
  {
    || TightAt(PackSegments(segments, maxLength).Flushed(), i, maxLength)
    || BeforeFitting(segments, maxLength, i)
    || BeforeOversized(segments, maxLength, i)
  }

  ghost predicate NearGreedy(segments: seq<Segment>, maxLength: nat)
    requires maxLength > 0
  {
    forall i: nat | i + 1 < |PackSegments(segments, maxLength).Flushed()| :: BoundaryOk(segments, maxLength, i)
  }

  /** In particular, no blank line could have joined two neighbours, except right before an over-long segment. */
  lemma NeighboursNeverFit(segments: seq<Segment>, maxLength: nat, i: nat)
    requires maxLength > 0 && NearGreedy(segments, maxLength)
    requires i + 1 < |PackSegments(segments, maxLength).Flushed()| && !BeforeOversized(segments, maxLength, i)
    ensures var out := PackSegments(segments, maxLength).Flushed(); Apart(out[i], 2, out[i + 1], maxLength)
  {
    assert BoundaryOk(segments, maxLength, i);
  }

  lemma PackSnoc(init: seq<Segment>, segment: Segment, maxLength: nat)
    requires maxLength > 0
    ensures PackSegments(init + [segment], maxLength) == AddSegment(PackSegments(init, maxLength), segment, maxLength)
  {
    assert (init + [segment])[..|init|] == init;
  }

  lemma AddSegmentExtends(p: Packing, segment: Segment, maxLength: nat)
    requires maxLength > 0
    ensures Extends(p.Flushed(), AddSegment(p, segment, maxLength).Flushed())
  {
  }

  lemma ExtendsPrefix(earlier: seq<string>, later: seq<string>, i: nat)
    requires Extends(earlier, later) && i + 1 < |earlier|
    ensures later[..i + 1] == earlier[..i + 1] && earlier[i + 1] <= later[i + 1] && later[i] == earlier[i]
  {
  }

  /** Who opened the chunk behind an old boundary does not change. */
  lemma OpensLater(init: seq<Segment>, segment: Segment, maxLength: nat, i: nat, j: nat)
    requires maxLength > 0 && i + 1 < |PackSegments(init, maxLength).Flushed()| && Opens(init, maxLength, i, j)
    ensures i + 1 < |PackSegments(init + [segment], maxLength).Flushed()|
    ensures Opens(init + [segment], maxLength, i, j) && (init + [segment])[j] == init[j]
  {
    PackSnoc(init, segment, maxLength);
    AddSegmentExtends(PackSegments(init, maxLength), segment, maxLength);
    ExtendsPrefix(PackSegments(init, maxLength).Flushed(), PackSegments(init + [segment], maxLength).Flushed(), i);
    assert (init + [segment])[..j] == init[..j];
  }

  /** A boundary that was in order before one more segment is packed stays in order. */
  lemma OldBoundary(init: seq<Segment>, segment: Segment, maxLength: nat, i: nat)
    requires maxLength > 0 && i + 1 < |PackSegments(init, maxLength).Flushed()| && BoundaryOk(init, maxLength, i)
    ensures i + 1 < |PackSegments(init + [segment], maxLength).Flushed()|
    ensures BoundaryOk(init + [segment], maxLength, i)
  {
    var before, after := PackSegments(init, maxLength).Flushed(), PackSegments(init + [segment], maxLength).Flushed();
    PackSnoc(init, segment, maxLength);
    AddSegmentExtends(PackSegments(init, maxLength), segment, maxLength);
    ExtendsPrefix(before, after, i);
    if TightAt(before, i, maxLength) {
      assert TightAt(after, i, maxLength);
    } else if BeforeFitting(init, maxLength, i) {
      var j: nat :| && Opens(init, maxLength, i, j) && init[j].text <= before[i + 1]
                    && Apart(before[i], Gap(init[j]), init[j].text, maxLength);
      OpensLater(init, segment, maxLength, i, j);
    } else {
      var j: nat :| Opens(init, maxLength, i, j) && |init[j].text| > maxLength;
      OpensLater(init, segment, maxLength, i, j);
    }
  }

  /** An over-long segment starts after a flush, and the cuts inside it are tight. */
  lemma OversizedBoundary(p: Packing, segment: Segment, maxLength: nat, i: nat)
    requires maxLength > 0 && |segment.text| > maxLength
    requires |p.Flushed()| <= i + 1 < |AddSegment(p, segment, maxLength).Flushed()|
    ensures var out := AddSegment(p, segment, maxLength).Flushed();
            if i + 1 == |p.Flushed()| then out[..i + 1] == p.Flushed() else TightAt(out, i, maxLength)
  {
    var words := PackWords(SplitWords(segment.text), maxLength);
    PackWordsTight(SplitWords(segment.text), maxLength);
    assert AddSegment(p, segment, maxLength).Flushed() == p.Flushed() + words.Flushed();
    if i + 1 > |p.Flushed()| {
      assert TightAt(words.Flushed(), i - |p.Flushed()|, maxLength);
    }
  }

  /** A fitting segment only opens a new chunk when it could not join the run before it. */
  lemma FittingBoundary(p: Packing, segment: Segment, maxLength: nat, i: nat)
    requires maxLength > 0 && FullBeforeEmpty(p, maxLength) && |segment.text| <= maxLength && segment.text != ""
    requires |p.Flushed()| <= i + 1 < |AddSegment(p, segment, maxLength).Flushed()|
    ensures var out := AddSegment(p, segment, maxLength).Flushed();
            && i + 1 == |p.Flushed()| && out == p.Flushed() + [segment.text]
            && Apart(out[i], Gap(segment), segment.text, maxLength)
  {
  }

  /** The boundaries that packing one more segment creates. */
  lemma NewBoundary(init: seq<Segment>, segment: Segment, maxLength: nat, i: nat)
    requires maxLength > 0 && FullBeforeEmpty(PackSegments(init, maxLength), maxLength) && segment.text != ""
    requires |PackSegments(init, maxLength).Flushed()| <= i + 1 < |PackSegments(init + [segment], maxLength).Flushed()|
    ensures BoundaryOk(init + [segment], maxLength, i)
  {
    var p, segments := PackSegments(init, maxLength), init + [segment];
    var out := PackSegments(segments, maxLength).Flushed();
    PackSnoc(init, segment, maxLength);
    assert segments[..|init|] == init && segments[|init|] == segment;
    if |segment.text| > maxLength {
      OversizedBoundary(p, segment, maxLength, i);
      assert i + 1 == |p.Flushed()| ==> Opens(segments, maxLength, i, |init|);
    } else {
      FittingBoundary(p, segment, maxLength, i);
      assert out[..i + 1] == p.Flushed();
      assert Opens(segments, maxLength, i, |init|);
    }
  }

  lemma AddSegmentFull(p: Packing, segment: Segment, maxLength: nat)
    requires maxLength > 0 && EndsVisibly(segment.text) && FullBeforeEmpty(p, maxLength)
    ensures FullBeforeEmpty(AddSegment(p, segment, maxLength), maxLength)
  {
    if |segment.text| > maxLength {
      var words := PackWords(SplitWords(segment.text), maxLength);
      PackWordsTight(SplitWords(segment.text), maxLength);
      PackWordsVisible(SplitWords(segment.text), maxLength);
      SplitWordsKeepsVisible(segment.text);
      VisibleEnd(segment.text);
      if words.chunks == [] {
        assert Content(words) == words.current;
      }
    }
  }

  lemma VisibleEnd(s: string)
    requires EndsVisibly(s)
    ensures Visible(s) != ""
  {
    var n := |s| - 1;
    assert s == s[..n] + [s[n]];
    VisibleAppend(s[..n], [s[n]]);
  }

  /**
   * Packing is near-greedy.  A chunk ends only inside an over-long segment, where the next piece would not have fitted
   * behind a space; in front of a segment that would not have fitted behind its own separator; or in front of an
   * over-long segment.
   */
  lemma {:induction false} PackSegmentsNearGreedy(segments: seq<Segment>, maxLength: nat)
    requires maxLength > 0 && forall i | 0 <= i < |segments| :: EndsVisibly(segments[i].text)
    ensures FullBeforeEmpty(PackSegments(segments, maxLength), maxLength)
    ensures NearGreedy(segments, maxLength)
  {
    if segments != [] {
      var init, segment := segments[..|segments| - 1], segments[|segments| - 1];
      assert segments == init + [segment];
      PackSegmentsNearGreedy(init, maxLength);
      AddSegmentFull(PackSegments(init, maxLength), segment, maxLength);
      forall i: nat | i + 1 < |PackSegments(segments, maxLength).Flushed()|
        ensures BoundaryOk(segments, maxLength, i)
      {
        if i + 1 < |PackSegments(init, maxLength).Flushed()| {
          OldBoundary(init, segment, maxLength, i);
        } else {
          NewBoundary(init, segment, maxLength, i);
        }
      }
    }
  }

  // ---------------------------------------------------------------- where a fitting segment ends up

  predicate OccursAt(w: string, chunk: string, i: nat) {
    i + |w| <= |chunk| && chunk[i..i + |w|] == w
  }

  predicate Occurs(w: string, chunk: string) {
    exists i | 0 <= i <= |chunk| :: OccursAt(w, chunk, i)
  }

  predicate OccursIn(w: string, chunks: seq<string>) {
    exists k | 0 <= k < |chunks| :: Occurs(w, chunks[k])
  }

  lemma OccursInExtension(w: string, chunk: string, longer: string)
    requires Occurs(w, chunk) && chunk <= longer
    ensures Occurs(w, longer)
  {
    var i :| 0 <= i <= |chunk| && OccursAt(w, chunk, i);
    assert longer[i..i + |w|] == w;
    assert OccursAt(w, longer, i);
  }

  lemma OccursAtEnd(before: string, w: string)
    ensures Occurs(w, before + w)
  {
    assert OccursAt(w, before + w, |before|);
  }

  lemma OccursLater(w: string, earlier: seq<string>, later: seq<string>)
    requires OccursIn(w, earlier) && Extends(earlier, later)
    ensures OccursIn(w, later)
  {
    var k :| 0 <= k < |earlier| && Occurs(w, earlier[k]);
    OccursInExtension(w, earlier[k], later[k]);
  }

  lemma AddSegmentOccurs(p: Packing, segment: Segment, maxLength: nat)
    requires maxLength > 0 && 0 < |segment.text| <= maxLength
    ensures OccursIn(segment.text, AddSegment(p, segment, maxLength).Flushed())
  {
    var q, w := AddSegment(p, segment, maxLength), segment.text;
    OccursAtEnd("", w);
    OccursAtEnd(p.current + if segment.separator == Blank then "\n\n" else " ", w);
    assert "" + w == w;
    assert q.Flushed()[|q.Flushed()| - 1] == q.current;
  }

  /** A segment that fits is found in one of the chunks. */
  lemma {:induction false} SegmentOccurs(segments: seq<Segment>, maxLength: nat, j: nat)
    requires maxLength > 0 && j < |segments| && 0 < |segments[j].text| <= maxLength
    ensures OccursIn(segments[j].text, PackSegments(segments, maxLength).Flushed())
  {
    var init, last := segments[..|segments| - 1], segments[|segments| - 1];
    var p := PackSegments(init, maxLength);
    if j < |init| {
      SegmentOccurs(init, maxLength, j);
      AddSegmentExtends(p, last, maxLength);
      OccursLater(segments[j].text, p.Flushed(), PackSegments(segments, maxLength).Flushed());
    } else {
      AddSegmentOccurs(p, last, maxLength);
    }
  }
}
