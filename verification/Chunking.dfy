/** The reply chunker: paragraphs, then sentences, then words, then hard cuts, packed greedily. */
module Chunking {
  import opened Wrappers
  import opened Text

  datatype Separator = Blank | Space

  datatype Segment = Segment(text: string, separator: Separator)

  datatype ChunkError = NonPositiveLength

  // ---------------------------------------------------------------- segments

  function Normalize(text: string): string {
    Strip(ReplaceCrLf(text))
  }

  function Paragraphs(text: string): seq<string> {
    StripAll(SplitParagraphs(Normalize(text)))
  }

  /** The first text of a paragraph joins what came before with a blank line, the others with a space. */
  function Labelled(texts: seq<string>): seq<Segment> {
    seq(|texts|, i requires 0 <= i < |texts| => Segment(texts[i], if i == 0 then Blank else Space))
  }

  function ExpandParagraph(paragraph: string, maxLength: int): seq<Segment> {
    if |paragraph| <= maxLength then [Segment(paragraph, Blank)]
    else
      var sentences := StripAll(FindSentences(paragraph));
      if (exists i | 0 <= i < |paragraph| :: IsTerminator(paragraph[i])) && sentences != [] then Labelled(sentences)
      else Labelled(SplitWords(paragraph))
  }

  function ExpandAll(paragraphs: seq<string>, maxLength: int): seq<Segment> {
    if paragraphs == [] then []
    else ExpandAll(paragraphs[..|paragraphs| - 1], maxLength)
         + ExpandParagraph(paragraphs[|paragraphs| - 1], maxLength)
  }

  function Segments(text: string, maxLength: int): seq<Segment> {
    ExpandAll(Paragraphs(text), maxLength)
  }

  // ---------------------------------------------------------------- packing

  /** Finished chunks and the run still being filled. */
  datatype Packing = Packing(chunks: seq<string>, current: string) {
    function Flushed(): seq<string> {
      chunks + if current == "" then [] else [current]
    }
  }

  /** Cut a word into pieces of exactly `maxLength`; a shorter tail stays open. */
  function HardSplit(word: string, maxLength: nat): Packing
    requires maxLength > 0
  {
    if |word| < maxLength then Packing([], word)
    else
      var rest := HardSplit(word[maxLength..], maxLength);
      Packing([word[..maxLength]] + rest.chunks, rest.current)
  }

  function AddWord(p: Packing, word: string, maxLength: nat): Packing
    requires maxLength > 0
  {
    var candidate := if p.current == "" then word else p.current + " " + word;
    if |candidate| <= maxLength then Packing(p.chunks, candidate)
    else if |word| <= maxLength then Packing(p.Flushed(), word)
    else
      var pieces := HardSplit(word, maxLength);
      Packing(p.Flushed() + pieces.chunks, pieces.current)
  }

  function PackWords(words: seq<string>, maxLength: nat): Packing
    requires maxLength > 0
  {
    if words == [] then Packing([], "")
    else AddWord(PackWords(words[..|words| - 1], maxLength), words[|words| - 1], maxLength)
  }

  function AddSegment(p: Packing, segment: Segment, maxLength: nat): Packing
    requires maxLength > 0
  {
    var joiner := if segment.separator == Blank then "\n\n" else " ";
    var candidate := if p.current == "" then segment.text else p.current + joiner + segment.text;
    if |candidate| <= maxLength then Packing(p.chunks, candidate)
    else if |segment.text| <= maxLength then Packing(p.Flushed(), segment.text)
    else
      var words := PackWords(SplitWords(segment.text), maxLength);
      Packing(p.Flushed() + words.chunks, words.current)
  }

  function PackSegments(segments: seq<Segment>, maxLength: nat): Packing
    requires maxLength > 0
  {
    if segments == [] then Packing([], "")
    else AddSegment(PackSegments(segments[..|segments| - 1], maxLength), segments[|segments| - 1], maxLength)
  }

  /** The chunks of `text`: its segments, packed in order and flushed. */
  function Chunks(text: string, maxLength: nat): seq<string>
    requires maxLength > 0
  {
    PackSegments(Segments(text, maxLength), maxLength).Flushed()
  }

  // ---------------------------------------------------------------- lengths

  predicate Sized(p: Packing, maxLength: nat) {
    && |p.current| <= maxLength
    && forall i | 0 <= i < |p.chunks| :: 1 <= |p.chunks[i]| <= maxLength
  }

  lemma {:induction false} HardSplitSized(word: string, maxLength: nat)
    requires maxLength > 0
    ensures Sized(HardSplit(word, maxLength), maxLength)
  {
    if |word| >= maxLength {
      HardSplitSized(word[maxLength..], maxLength);
    }
  }

  lemma {:induction false} PackWordsSized(words: seq<string>, maxLength: nat)
    requires maxLength > 0
    ensures Sized(PackWords(words, maxLength), maxLength)
  {
    if words != [] {
      PackWordsSized(words[..|words| - 1], maxLength);
      HardSplitSized(words[|words| - 1], maxLength);
    }
  }

  lemma {:induction false} PackSegmentsSized(segments: seq<Segment>, maxLength: nat)
    requires maxLength > 0
    ensures Sized(PackSegments(segments, maxLength), maxLength)
  {
    if segments != [] {
      PackSegmentsSized(segments[..|segments| - 1], maxLength);
      PackWordsSized(SplitWords(segments[|segments| - 1].text), maxLength);
    }
  }

  // ---------------------------------------------------------------- the chunker as it runs

  /** The list of finished chunks that both packing loops append to. */
  class ChunkList {
    var items: seq<string>

    constructor ()
      ensures items == []
    {
      items := [];
    }

    method Append(chunk: string)
      modifies this
      ensures items == old(items) + [chunk]
    {
      items := items + [chunk];
    }
  }

  /** Appends the pieces of one word that is too long for a chunk; returns the shorter tail, if any. */
  method HardSplitWord(word: string, maxLength: nat, chunks: ChunkList) returns (tail: string)
    requires 0 < maxLength < |word|
    modifies chunks
    ensures Packing(chunks.items, tail)
         == Packing(old(chunks.items) + HardSplit(word, maxLength).chunks, HardSplit(word, maxLength).current)
  {
    tail := "";
    var i := 0;
    while i < |word|
      invariant 0 <= i
      invariant i < |word| ==>
                  && tail == ""
                  && chunks.items + HardSplit(word[i..], maxLength).chunks
                     == old(chunks.items) + HardSplit(word, maxLength).chunks
                  && HardSplit(word[i..], maxLength).current == HardSplit(word, maxLength).current
      invariant i >= |word| ==>
                  && tail == HardSplit(word, maxLength).current
                  && chunks.items == old(chunks.items) + HardSplit(word, maxLength).chunks
      decreases |word| - i
    {
      var piece := word[i..if i + maxLength < |word| then i + maxLength else |word|];
      if |piece| == maxLength {
        chunks.Append(piece);
        assert word[i..][..maxLength] == piece;
        assert word[i..][maxLength..] == word[i + maxLength..];
      } else {
        tail := piece;
        assert word[i..] == piece;
      }
      i := i + maxLength;
    }
  }

  /** One turn of the word loop: grows `wordChunk`, flushing it to `chunks` when the word does not fit. */
  method PackWord(word: string, maxLength: nat, chunks: ChunkList, wordChunk: string) returns (next: string)
    requires maxLength > 0
    modifies chunks
    ensures Packing(chunks.items, next) == AddWord(Packing(old(chunks.items), wordChunk), word, maxLength)
  {
    var candidate := if wordChunk != "" then wordChunk + " " + word else word;
    if |candidate| <= maxLength {
      return candidate;
    }
    if wordChunk != "" {
      chunks.Append(wordChunk);
    }
    if |word| > maxLength {
      next := HardSplitWord(word, maxLength, chunks);
    } else {
      next := word;
    }
  }

  method SplitOversizedSegment(segmentText: string, maxLength: nat, chunks: ChunkList) returns (rest: string)
    requires maxLength > 0
    modifies chunks
    ensures var words := PackWords(SplitWords(segmentText), maxLength);
            chunks.items == old(chunks.items) + words.chunks && rest == words.current
  {
    rest := "";
    var words := SplitWords(segmentText);
    for i := 0 to |words|
      invariant chunks.items == old(chunks.items) + PackWords(words[..i], maxLength).chunks
      invariant rest == PackWords(words[..i], maxLength).current
    {
      assert words[..i + 1][..i] == words[..i];
      AddWordAfter(old(chunks.items), PackWords(words[..i], maxLength), words[i], maxLength);
      rest := PackWord(words[i], maxLength, chunks, rest);
    }
    assert words[..|words|] == words;
  }

  /** Packing a word does not depend on the chunks finished before. */
  lemma AddWordAfter(before: seq<string>, p: Packing, word: string, maxLength: nat)
    requires maxLength > 0
    ensures var after := AddWord(p, word, maxLength);
            AddWord(Packing(before + p.chunks, p.current), word, maxLength)
            == Packing(before + after.chunks, after.current)
  {
    var q := Packing(before + p.chunks, p.current);
    assert q.Flushed() == before + p.Flushed();
    var pieces := HardSplit(word, maxLength);
    assert q.Flushed() + pieces.chunks == before + (p.Flushed() + pieces.chunks);
  }

  method CollectSegments(paragraphs: seq<string>, maxLength: nat) returns (segments: seq<Segment>)
    ensures segments == ExpandAll(paragraphs, maxLength)
  {
    segments := [];
    for i := 0 to |paragraphs|
      invariant segments == ExpandAll(paragraphs[..i], maxLength)
    {
      assert paragraphs[..i + 1][..i] == paragraphs[..i];
      segments := segments + ExpandParagraph(paragraphs[i], maxLength);
    }
    assert paragraphs[..|paragraphs|] == paragraphs;
  }

  /** One turn of the packing loop: grows `current`, flushing it to `chunks` when the segment does not fit. */
  method PackSegment(segment: Segment, maxLength: nat, chunks: ChunkList, current: string) returns (next: string)
    requires maxLength > 0
    modifies chunks
    ensures Packing(chunks.items, next) == AddSegment(Packing(old(chunks.items), current), segment, maxLength)
  {
    var candidate := segment.text;
    if current != "" {
      var joiner := if segment.separator == Blank then "\n\n" else " ";
      candidate := current + joiner + segment.text;
    }
    if |candidate| <= maxLength {
      return candidate;
    }
    if current != "" {
      chunks.Append(current);
    }
    if |segment.text| <= maxLength {
      return segment.text;
    }
    next := SplitOversizedSegment(segment.text, maxLength, chunks);
  }

  method PackAll(segments: seq<Segment>, maxLength: nat) returns (chunks: seq<string>)
    requires maxLength > 0
    ensures chunks == PackSegments(segments, maxLength).Flushed()
  {
    var list := new ChunkList();
    var current := "";
    for i := 0 to |segments|
      invariant fresh(list)
      invariant Packing(list.items, current) == PackSegments(segments[..i], maxLength)
    {
      assert segments[..i + 1][..i] == segments[..i];
      current := PackSegment(segments[i], maxLength, list, current);
    }
    assert segments[..|segments|] == segments;
    if current != "" {
      list.Append(current);
    }
    return list.items;
  }

  /** `[chunk for chunk in chunks if chunk]` */
  function WithoutEmpty(chunks: seq<string>): seq<string> {
    if chunks == [] then []
    else WithoutEmpty(chunks[..|chunks| - 1])
         + if chunks[|chunks| - 1] == "" then [] else [chunks[|chunks| - 1]]
  }

  /** The packing loop never produces an empty chunk, so the closing filter drops nothing. */
  lemma {:induction false} NothingToDrop(chunks: seq<string>)
    requires forall i | 0 <= i < |chunks| :: chunks[i] != ""
    ensures WithoutEmpty(chunks) == chunks
  {
    if chunks != [] {
      NothingToDrop(chunks[..|chunks| - 1]);
    }
  }

  lemma ChunksSized(text: string, maxLength: nat)
    requires maxLength > 0
    ensures forall i | 0 <= i < |Chunks(text, maxLength)| :: 1 <= |Chunks(text, maxLength)[i]| <= maxLength
  {
    PackSegmentsSized(Segments(text, maxLength), maxLength);
  }

  /** Every chunk of a successful call has between 1 and `maxLength` characters. */
  method ChunkMessage(text: string, maxLength: int) returns (r: Result<seq<string>, ChunkError>)
    ensures r.Failure? <==> maxLength <= 0
    ensures r.Success? ==> r.value == Chunks(text, maxLength)
    ensures r.Success? ==> forall i | 0 <= i < |r.value| :: 1 <= |r.value[i]| <= maxLength
  {
    if maxLength <= 0 {
      return Failure(NonPositiveLength);
    }
    var normalized := Normalize(text);
    if normalized == "" {
      NothingToChunk(text, maxLength);
      return Success([]);
    }
    var segments := CollectSegments(StripAll(SplitParagraphs(normalized)), maxLength);
    var chunks := PackAll(segments, maxLength);
    assert chunks == Chunks(text, maxLength);
    ChunksSized(text, maxLength);
    NothingToDrop(chunks);
    return Success(WithoutEmpty(chunks));
  }

  lemma NothingToChunk(text: string, maxLength: nat)
    requires maxLength > 0 && Normalize(text) == ""
    ensures Chunks(text, maxLength) == []
  {
    assert SplitParagraphs("") == [""];
    assert StripAll([""]) == StripAll([""][1..]) == [];
  }
}
