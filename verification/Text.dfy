/** Python string operations and the three regular-expression scans the chunker relies on. */
module Text {

  /** The characters `str.strip()` removes and `\s` matches. */
  predicate IsSpace(c: char) {
    || '\t' <= c <= '\r'
    || '\U{1C}' <= c <= ' '
    || c == '\U{85}' || c == '\U{A0}' || c == '\U{1680}'
    || '\U{2000}' <= c <= '\U{200A}'
    || c == '\U{2028}' || c == '\U{2029}' || c == '\U{202F}' || c == '\U{205F}' || c == '\U{3000}'
  }

  predicate IsNewline(c: char) {
    c == '\n'
  }

  predicate IsTerminator(c: char) {
    c == '.' || c == '!' || c == '?'
  }

  predicate NotSpace(c: char) {
    !IsSpace(c)
  }

  predicate NotTerminator(c: char) {
    !IsTerminator(c)
  }

  predicate IsSuffix(r: string, s: string) {
    |r| <= |s| && s[|s| - |r|..] == r
  }

  /** What `s` holds in front of its suffix `rest`. */
  function Before(s: string, rest: string): string
    requires |rest| <= |s|
  {
    s[..|s| - |rest|]
  }

  /** `s` without its longest prefix of characters that satisfy `p`. */
  function DropWhile(s: string, p: char -> bool): (rest: string)
    ensures |rest| <= |s|
    ensures s != [] && p(s[0]) ==> |rest| < |s|
  {
    if s == [] || !p(s[0]) then s else DropWhile(s[1..], p)
  }

  /** What is left is a suffix that opens with a character failing `p`; all that went satisfied `p`. */
  lemma {:induction false} DropWhileParts(s: string, p: char -> bool)
    ensures var rest := DropWhile(s, p);
            && IsSuffix(rest, s)
            && (forall i {:trigger s[i]} | 0 <= i < |s| - |rest| :: p(s[i]))
            && (rest != [] ==> !p(rest[0]))
  {
    if s != [] && p(s[0]) {
      var rest := DropWhile(s[1..], p);
      DropWhileParts(s[1..], p);
      assert s[|s| - |rest|..] == s[1..][|s| - 1 - |rest|..];
      assert forall i | 1 <= i < |s| - |rest| :: s[i] == s[1..][i - 1];
    } else {
      assert s[0..] == s;
    }
  }

  function LStrip(s: string): string {
    DropWhile(s, IsSpace)
  }

  function RStrip(s: string): (r: string)
    ensures |r| <= |s|
  {
    if s == [] || !IsSpace(s[|s| - 1]) then s else RStrip(s[..|s| - 1])
  }

  lemma {:induction false} RStripParts(s: string)
    ensures var r := RStrip(s);
            && r == s[..|r|]
            && (forall i | |r| <= i < |s| :: IsSpace(s[i]))
            && (r != [] ==> !IsSpace(r[|r| - 1]))
  {
    if s != [] && IsSpace(s[|s| - 1]) {
      RStripParts(s[..|s| - 1]);
      assert s[..|RStrip(s)|] == s[..|s| - 1][..|RStrip(s)|];
    }
  }

  function Strip(s: string): string {
    RStrip(LStrip(s))
  }

  /** `s.replace("\r\n", "\n")` */
  function ReplaceCrLf(s: string): string {
    if |s| >= 2 && s[0] == '\r' && s[1] == '\n' then "\n" + ReplaceCrLf(s[2..])
    else if s == [] then []
    else [s[0]] + ReplaceCrLf(s[1..])
  }

  predicate BlankLineAt(s: string, i: nat)
    requires i < |s|
  {
    i + 1 < |s| && s[i] == '\n' && s[i + 1] == '\n'
  }

  /** Where the first run of two or more newlines starts, or the end of `s`. */
  function FirstBlankLine(s: string): (n: nat)
    ensures n <= |s|
    ensures n < |s| ==> s[n] == '\n'
  {
    if s == [] || BlankLineAt(s, 0) then 0 else 1 + FirstBlankLine(s[1..])
  }

  lemma {:induction false} FirstBlankLineIsFirst(s: string)
    ensures var n := FirstBlankLine(s);
            && (n < |s| ==> BlankLineAt(s, n))
            && (forall i: nat | i < n :: !BlankLineAt(s, i))
  {
    if s != [] && !BlankLineAt(s, 0) {
      FirstBlankLineIsFirst(s[1..]);
      assert forall i: nat | 1 <= i < |s| :: BlankLineAt(s, i) == BlankLineAt(s[1..], i - 1);
    }
  }

  /** `re.split(r"\n{2,}", s)` */
  function SplitParagraphs(s: string): seq<string>
    decreases |s|
  {
    var i := FirstBlankLine(s);
    if i == |s| then [s]
    else [s[..i]] + SplitParagraphs(DropWhile(s[i..], IsNewline))
  }

  /** `re.split(r"\s+", s)` */
  function SplitWords(s: string): seq<string>
    decreases |s|
  {
    var rest := DropWhile(s, NotSpace);
    if rest == [] then [s]
    else [Before(s, rest)] + SplitWords(DropWhile(rest, IsSpace))
  }

  /** What follows a run of other characters and the terminators that close it. */
  function AfterSentence(s: string): (rest: string)
    ensures |rest| <= |s|
    ensures s != [] && !IsTerminator(s[0]) ==> |rest| < |s|
  {
    DropWhile(DropWhile(s, NotTerminator), IsTerminator)
  }

  /** `re.findall(r"[^.!?]+[.!?]+|[^.!?]+$", s)` */
  function FindSentences(s: string): seq<string>
    decreases |s|
  {
    if s == [] then []
    else if IsTerminator(s[0]) then FindSentences(s[1..])
    else
      var rest := AfterSentence(s);
      [Before(s, rest)] + FindSentences(rest)
  }

  /** `[p.strip() for p in ss if p.strip()]` */
  function StripAll(ss: seq<string>): seq<string> {
    if ss == [] then []
    else (if Strip(ss[0]) == "" then [] else [Strip(ss[0])]) + StripAll(ss[1..])
  }

  function Flatten(ss: seq<string>): string {
    if ss == [] then "" else ss[0] + Flatten(ss[1..])
  }

  lemma AppendTail<T>(a: seq<T>, b: seq<T>)
    ensures a == [] ==> a + b == b
    ensures a != [] ==> (a + b)[0] == a[0] && (a + b)[1..] == a[1..] + b
  {
  }

  lemma {:induction false} FlattenAppend(a: seq<string>, b: seq<string>)
    ensures Flatten(a + b) == Flatten(a) + Flatten(b)
  {
    AppendTail(a, b);
    if a != [] {
      FlattenAppend(a[1..], b);
    }
  }

  lemma FlattenSnoc(a: seq<string>, s: string)
    ensures Flatten(a + [s]) == Flatten(a) + s
  {
    FlattenAppend(a, [s]);
    assert Flatten([s]) == s + Flatten([]) == s;
  }

  // ---------------------------------------------------------------- visible characters

  /** The non-whitespace characters of `s`, in order. */
  function Visible(s: string): string {
    if s == [] then [] else (if IsSpace(s[0]) then [] else [s[0]]) + Visible(s[1..])
  }

  lemma {:induction false} VisibleAppend(a: string, b: string)
    ensures Visible(a + b) == Visible(a) + Visible(b)
  {
    AppendTail(a, b);
    if a != [] {
      VisibleAppend(a[1..], b);
    }
  }

  lemma {:induction false} VisibleOfSpace(s: string)
    requires forall i | 0 <= i < |s| :: IsSpace(s[i])
    ensures Visible(s) == []
  {
    if s != [] {
      VisibleOfSpace(s[1..]);
    }
  }

  lemma {:induction false} VisibleOfWord(s: string)
    requires forall i | 0 <= i < |s| :: !IsSpace(s[i])
    ensures Visible(s) == s
  {
    if s != [] {
      VisibleOfWord(s[1..]);
    }
  }

  lemma {:induction false} VisibleOfGap(a: string, gap: string, b: string)
    requires forall k | 0 <= k < |gap| :: IsSpace(gap[k])
    ensures Visible(a + gap + b) == Visible(a) + Visible(b)
  {
    VisibleAppend(a + gap, b);
    VisibleAppend(a, gap);
    VisibleOfSpace(gap);
  }

  lemma SuffixParts(s: string, rest: string)
    requires IsSuffix(rest, s)
    ensures Before(s, rest) + rest == s
  {
  }

  lemma VisibleParts(s: string, rest: string)
    requires IsSuffix(rest, s)
    ensures Visible(Before(s, rest)) + Visible(rest) == Visible(s)
  {
    SuffixParts(s, rest);
    VisibleAppend(Before(s, rest), rest);
  }

  /** Dropping characters that are whitespace drops nothing visible. */
  lemma {:induction false} DropVisible(s: string, p: char -> bool)
    requires forall c | p(c) :: IsSpace(c)
    ensures Visible(DropWhile(s, p)) == Visible(s)
  {
    if s != [] && p(s[0]) {
      DropVisible(s[1..], p);
    }
  }

  lemma {:induction false} RStripVisible(s: string)
    ensures Visible(RStrip(s)) == Visible(s)
  {
    var r := RStrip(s);
    RStripParts(s);
    assert s == r + s[|r|..];
    VisibleAppend(r, s[|r|..]);
    VisibleOfSpace(s[|r|..]);
  }

  lemma StripKeepsVisible(s: string)
    ensures Visible(Strip(s)) == Visible(s)
  {
    DropVisible(s, IsSpace);
    RStripVisible(LStrip(s));
  }

  lemma StripEnds(s: string)
    ensures Strip(s) != [] ==> !IsSpace(Strip(s)[0]) && !IsSpace(Strip(s)[|Strip(s)| - 1])
    ensures |Strip(s)| <= |s|
  {
    DropWhileParts(s, IsSpace);
    RStripParts(LStrip(s));
  }

  lemma StripIdentity(s: string)
    requires s != [] ==> !IsSpace(s[0]) && !IsSpace(s[|s| - 1])
    ensures Strip(s) == s
  {
  }

  lemma {:induction false} ReplaceKeepsVisible(s: string)
    ensures Visible(ReplaceCrLf(s)) == Visible(s)
    decreases |s|
  {
    if |s| >= 2 && s[0] == '\r' && s[1] == '\n' {
      ReplaceKeepsVisible(s[2..]);
      assert s == [] + "\r\n" + s[2..];
      VisibleOfGap([], "\r\n", s[2..]);
      VisibleAppend("\n", ReplaceCrLf(s[2..]));
    } else if s != [] {
      ReplaceKeepsVisible(s[1..]);
    }
  }

  lemma {:induction false} StripAllKeepsVisible(ss: seq<string>)
    ensures Visible(Flatten(StripAll(ss))) == Visible(Flatten(ss))
  {
    if ss != [] {
      var head, rest := Strip(ss[0]), StripAll(ss[1..]);
      StripAllKeepsVisible(ss[1..]);
      StripKeepsVisible(ss[0]);
      VisibleAppend(ss[0], Flatten(ss[1..]));
      VisibleCons(head, rest);
      assert [] + rest == rest;
    }
  }

  lemma VisibleCons(s: string, rest: seq<string>)
    ensures Visible(Flatten([s] + rest)) == Visible(s) + Visible(Flatten(rest))
  {
    assert ([s] + rest)[1..] == rest;
    VisibleAppend(s, Flatten(rest));
  }

  lemma FlattenCons(s: string, rest: seq<string>)
    ensures Flatten([s] + rest) == s + Flatten(rest)
  {
    assert ([s] + rest)[1..] == rest;
  }

  lemma FlattenOne(s: string)
    ensures Flatten([s]) == s
  {
    assert Flatten([s]) == s + Flatten([]);
  }

  lemma {:induction false} SplitParagraphsKeepsVisible(s: string)
    ensures Visible(Flatten(SplitParagraphs(s))) == Visible(s)
    decreases |s|
  {
    var i := FirstBlankLine(s);
    if i < |s| {
      var rest := DropWhile(s[i..], IsNewline);
      SplitParagraphsKeepsVisible(rest);
      VisibleCons(s[..i], SplitParagraphs(rest));
      DropVisible(s[i..], IsNewline);
      VisibleParts(s, s[i..]);
    } else {
      FlattenOne(s);
    }
  }

  lemma {:induction false} SplitWordsKeepsVisible(s: string)
    ensures Visible(Flatten(SplitWords(s))) == Visible(s)
    decreases |s|
  {
    var rest := DropWhile(s, NotSpace);
    if rest != [] {
      DropWhileParts(s, NotSpace);
      SplitWordsKeepsVisible(DropWhile(rest, IsSpace));
      VisibleCons(Before(s, rest), SplitWords(DropWhile(rest, IsSpace)));
      DropVisible(rest, IsSpace);
      VisibleParts(s, rest);
    } else {
      FlattenOne(s);
    }
  }

  lemma SuffixTransitive(a: string, b: string, c: string)
    requires IsSuffix(a, b) && IsSuffix(b, c)
    ensures IsSuffix(a, c)
  {
    assert c[|c| - |a|..] == b[|b| - |a|..];
  }

  lemma AfterSentenceSuffix(s: string)
    ensures IsSuffix(AfterSentence(s), s)
    ensures AfterSentence(s) != [] ==> !IsTerminator(AfterSentence(s)[0])
  {
    DropWhileParts(s, NotTerminator);
    DropWhileParts(DropWhile(s, NotTerminator), IsTerminator);
    SuffixTransitive(AfterSentence(s), DropWhile(s, NotTerminator), s);
  }

  /** The sentence scan loses exactly the leading run of terminators. */
  lemma {:induction false} FindSentencesFlatten(s: string)
    ensures Flatten(FindSentences(s)) == DropWhile(s, IsTerminator)
    decreases |s|
  {
    if s == [] {
    } else if IsTerminator(s[0]) {
      FindSentencesFlatten(s[1..]);
    } else {
      var rest := AfterSentence(s);
      AfterSentenceSuffix(s);
      FindSentencesFlatten(rest);
      FlattenCons(Before(s, rest), FindSentences(rest));
      SuffixParts(s, rest);
      assert DropWhile(rest, IsTerminator) == rest;
    }
  }
}
