/**
 * The document tokenisers of c/structuring_document.c and
 * c/querying_document.c. One pass over the text cuts it into words,
 * sentences and paragraphs held in flat tables: a word is the text from the
 * character after the previous delimiter up to a ' ' or '.', a '.' closes
 * the current sentence, a '\n' opens a paragraph at the current sentence,
 * and the end of the text closes the document.
 *
 * A word is a span of the text (the C code points into the text and ends
 * the word by overwriting its delimiter with a NUL). The static tables of
 * the C code become sequences, and their sizes become preconditions.
 */
module Documents {
  /** The C code's table sizes. */
  const MaxCharacters: nat := 1005
  const MaxParagraphs: nat := 5

  /** A word: the text from `start` up to the delimiter at `end`. */
  datatype Span = Span(start: nat, end: nat)

  /** A sentence: its first word's index and its word count. */
  datatype Sentence = Sentence(first: nat, wordCount: nat)

  /** A paragraph: its first sentence's index and its sentence count. */
  datatype Paragraph = Paragraph(first: nat, sentenceCount: nat)

  /** `struct document` with the word and sentence tables it points into. */
  datatype Document = Document(words: seq<Span>, sentences: seq<Sentence>, paragraphs: seq<Paragraph>, paragraphCount: nat)

  // ---------------------------------------------------------------------------
  // The text
  // ---------------------------------------------------------------------------

  predicate IsWordEnd(c: char)
  {
    c == ' ' || c == '.'
  }

  predicate IsDelimiter(c: char)
  {
    c == ' ' || c == '.' || c == '\n'
  }

  /** A C string's contents: no NUL before the end. */
  predicate IsCString(text: seq<char>)
  {
    forall i :: 0 <= i < |text| ==> text[i] != '\0'
  }

  /** The occurrences of `c` in `t`. */
  function Count(t: seq<char>, c: char): nat
  {
    if t == [] then 0 else Count(t[..|t| - 1], c) + (if t[|t| - 1] == c then 1 else 0)
  }

  /** The ' ' and '.' delimiters in `t`: the words they end. */
  function WordEnds(t: seq<char>): nat
  {
    Count(t, ' ') + Count(t, '.')
  }

  /** Where the token being read after `t` starts: just after the last delimiter, or 0. */
  function TokenStart(t: seq<char>): (r: nat)
    ensures r <= |t|
  {
    if t == [] then 0
    else if IsDelimiter(t[|t| - 1]) then |t|
    else TokenStart(t[..|t| - 1])
  }

  /** The token before a position holds no delimiter and follows one (or the start). */
  lemma {:induction false} TokenStartSpec(t: seq<char>)
    ensures forall i :: TokenStart(t) <= i < |t| ==> !IsDelimiter(t[i])
    ensures TokenStart(t) == 0 || IsDelimiter(t[TokenStart(t) - 1])
  {
    if t != [] && !IsDelimiter(t[|t| - 1]) {
      TokenStartSpec(t[..|t| - 1]);
    }
  }

  lemma PrefixStep(text: seq<char>, cur: nat)
    requires cur < |text|
    ensures text[..cur + 1][..cur] == text[..cur]
    ensures forall c :: Count(text[..cur + 1], c) == Count(text[..cur], c) + (if text[cur] == c then 1 else 0)
    ensures TokenStart(text[..cur + 1]) == if IsDelimiter(text[cur]) then cur + 1 else TokenStart(text[..cur])
  {
    assert text[..cur + 1][..cur] == text[..cur];
  }

  // ---------------------------------------------------------------------------
  // What the tables hold after reading `text[..cur]`
  // ---------------------------------------------------------------------------

  /** The words are the tokens ended by each ' ' or '.', in order. */
  predicate WordsOf(text: seq<char>, cur: nat, words: seq<Span>)
    requires cur <= |text|
  {
    && |words| == WordEnds(text[..cur])
    && (forall w :: 0 <= w < |words| ==>
          words[w].end < cur && IsWordEnd(text[words[w].end]) && words[w].start == TokenStart(text[..words[w].end]))
    && (forall w :: 0 <= w < |words| - 1 ==> words[w].end < words[w + 1].end)
  }

  /**
   * One sentence per '.' plus the open one; each starts where the previous
   * one's words end; a closed sentence's last word is ended by '.' and every
   * other word by ' '.
   */
  predicate SentencesOf(text: seq<char>, cur: nat, words: seq<Span>, sentences: seq<Sentence>)
    requires cur <= |text| && WordsOf(text, cur, words)
  {
    && |sentences| == Count(text[..cur], '.') + 1
    && sentences[0].first == 0
    && (forall j :: 0 <= j < |sentences| - 1 ==> SentenceLinked(text, words, sentences, j))
    && sentences[|sentences| - 1].first + sentences[|sentences| - 1].wordCount == |words|
    && SpacedWords(text, words, sentences[|sentences| - 1].first, sentences[|sentences| - 1].wordCount)
  }

  /** Sentence `j + 1` starts after sentence `j`'s words, all ended by ' ' except the last, ended by '.'. */
  predicate SentenceLinked(text: seq<char>, words: seq<Span>, sentences: seq<Sentence>, j: nat)
  {
    && j + 1 < |sentences|
    && sentences[j].wordCount >= 1
    && sentences[j + 1].first == sentences[j].first + sentences[j].wordCount <= |words|
    && SpacedWords(text, words, sentences[j].first, sentences[j].wordCount - 1)
    && words[sentences[j + 1].first - 1].end < |text|
    && text[words[sentences[j + 1].first - 1].end] == '.'
  }

  /** The `count` words from `first` are all ended by ' '. */
  predicate SpacedWords(text: seq<char>, words: seq<Span>, first: nat, count: nat)
  {
    && first + count <= |words|
    && forall w :: first <= w < first + count ==> words[w].end < |text| && text[words[w].end] == ' '
  }

  lemma SpacedExtend(text: seq<char>, words: seq<Span>, words': seq<Span>, first: nat, count: nat)
    requires SpacedWords(text, words, first, count) && |words| <= |words'| && words'[..|words|] == words
    ensures SpacedWords(text, words', first, count)
  {
    forall w | first <= w < first + count
      ensures words'[w].end < |text| && text[words'[w].end] == ' '
    {
      assert words'[..|words|][w] == words[w];
    }
  }

  /** Extending the words keeps sentence `j`'s links. */
  lemma LinkedExtend(text: seq<char>, words: seq<Span>, words': seq<Span>, sentences: seq<Sentence>, sentences': seq<Sentence>, j: nat)
    requires SentenceLinked(text, words, sentences, j) && |words| <= |words'| && words'[..|words|] == words
    requires j + 1 < |sentences'| && sentences'[j] == sentences[j] && sentences'[j + 1].first == sentences[j + 1].first
    ensures SentenceLinked(text, words', sentences', j)
  {
    SpacedExtend(text, words, words', sentences[j].first, sentences[j].wordCount - 1);
    var last := sentences[j + 1].first - 1;
    assert 0 <= last < |words|;
    assert words'[..|words|][last] == words[last];
    assert words'[last] == words[last];
  }

  /**
   * One paragraph per '\n' plus the open one; each starts where the
   * previous one's sentences end, at the sentence open when its '\n' came.
   */
  predicate ParagraphsOf(text: seq<char>, cur: nat, sentences: seq<Sentence>, paragraphs: seq<Paragraph>)
    requires cur <= |text|
  {
    |paragraphs| == Count(text[..cur], '\n') + 1 && ParagraphChain(sentences, paragraphs)
  }

  /** The paragraphs partition the closed sentences, in order. */
  predicate ParagraphChain(sentences: seq<Sentence>, paragraphs: seq<Paragraph>)
  {
    && paragraphs != []
    && paragraphs[0].first == 0
    && (forall p :: 0 <= p < |paragraphs| - 1 ==> ParagraphLinked(paragraphs, p))
    && (forall p :: 0 <= p < |paragraphs| ==> paragraphs[p].first + paragraphs[p].sentenceCount < |sentences|)
    && paragraphs[|paragraphs| - 1].first + paragraphs[|paragraphs| - 1].sentenceCount == |sentences| - 1
  }

  /** Paragraph `p + 1` starts after paragraph `p`'s sentences. */
  predicate ParagraphLinked(paragraphs: seq<Paragraph>, p: nat)
  {
    p + 1 < |paragraphs| && paragraphs[p + 1].first == paragraphs[p].first + paragraphs[p].sentenceCount
  }

  /** The tables and token start after reading `text[..cur]`. */
  predicate Scanned(text: seq<char>, cur: nat, tokenStart: nat, doc: Document)
  {
    && cur <= |text|
    && tokenStart == TokenStart(text[..cur])
    && WordsOf(text, cur, doc.words)
    && SentencesOf(text, cur, doc.words, doc.sentences)
    && ParagraphsOf(text, cur, doc.sentences, doc.paragraphs)
    && doc.paragraphCount == Count(text[..cur], '\n')
  }

  /** The document of the whole text: the scan is complete and the end closed the last paragraph. */
  predicate DocumentOf(text: seq<char>, doc: Document)
  {
    && WordsOf(text, |text|, doc.words)
    && SentencesOf(text, |text|, doc.words, doc.sentences)
    && ParagraphsOf(text, |text|, doc.sentences, doc.paragraphs)
    && doc.paragraphCount == Count(text, '\n') + 1 == |doc.paragraphs|
  }

  // ---------------------------------------------------------------------------
  // `get_document` of c/structuring_document.c
  // ---------------------------------------------------------------------------

  /** The tables before any character is read: one empty sentence in one empty paragraph. */
  function Start(): Document
  {
    Document([], [Sentence(0, 0)], [Paragraph(0, 0)], 0)
  }

  /** A ' ': the token becomes a word of the open sentence. */
  function OnSpace(doc: Document, tokenStart: nat, cur: nat): Document
    requires doc.sentences != []
  {
    var last := doc.sentences[|doc.sentences| - 1];
    Document(doc.words + [Span(tokenStart, cur)],
             doc.sentences[|doc.sentences| - 1 := Sentence(last.first, last.wordCount + 1)],
             doc.paragraphs, doc.paragraphCount)
  }

  /** A '.': the token becomes the open sentence's last word, and the next sentence opens. */
  function OnPeriod(doc: Document, tokenStart: nat, cur: nat): Document
    requires doc.sentences != [] && doc.paragraphs != []
  {
    var d := OnSpace(doc, tokenStart, cur);
    var last := d.paragraphs[|d.paragraphs| - 1];
    Document(d.words, d.sentences + [Sentence(|d.words|, 0)],
             d.paragraphs[|d.paragraphs| - 1 := Paragraph(last.first, last.sentenceCount + 1)],
             d.paragraphCount)
  }

  /** A '\n': a paragraph opens at the open sentence. */
  function OnNewline(doc: Document): Document
    requires doc.sentences != []
  {
    Document(doc.words, doc.sentences, doc.paragraphs + [Paragraph(|doc.sentences| - 1, 0)], doc.paragraphCount + 1)
  }

  lemma SpaceScanned(text: seq<char>, cur: nat, tokenStart: nat, doc: Document)
    requires Scanned(text, cur, tokenStart, doc) && cur < |text| && text[cur] == ' '
    ensures Scanned(text, cur + 1, cur + 1, OnSpace(doc, tokenStart, cur))
  {
    PrefixStep(text, cur);
    var d := OnSpace(doc, tokenStart, cur);
    assert d.words[|doc.words|] == Span(tokenStart, cur);
    assert WordsOf(text, cur + 1, d.words);
    SentencesKept(text, cur, doc.words, d.words, doc.sentences, d.sentences);
  }

  lemma PeriodScanned(text: seq<char>, cur: nat, tokenStart: nat, doc: Document)
    requires Scanned(text, cur, tokenStart, doc) && cur < |text| && text[cur] == '.'
    ensures Scanned(text, cur + 1, cur + 1, OnPeriod(doc, tokenStart, cur))
  {
    PrefixStep(text, cur);
    var d := OnSpace(doc, tokenStart, cur);
    assert d.words[|doc.words|] == Span(tokenStart, cur);
    assert WordsOf(text, cur + 1, d.words);
    var d' := OnPeriod(doc, tokenStart, cur);
    SentenceClosed(text, cur, doc.words, d.words, doc.sentences, d'.sentences);
    ParagraphsClosed(doc.sentences, d'.sentences, doc.paragraphs, d'.paragraphs);
  }

  /** Adding a ' ' word to the open sentence keeps the sentence table's shape. */
  lemma SentencesKept(text: seq<char>, cur: nat, words: seq<Span>, words': seq<Span>,
                      sentences: seq<Sentence>, sentences': seq<Sentence>)
    requires cur < |text| && text[cur] == ' '
    requires WordsOf(text, cur, words) && SentencesOf(text, cur, words, sentences)
    requires WordsOf(text, cur + 1, words') && words' == words + [Span(TokenStart(text[..cur]), cur)]
    requires sentences' == sentences[|sentences| - 1 := Sentence(sentences[|sentences| - 1].first, sentences[|sentences| - 1].wordCount + 1)]
    ensures SentencesOf(text, cur + 1, words', sentences')
  {
    PrefixStep(text, cur);
    assert words'[..|words|] == words;
    forall j | 0 <= j < |sentences'| - 1
      ensures SentenceLinked(text, words', sentences', j)
    {
      assert SentenceLinked(text, words, sentences, j);
      LinkedExtend(text, words, words', sentences, sentences', j);
    }
    var last := sentences[|sentences| - 1];
    SpacedExtend(text, words, words', last.first, last.wordCount);
    assert words'[|words|].end == cur;
  }

  /** Closing the open sentence with a '.' word opens the next one after it. */
  lemma SentenceClosed(text: seq<char>, cur: nat, words: seq<Span>, words': seq<Span>,
                       sentences: seq<Sentence>, sentences': seq<Sentence>)
    requires cur < |text| && text[cur] == '.'
    requires WordsOf(text, cur, words) && SentencesOf(text, cur, words, sentences)
    requires WordsOf(text, cur + 1, words') && words' == words + [Span(TokenStart(text[..cur]), cur)]
    requires sentences' == sentences[|sentences| - 1 := Sentence(sentences[|sentences| - 1].first, sentences[|sentences| - 1].wordCount + 1)]
                           + [Sentence(|words'|, 0)]
    ensures SentencesOf(text, cur + 1, words', sentences')
  {
    PrefixStep(text, cur);
    assert words'[..|words|] == words;
    forall j | 0 <= j < |sentences| - 1
      ensures SentenceLinked(text, words', sentences', j)
    {
      assert SentenceLinked(text, words, sentences, j);
      LinkedExtend(text, words, words', sentences, sentences', j);
    }
    var last := sentences[|sentences| - 1];
    SpacedExtend(text, words, words', last.first, last.wordCount);
    assert words'[|words|].end == cur;
    assert SentenceLinked(text, words', sentences', |sentences| - 1);
  }

  lemma NewlineScanned(text: seq<char>, cur: nat, tokenStart: nat, doc: Document)
    requires Scanned(text, cur, tokenStart, doc) && cur < |text| && text[cur] == '\n'
    ensures Scanned(text, cur + 1, cur + 1, OnNewline(doc))
  {
    PrefixStep(text, cur);
    var ps := doc.paragraphs;
    var ps' := OnNewline(doc).paragraphs;
    forall p | 0 <= p < |ps'| - 1
      ensures ParagraphLinked(ps', p)
    {
      if p < |ps| - 1 {
        assert ParagraphLinked(ps, p);
      }
    }
  }

  /** Closing a sentence counts it in the open paragraph. */
  lemma ParagraphsClosed(sentences: seq<Sentence>, sentences': seq<Sentence>, paragraphs: seq<Paragraph>, paragraphs': seq<Paragraph>)
    requires ParagraphChain(sentences, paragraphs) && |sentences'| == |sentences| + 1
    requires paragraphs' == paragraphs[|paragraphs| - 1 := Paragraph(paragraphs[|paragraphs| - 1].first, paragraphs[|paragraphs| - 1].sentenceCount + 1)]
    ensures ParagraphChain(sentences', paragraphs')
  {
    forall p | 0 <= p < |paragraphs'| - 1
      ensures ParagraphLinked(paragraphs', p)
    {
      assert ParagraphLinked(paragraphs, p);
    }
  }

  lemma OtherScanned(text: seq<char>, cur: nat, tokenStart: nat, doc: Document)
    requires Scanned(text, cur, tokenStart, doc) && cur < |text| && !IsDelimiter(text[cur])
    ensures Scanned(text, cur + 1, tokenStart, doc)
  {
    PrefixStep(text, cur);
  }

  /** What reading the character `ch` at `cur` does to the tables. */
  function Step(doc: Document, ch: char, tokenStart: nat, cur: nat): Document
    requires doc.sentences != [] && doc.paragraphs != []
  {
    if ch == ' ' then OnSpace(doc, tokenStart, cur)
    else if ch == '.' then OnPeriod(doc, tokenStart, cur)
    else if ch == '\n' then OnNewline(doc)
    else doc
  }

  /** Reading one more character keeps the tables those of the text read so far. */
  lemma StepScanned(text: seq<char>, cur: nat, tokenStart: nat, doc: Document)
    requires Scanned(text, cur, tokenStart, doc) && cur < |text|
    ensures doc.sentences != [] && doc.paragraphs != []
    ensures Scanned(text, cur + 1, if IsDelimiter(text[cur]) then cur + 1 else tokenStart, Step(doc, text[cur], tokenStart, cur))
  {
    if text[cur] == ' ' {
      SpaceScanned(text, cur, tokenStart, doc);
    } else if text[cur] == '.' {
      PeriodScanned(text, cur, tokenStart, doc);
    } else if text[cur] == '\n' {
      NewlineScanned(text, cur, tokenStart, doc);
    } else {
      OtherScanned(text, cur, tokenStart, doc);
    }
  }

  /**
   * `get_document`: read the text one character at a time up to its NUL
   * terminator, filling the word, sentence and paragraph tables.
   */
  method GetDocument(text: seq<char>) returns (doc: Document)
    requires IsCString(text) && |text| < MaxCharacters && Count(text, '\n') < MaxParagraphs
    ensures DocumentOf(text, doc)
  {
    doc := Start();
    var tokenStart := 0;
    var cur := 0;
    while cur < |text|
      invariant Scanned(text, cur, tokenStart, doc)
    {
      StepScanned(text, cur, tokenStart, doc);
      doc := Step(doc, text[cur], tokenStart, cur);
      tokenStart := if IsDelimiter(text[cur]) then cur + 1 else tokenStart;
      cur := cur + 1;
    }
    assert text[..cur] == text;
    doc := Document(doc.words, doc.sentences, doc.paragraphs, doc.paragraphCount + 1);
  }

  // ---------------------------------------------------------------------------
  // The 1-indexed lookups
  // ---------------------------------------------------------------------------

  /** `kth_paragraph`: paragraph `k`, counting from 1. */
  function KthParagraph(doc: Document, k: int): Paragraph
    requires 1 <= k <= |doc.paragraphs|
  {
    doc.paragraphs[k - 1]
  }

  /** `kth_sentence_in_mth_paragraph`: sentence `k` of paragraph `m`. */
  function KthSentenceInParagraph(doc: Document, k: int, m: int): Sentence
    requires 1 <= m <= |doc.paragraphs| && 1 <= k && KthParagraph(doc, m).first + k - 1 < |doc.sentences|
  {
    doc.sentences[KthParagraph(doc, m).first + k - 1]
  }

  /** `kth_word_in_mth_sentence_of_nth_paragraph`: word `k` of sentence `m` of paragraph `n`. */
  function KthWord(doc: Document, k: int, m: int, n: int): Span
    requires 1 <= n <= |doc.paragraphs| && 1 <= m && KthParagraph(doc, n).first + m - 1 < |doc.sentences|
    requires 1 <= k && KthSentenceInParagraph(doc, m, n).first + k - 1 < |doc.words|
  {
    doc.words[KthSentenceInParagraph(doc, m, n).first + k - 1]
  }

  /**
   * Inside the counts, the lookups name a token of the text: a stretch
   * without delimiters that follows a delimiter (or starts the text) and is
   * ended by ' ' or '.'; it is ended by '.' exactly when it is the last word
   * of a sentence that a '.' closed.
   */
  lemma KthWordIsToken(text: seq<char>, doc: Document, k: int, m: int, n: int)
    requires DocumentOf(text, doc)
    requires 1 <= n <= doc.paragraphCount
    requires 1 <= m <= KthParagraph(doc, n).sentenceCount
    requires 1 <= k <= doc.sentences[KthParagraph(doc, n).first + m - 1].wordCount
    ensures KthParagraph(doc, n).first + m - 1 < |doc.sentences| - 1
    ensures KthSentenceInParagraph(doc, m, n).first + k - 1 < |doc.words|
    ensures var w := KthWord(doc, k, m, n);
      && w.start <= w.end < |text|
      && IsWordEnd(text[w.end])
      && (forall i :: w.start <= i < w.end ==> !IsDelimiter(text[i]))
      && (w.start == 0 || IsDelimiter(text[w.start - 1]))
      && (text[w.end] == '.' <==> k == doc.sentences[KthParagraph(doc, n).first + m - 1].wordCount)
  {
    var j := KthParagraph(doc, n).first + m - 1;
    var wi := doc.sentences[j].first + k - 1;
    assert SentenceLinked(text, doc.words, doc.sentences, j);
    TokenStartSpec(text[..doc.words[wi].end]);
  }
}
