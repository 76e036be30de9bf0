/**
 * The tokeniser of c/querying_document.c. It makes the same pass as the
 * one of c/structuring_document.c but keeps only where each table entry
 * starts: a sentence is the index of its first word, a paragraph the index
 * of its first sentence, and no counts are kept.
 */
module QueryDocuments {
  import opened Documents

  /** The three pointer tables: words, first word of each sentence, first sentence of each paragraph. */
  datatype Tables = Tables(words: seq<Span>, sentences: seq<nat>, paragraphs: seq<nat>)

  /** The tables the pointer version keeps of a structured document. */
  function Project(doc: Document): (t: Tables)
    ensures |t.words| == |doc.words| && |t.sentences| == |doc.sentences| && |t.paragraphs| == |doc.paragraphs|
  {
    Tables(doc.words,
           seq(|doc.sentences|, j requires 0 <= j < |doc.sentences| => doc.sentences[j].first),
           seq(|doc.paragraphs|, p requires 0 <= p < |doc.paragraphs| => doc.paragraphs[p].first))
  }

  /**
   * `get_document`: the same scan as `Documents.GetDocument`, keeping the
   * pointer tables; alongside runs the structured document they are the
   * projection of.
   */
  method GetDocument(text: seq<char>) returns (t: Tables, doc: Document)
    requires IsCString(text) && |text| < MaxCharacters && Count(text, '\n') < MaxParagraphs
    ensures DocumentOf(text, doc) && t == Project(doc)
  {
    doc := Start();
    t := Tables([], [0], [0]);
    var tokenStart := 0;
    var cur := 0;
    while cur < |text|
      invariant Scanned(text, cur, tokenStart, doc)
      invariant t == Project(doc)
    {
      StepScanned(text, cur, tokenStart, doc);
      ProjectStep(doc, text[cur], tokenStart, cur);
      doc := Documents.Step(doc, text[cur], tokenStart, cur);
      t := Step(t, text[cur], tokenStart, cur);
      tokenStart := if IsDelimiter(text[cur]) then cur + 1 else tokenStart;
      cur := cur + 1;
    }
    assert text[..cur] == text;
    doc := Document(doc.words, doc.sentences, doc.paragraphs, doc.paragraphCount + 1);
  }

  /** What reading the character `ch` at `cur` does to the pointer tables. */
  function Step(t: Tables, ch: char, tokenStart: nat, cur: nat): Tables
    requires t.sentences != []
  {
    if ch == ' ' then t.(words := t.words + [Span(tokenStart, cur)])
    else if ch == '.' then Tables(t.words + [Span(tokenStart, cur)], t.sentences + [|t.words| + 1], t.paragraphs)
    else if ch == '\n' then t.(paragraphs := t.paragraphs + [|t.sentences| - 1])
    else t
  }

  /** The pointer tables step along with the structured document. */
  lemma ProjectStep(doc: Document, ch: char, tokenStart: nat, cur: nat)
    requires doc.sentences != [] && doc.paragraphs != []
    ensures Project(Documents.Step(doc, ch, tokenStart, cur)) == Step(Project(doc), ch, tokenStart, cur)
  {
    if ch == ' ' {
      ProjectSpace(doc, tokenStart, cur);
    } else if ch == '.' {
      ProjectPeriod(doc, tokenStart, cur);
    } else if ch == '\n' {
      ProjectNewline(doc);
    }
  }

  lemma ProjectSpace(doc: Document, tokenStart: nat, cur: nat)
    requires doc.sentences != []
    ensures Project(OnSpace(doc, tokenStart, cur)) == Project(doc).(words := Project(doc).words + [Span(tokenStart, cur)])
  {
    var d := OnSpace(doc, tokenStart, cur);
    assert forall j :: 0 <= j < |d.sentences| ==> d.sentences[j].first == doc.sentences[j].first;
  }

  lemma ProjectPeriod(doc: Document, tokenStart: nat, cur: nat)
    requires doc.sentences != [] && doc.paragraphs != []
    ensures var t := Project(doc);
      Project(OnPeriod(doc, tokenStart, cur)) == Tables(t.words + [Span(tokenStart, cur)], t.sentences + [|t.words| + 1], t.paragraphs)
  {
    var d := OnPeriod(doc, tokenStart, cur);
    assert forall j :: 0 <= j < |doc.sentences| ==> d.sentences[j].first == doc.sentences[j].first;
    assert forall p :: 0 <= p < |d.paragraphs| ==> d.paragraphs[p].first == doc.paragraphs[p].first;
  }

  lemma ProjectNewline(doc: Document)
    requires doc.sentences != []
    ensures Project(OnNewline(doc)) == Project(doc).(paragraphs := Project(doc).paragraphs + [|doc.sentences| - 1])
  {
  }

  /** `kth_paragraph`: where paragraph `k` starts in the sentence table, counting from 1. */
  function KthParagraph(t: Tables, k: int): nat
    requires 1 <= k <= |t.paragraphs|
  {
    t.paragraphs[k - 1]
  }

  /** `kth_sentence_in_mth_paragraph`: where sentence `k` of paragraph `m` starts in the word table. */
  function KthSentenceInParagraph(t: Tables, k: int, m: int): nat
    requires 1 <= m <= |t.paragraphs| && 1 <= k && KthParagraph(t, m) + k - 1 < |t.sentences|
  {
    t.sentences[KthParagraph(t, m) + k - 1]
  }

  /** `kth_word_in_mth_sentence_of_nth_paragraph`: word `k` of sentence `m` of paragraph `n`. */
  function KthWord(t: Tables, k: int, m: int, n: int): Span
    requires 1 <= n <= |t.paragraphs| && 1 <= m && KthParagraph(t, n) + m - 1 < |t.sentences|
    requires 1 <= k && KthSentenceInParagraph(t, m, n) + k - 1 < |t.words|
  {
    t.words[KthSentenceInParagraph(t, m, n) + k - 1]
  }

  /**
   * Both programs answer a query inside the document's counts with the same
   * word: a token of the text ended by ' ' or '.'.
   */
  lemma SameWord(text: seq<char>, doc: Document, k: int, m: int, n: int)
    requires DocumentOf(text, doc)
    requires 1 <= n <= doc.paragraphCount
    requires 1 <= m <= Documents.KthParagraph(doc, n).sentenceCount
    requires 1 <= k <= doc.sentences[Documents.KthParagraph(doc, n).first + m - 1].wordCount
    ensures KthParagraph(Project(doc), n) + m - 1 < |Project(doc).sentences|
    ensures KthSentenceInParagraph(Project(doc), m, n) + k - 1 < |Project(doc).words|
    ensures KthWord(Project(doc), k, m, n) == Documents.KthWord(doc, k, m, n)
    ensures var w := KthWord(Project(doc), k, m, n);
      w.start <= w.end < |text| && IsWordEnd(text[w.end])
  {
    KthWordIsToken(text, doc, k, m, n);
  }
}
