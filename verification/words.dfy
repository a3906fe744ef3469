/**
 * A saved word as the word-list screen holds it, and the per-record decision
 * of which of its two untagged texts is shown under "English" and which
 * under "Japanese".
 */
module Words {
  import Script

  /** One vocabulary entry: `id`, `source_text`, `translated_text`, `known`. */
  datatype WordRecord = WordRecord(id: int, sourceText: string, translatedText: string, known: int)

  /** The two display columns a record's texts are assigned to. */
  datatype Columns = Columns(english: string, japanese: string)

  /**
   * Column resolution: when the source text is Japanese the translation is
   * the English value, otherwise the source text is.
   */
  function Resolve(w: WordRecord): (c: Columns)
    ensures (exists i :: 0 <= i < |w.sourceText| && Script.IsJapaneseChar(w.sourceText[i]))
            ==> c == Columns(w.translatedText, w.sourceText)
    ensures (forall i :: 0 <= i < |w.sourceText| ==> !Script.IsJapaneseChar(w.sourceText[i]))
            ==> c == Columns(w.sourceText, w.translatedText)
  {
    if Script.IsJapanese(w.sourceText) then Columns(w.translatedText, w.sourceText)
    else Columns(w.sourceText, w.translatedText)
  }

  function EnglishText(w: WordRecord): string { Resolve(w).english }
  function JapaneseText(w: WordRecord): string { Resolve(w).japanese }

  /** Resolution only rearranges: the two columns are the record's two texts. */
  lemma ResolveIsRearrangement(w: WordRecord)
    ensures multiset{EnglishText(w), JapaneseText(w)} == multiset{w.sourceText, w.translatedText}
    ensures EnglishText(w) == w.sourceText <==> JapaneseText(w) == w.translatedText
  {
  }

  /** One rendered row of the list: id, English cell, Japanese cell, memorised mark. */
  datatype Row = Row(id: int, english: string, japanese: string, mark: string)

  const Check := "\U{2713}"
  const Cross := "\U{2717}"

  /** `renderItem`: the row uses the same resolution as the sort comparator; `known` is tested for truthiness. */
  function Render(w: WordRecord): (row: Row)
    ensures row.id == w.id
    ensures Columns(row.english, row.japanese) == Resolve(w)
    ensures row.mark == Check <==> w.known != 0
    ensures row.mark == Cross <==> w.known == 0
  {
    Row(w.id, EnglishText(w), JapaneseText(w), if w.known != 0 then Check else Cross)
  }
}
