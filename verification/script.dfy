/**
 * The script classifier of the word list: a text counts as Japanese when it
 * contains a Hiragana, Katakana or CJK Unified Ideograph character.
 */
module Script {

  /** The three ranges of the classifier's character class, bounds included. */
  predicate IsHiragana(c: char) { '\U{3040}' <= c <= '\U{309F}' }
  predicate IsKatakana(c: char) { '\U{30A0}' <= c <= '\U{30FF}' }
  predicate IsKanji(c: char) { '\U{4E00}' <= c <= '\U{9FAF}' }

  predicate IsJapaneseChar(c: char) {
    IsHiragana(c) || IsKatakana(c) || IsKanji(c)
  }

  /**
   * `isJapanese(text)`: false for the empty text; otherwise whether the
   * character class matches anywhere in the text, scanning left to right.
   */
  function IsJapanese(text: string): (r: bool)
    ensures |text| == 0 ==> !r
    ensures r <==> exists i :: 0 <= i < |text| && IsJapaneseChar(text[i])
    decreases |text|
  {
    if |text| == 0 then false
    else if IsJapaneseChar(text[0]) then true
    else
      var rest := IsJapanese(text[1..]);
      assert forall i :: 1 <= i < |text| ==> text[i] == text[1..][i - 1];
      rest
  }

  /** The classifier only looks at characters: gluing texts together ors the verdicts. */
  lemma {:induction false} IsJapaneseConcat(a: string, b: string)
    ensures IsJapanese(a + b) <==> IsJapanese(a) || IsJapanese(b)
  {
    if IsJapanese(a) {
      var i :| 0 <= i < |a| && IsJapaneseChar(a[i]);
      assert (a + b)[i] == a[i];
    }
    if IsJapanese(b) {
      var i :| 0 <= i < |b| && IsJapaneseChar(b[i]);
      assert (a + b)[|a| + i] == b[i];
    }
    if IsJapanese(a + b) {
      var i :| 0 <= i < |a + b| && IsJapaneseChar((a + b)[i]);
      if i < |a| {
        assert a[i] == (a + b)[i];
      } else {
        assert b[i - |a|] == (a + b)[i];
      }
    }
  }
}
