/** Properties of the backend's decisions that relate several requests or several inputs. */
module BackendProperties {
  import opened Wrappers
  import opened Backend

  /** The detector is consulted only when no source language was given. */
  lemma DetectorOnlyWithoutSource(text: string, source: Option<string>, target: Option<string>,
                                  detect1: string -> string, detect2: string -> string,
                                  translate: (string, string, string) -> string)
    requires !Blank(source)
    ensures TranslateText(text, source, target, detect1, translate)
            == TranslateText(text, source, target, detect2, translate)
  {
  }

  /** With neither language given, the direction is the detected language into its counterpart. */
  lemma DefaultDirection(text: string, detect: string -> string, translate: (string, string, string) -> string)
    ensures var r := TranslateText(text, None, None, detect, translate);
            && (detect(text) == "ja" ==> r.sourceLanguage == "ja" && r.targetLanguage == "en")
            && (detect(text) == "" ==> r.sourceLanguage == "en" && r.targetLanguage == "ja")
            && (detect(text) != "" ==> r.sourceLanguage == detect(text))
            && r.sourceLanguage != r.targetLanguage
  {
  }

  /** "auto" and a missing target choose the same direction. */
  lemma AutoIsDefault(text: string, source: Option<string>, detect: string -> string,
                      translate: (string, string, string) -> string)
    ensures TranslateText(text, source, Some("auto"), detect, translate)
            == TranslateText(text, source, None, detect, translate)
  {
  }

  /** A refused translation request does not depend on the translator at all. */
  lemma RefusalIgnoresServices(req: TranslateRequest,
                               detect1: string -> string, detect2: string -> string,
                               translate1: (string, string, string) -> string,
                               translate2: (string, string, string) -> string)
    requires Blank(req.text)
    ensures ApiTranslate(req, detect1, translate1) == ApiTranslate(req, detect2, translate2)
  {
  }

  /** Listing distributes over the table's order. */
  lemma {:induction false} GetWordsConcat(a: seq<DbRow>, b: seq<DbRow>)
    ensures GetWords(a + b) == GetWords(a) + GetWords(b)
    decreases |a|
  {
    if |a| == 0 {
      assert a + b == b;
    } else {
      assert (a + b)[0] == a[0] && (a + b)[1..] == a[1..] + b;
      GetWordsConcat(a[1..], b);
    }
  }

  /**
   * A saved word is listed last, with exactly the texts and languages it was
   * saved with; a refused one leaves the listing as it was.
   */
  lemma SaveThenList(table: seq<DbRow>, data: map<string, string>, newId: int)
    ensures var r := SaveWord(table, data, newId);
            && (r.0.Error? ==> GetWords(r.1) == GetWords(table))
            && (r.0.Ok? ==> GetWords(r.1) == GetWords(table) + [ListedWord(newId, data["source_text"], data["translated_text"],
                                                                          Field(data, "source_lang"), Field(data, "target_lang"))])
  {
    var r := SaveWord(table, data, newId);
    if r.0.Ok? {
      assert r.1 == table + [r.1[|table|]];
      GetWordsConcat(table, [r.1[|table|]]);
    }
  }

  /** Every word the backend stores starts out not memorised. */
  predicate AllUnknown(table: seq<DbRow>) {
    forall i :: 0 <= i < |table| ==> table[i].known == 0
  }

  lemma SaveKeepsAllUnknown(table: seq<DbRow>, data: map<string, string>, newId: int)
    requires AllUnknown(table)
    ensures AllUnknown(SaveWord(table, data, newId).1)
  {
    var r := SaveWord(table, data, newId);
    if r.0.Ok? {
      forall i | 0 <= i < |r.1|
        ensures r.1[i].known == 0
      {
        if i < |table| {
          assert r.1[i] == r.1[..|table|][i];
        }
      }
    }
  }

  /** The listing never reveals the `known` column: tables that differ only there list the same. */
  lemma ListingIgnoresKnown(a: seq<DbRow>, b: seq<DbRow>)
    requires |a| == |b|
    requires forall i :: 0 <= i < |a| ==> a[i].(known := 0) == b[i].(known := 0)
    ensures GetWords(a) == GetWords(b)
  {
    var la, lb := GetWords(a), GetWords(b);
    forall i | 0 <= i < |a|
      ensures la[i] == lb[i]
    {
      assert a[i].(known := 0) == b[i].(known := 0);
    }
  }
}
