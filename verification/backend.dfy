/**
 * The pure decisions of the Flask backend: how the translation direction is
 * chosen, which requests are refused, what a saved word is stored as and
 * what the word listing returns. The language detector and the translator
 * are external services and enter as function parameters; the database is
 * a sequence of rows.
 */
module Backend {
  import opened Wrappers

  /** Python truthiness of an optional string field: `None` and `""` are both false. */
  predicate Blank(v: Option<string>) {
    v.None? || v.value == ""
  }

  /** Without a given source language, the detected one is used, falling back to English when detection finds nothing. */
  function ResolveSource(source: Option<string>, detected: string): (r: string)
    ensures r != ""
    ensures !Blank(source) ==> r == source.value
    ensures Blank(source) && detected != "" ==> r == detected
    ensures Blank(source) && detected == "" ==> r == "en"
  {
    if !Blank(source) then source.value
    else if detected != "" then detected
    else "en"
  }

  /** A missing, empty or "auto" target becomes English for Japanese input and Japanese otherwise. */
  function ResolveTarget(source: string, target: Option<string>): (r: string)
    ensures r != "" && r != "auto"
    ensures !Blank(target) && target.value != "auto" ==> r == target.value
    ensures Blank(target) || target.value == "auto" ==> r != source && (r == "en" <==> source == "ja")
    ensures Blank(target) || target.value == "auto" ==> r == "en" || r == "ja"
  {
    if Blank(target) || target.value == "auto" then
      if source == "ja" then "en" else "ja"
    else target.value
  }

  /** The result object of `translate_text`. */
  datatype Translation = Translation(sourceLanguage: string, targetLanguage: string, translatedText: string)

  /**
   * `translate_text`: resolves the direction, asks the translator, and echoes
   * the resolved direction with the translation.
   */
  function TranslateText(text: string, source: Option<string>, target: Option<string>,
                         detect: string -> string, translate: (string, string, string) -> string): (r: Translation)
    ensures r.sourceLanguage != "" && r.targetLanguage != "" && r.targetLanguage != "auto"
    ensures !Blank(source) ==> r.sourceLanguage == source.value
    ensures Blank(source) ==> r.sourceLanguage == (if detect(text) != "" then detect(text) else "en")
    ensures !Blank(target) && target.value != "auto" ==> r.targetLanguage == target.value
    ensures Blank(target) || target.value == "auto" ==>
              r.targetLanguage == (if r.sourceLanguage == "ja" then "en" else "ja")
    ensures r.translatedText == translate(text, r.sourceLanguage, r.targetLanguage)
  {
    var src := ResolveSource(source, if Blank(source) then detect(text) else "");
    var tgt := ResolveTarget(src, target);
    Translation(src, tgt, translate(text, src, tgt))
  }

  /** The JSON body of a `/translate` request; every field may be missing. */
  datatype TranslateRequest = TranslateRequest(text: Option<string>, source: Option<string>, target: Option<string>)

  /** A reply: the success body, or an error status with its message. */
  datatype Reply<T> = Ok(body: T) | Error(status: int, message: string)

  const TextRequired := "text is required"

  /** `POST /translate`: a missing or empty `text` is refused with 400 before anything is translated. */
  function ApiTranslate(req: TranslateRequest, detect: string -> string,
                        translate: (string, string, string) -> string): (r: Reply<Translation>)
    ensures r.Error? <==> Blank(req.text)
    ensures r.Error? ==> r.status == 400 && r.message == TextRequired
    ensures r.Ok? ==> r.body == TranslateText(req.text.value, req.source, req.target, detect, translate)
  {
    if Blank(req.text) then Error(400, TextRequired)
    else Ok(TranslateText(req.text.value, req.source, req.target, detect, translate))
  }

  // ---------------------------------------------------------------------------
  // Saved words

  /** One row of the `words` table. */
  datatype DbRow = DbRow(id: int, sourceText: string, translatedText: string,
                         sourceLang: string, targetLang: string, known: int)

  /** A field of a JSON object whose values are strings; a missing field reads as the empty string. */
  function Field(data: map<string, string>, name: string): (v: string)
    ensures name in data ==> v == data[name]
    ensures name !in data ==> v == ""
  {
    if name in data then data[name] else ""
  }

  /** "テキストが空です" ("the text is empty"). */
  const EmptyTextMessage := "\U{30C6}\U{30AD}\U{30B9}\U{30C8}\U{304C}\U{7A7A}\U{3067}\U{3059}"

  /**
   * `POST /save_word`: refused with 400 when either text is empty; otherwise
   * the word is appended as not yet memorised under the id the database
   * assigns (`newId`), which is returned.
   */
  function SaveWord(table: seq<DbRow>, data: map<string, string>, newId: int): (r: (Reply<int>, seq<DbRow>))
    ensures r.0.Error? <==> Field(data, "source_text") == "" || Field(data, "translated_text") == ""
    ensures r.0.Error? ==> r.0.status == 400 && r.0.message == EmptyTextMessage && r.1 == table
    ensures r.0.Ok? ==> r.0.body == newId && |r.1| == |table| + 1 && r.1[..|table|] == table
    ensures r.0.Ok? ==> r.1[|table|].known == 0
    ensures r.0.Ok? ==> r.1[|table|] == DbRow(newId, data["source_text"], data["translated_text"],
                                               Field(data, "source_lang"), Field(data, "target_lang"), 0)
  {
    var sourceText := Field(data, "source_text");
    var translatedText := Field(data, "translated_text");
    var sourceLang := Field(data, "source_lang");
    var targetLang := Field(data, "target_lang");
    var known := 0;
    if sourceText == "" || translatedText == "" then (Error(400, EmptyTextMessage), table)
    else
      var row := DbRow(newId, sourceText, translatedText, sourceLang, targetLang, known);
      (Ok(newId), table + [row])
  }

  /** A word as `GET /words` returns it: the `known` column is not selected. */
  datatype ListedWord = ListedWord(id: int, sourceText: string, translatedText: string,
                                   sourceLang: string, targetLang: string)

  /** `GET /words`: every row, in table order, without its `known` column. */
  function GetWords(rows: seq<DbRow>): (r: seq<ListedWord>)
    ensures |r| == |rows|
    ensures forall i :: 0 <= i < |rows| ==>
              && r[i].id == rows[i].id
              && r[i].sourceText == rows[i].sourceText
              && r[i].translatedText == rows[i].translatedText
              && r[i].sourceLang == rows[i].sourceLang
              && r[i].targetLang == rows[i].targetLang
    decreases |rows|
  {
    if |rows| == 0 then []
    else
      var row := rows[0];
      [ListedWord(row.id, row.sourceText, row.translatedText, row.sourceLang, row.targetLang)] + GetWords(rows[1..])
  }
}
