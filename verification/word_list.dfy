/**
 * The saved-word list screen: sorting by one of four columns with an
 * ascending/descending toggle, the header glyphs, the "Current order" label
 * and the removal of a deleted word.
 */
module WordList {
  import opened Wrappers
  import JsString
  import opened Words

  datatype SortKey = Id | English | Japanese | Known
  datatype Direction = Asc | Desc

  /** `sortConfig`: both fields are null until the first sort. */
  datatype SortConfig = SortConfig(key: Option<SortKey>, direction: Option<Direction>)

  const InitialConfig := SortConfig(None, None)

  /** The screen's state: the displayed records, in display order, and the sort configuration. */
  datatype ListState = ListState(words: seq<WordRecord>, sortConfig: SortConfig)

  /** The state right after the word list has been loaded: loaded order, no sort. */
  function Loaded(words: seq<WordRecord>): ListState {
    ListState(words, InitialConfig)
  }

  /**
   * The fetched words arrive: they replace the displayed records, and the sort
   * configuration stays as it is, so a sort made before they arrived keeps its
   * label and glyph over records in table order.
   */
  function LoadCompleted(st: ListState, data: seq<WordRecord>): (r: ListState)
    ensures r.words == data && r.sortConfig == st.sortConfig
    ensures st.sortConfig == InitialConfig ==> r == Loaded(data)
  {
    st.(words := data)
  }

  // ---------------------------------------------------------------------------
  // Comparison values

  /** The value the comparator extracts: a number for `id`/`known`, a string for the text columns. */
  datatype SortValue = Number(n: int) | Text(s: string)

  /** JavaScript `<` on two extracted values of the same kind. */
  predicate ValueLess(a: SortValue, b: SortValue) {
    match (a, b)
    case (Number(x), Number(y)) => x < y
    case (Text(x), Text(y)) => JsString.Less(x, y)
    case _ => false
  }

  /** Non-decreasing between two values: equal, or `<`. */
  predicate ValueAtMost(a: SortValue, b: SortValue) {
    a == b || ValueLess(a, b)
  }

  predicate SameKind(a: SortValue, b: SortValue) {
    a.Number? <==> b.Number?
  }

  lemma ValueLessIrreflexive(a: SortValue)
    ensures !ValueLess(a, a)
  {
    if a.Text? {
      JsString.LessIrreflexive(a.s);
    }
  }

  lemma ValueLessAsymmetric(a: SortValue, b: SortValue)
    ensures ValueLess(a, b) ==> !ValueLess(b, a)
  {
    if a.Text? && b.Text? {
      JsString.LessAsymmetric(a.s, b.s);
    }
  }

  lemma ValueTrichotomy(a: SortValue, b: SortValue)
    requires SameKind(a, b)
    ensures a == b || ValueLess(a, b) || ValueLess(b, a)
  {
    if a.Text? {
      JsString.LessTrichotomy(a.s, b.s);
    }
  }

  lemma ValueLessTransitive(a: SortValue, b: SortValue, c: SortValue)
    ensures ValueLess(a, b) && ValueLess(b, c) ==> ValueLess(a, c)
  {
    if a.Text? && b.Text? && c.Text? {
      JsString.LessTransitive(a.s, b.s, c.s);
    }
  }

  /**
   * The comparator's operand for one record: the raw field for `id` and
   * `known`, the resolved column text for `english` and `japanese`.
   */
  function Extract(key: SortKey, w: WordRecord): (v: SortValue)
    ensures v.Number? <==> key == Id || key == Known
    ensures key == Id ==> v == Number(w.id)
    ensures key == Known ==> v == Number(w.known)
    ensures key == English ==> v == Text(Render(w).english)
    ensures key == Japanese ==> v == Text(Render(w).japanese)
  {
    match key
    case Id => Number(w.id)
    case Known => Number(w.known)
    case English => Text(EnglishText(w))
    case Japanese => Text(JapaneseText(w))
  }

  /**
   * The comparator handed to `sort`: -1, 0 or 1, with the signs swapped for
   * a descending sort; records with equal extracted values compare as 0.
   */
  function Compare(key: SortKey, dir: Direction, a: WordRecord, b: WordRecord): (r: int)
    ensures r == -1 || r == 0 || r == 1
    ensures r == 0 <==> Extract(key, a) == Extract(key, b)
    ensures dir == Asc ==> (r < 0 <==> ValueLess(Extract(key, a), Extract(key, b)))
    ensures dir == Desc ==> (r < 0 <==> ValueLess(Extract(key, b), Extract(key, a)))
  {
    var av := Extract(key, a);
    var bv := Extract(key, b);
    ValueTrichotomy(av, bv);
    ValueLessAsymmetric(av, bv);
    ValueLessIrreflexive(av);
    if ValueLess(av, bv) then (if dir == Asc then -1 else 1)
    else if ValueLess(bv, av) then (if dir == Asc then 1 else -1)
    else 0
  }

  lemma CompareAntisymmetric(key: SortKey, dir: Direction, a: WordRecord, b: WordRecord)
    ensures Compare(key, dir, a, b) == -Compare(key, dir, b, a)
  {
    ValueLessAsymmetric(Extract(key, a), Extract(key, b));
  }

  lemma CompareTransitive(key: SortKey, dir: Direction, a: WordRecord, b: WordRecord, c: WordRecord)
    ensures Compare(key, dir, a, b) <= 0 && Compare(key, dir, b, c) <= 0 ==> Compare(key, dir, a, c) <= 0
  {
    var av, bv, cv := Extract(key, a), Extract(key, b), Extract(key, c);
    ValueLessTransitive(av, bv, cv);
    ValueLessTransitive(cv, bv, av);
  }

  /** Swapping the direction is the same as swapping the operands. */
  lemma CompareFlip(key: SortKey, a: WordRecord, b: WordRecord)
    ensures Compare(key, Desc, a, b) == Compare(key, Asc, b, a)
  {
  }

  // ---------------------------------------------------------------------------
  // Sorting

  /** Every adjacent pair is in comparator order. */
  predicate Ordered(key: SortKey, dir: Direction, s: seq<WordRecord>) {
    forall i :: 0 < i < |s| ==> Compare(key, dir, s[i - 1], s[i]) <= 0
  }

  /** Inserts `x` in front of the first element it does not compare after. */
  function Insert(key: SortKey, dir: Direction, x: WordRecord, s: seq<WordRecord>): (r: seq<WordRecord>)
    ensures multiset(r) == multiset(s) + multiset{x}
    ensures |r| == |s| + 1 && |r| > 0
    ensures r[0] == x || (|s| > 0 && r[0] == s[0])
    ensures Ordered(key, dir, s) ==> Ordered(key, dir, r)
    decreases |s|
  {
    if |s| == 0 then [x]
    else if Compare(key, dir, x, s[0]) <= 0 then
      InsertFront(key, dir, x, s);
      [x] + s
    else
      var t := Insert(key, dir, x, s[1..]);
      CompareAntisymmetric(key, dir, x, s[0]);
      assert s == [s[0]] + s[1..];
      InsertStep(key, dir, x, s, t);
      [s[0]] + t
  }

  lemma OrderedTail(key: SortKey, dir: Direction, s: seq<WordRecord>)
    requires Ordered(key, dir, s) && |s| > 0
    ensures Ordered(key, dir, s[1..])
  {
    forall i | 0 < i < |s[1..]|
      ensures Compare(key, dir, s[1..][i - 1], s[1..][i]) <= 0
    {
      assert s[1..][i - 1] == s[i] && s[1..][i] == s[i + 1];
    }
  }

  /** An element that does not compare after the head of an ordered list may go in front of it. */
  lemma InsertFront(key: SortKey, dir: Direction, x: WordRecord, s: seq<WordRecord>)
    requires |s| > 0 && Compare(key, dir, x, s[0]) <= 0
    ensures Ordered(key, dir, s) ==> Ordered(key, dir, [x] + s)
  {
    if Ordered(key, dir, s) {
      var r := [x] + s;
      forall i | 0 < i < |r|
        ensures Compare(key, dir, r[i - 1], r[i]) <= 0
      {
        if i > 1 {
          assert r[i - 1] == s[i - 2] && r[i] == s[i - 1];
        }
      }
    }
  }

  /**
   * The recursive step of `Insert`: the head of an ordered list may precede
   * the insertion into its tail, which starts with `x` or the second element.
   */
  lemma InsertStep(key: SortKey, dir: Direction, x: WordRecord, s: seq<WordRecord>, t: seq<WordRecord>)
    requires |s| > 0 && Compare(key, dir, s[0], x) < 0
    requires |t| > 0 && (t[0] == x || (|s| > 1 && t[0] == s[1]))
    requires Ordered(key, dir, s[1..]) ==> Ordered(key, dir, t)
    ensures Ordered(key, dir, s) ==> Ordered(key, dir, [s[0]] + t)
  {
    if !Ordered(key, dir, s) {
      return;
    }
    OrderedTail(key, dir, s);
    var r := [s[0]] + t;
    forall i | 0 < i < |r|
      ensures Compare(key, dir, r[i - 1], r[i]) <= 0
    {
      if i == 1 {
        assert r[0] == s[0] && r[1] == t[0];
      } else {
        assert r[i - 1] == t[i - 2] && r[i] == t[i - 1];
      }
    }
  }

  /** Insertion sort with the screen's comparator; any correct sort yields an ordered permutation. */
  function Sort(key: SortKey, dir: Direction, s: seq<WordRecord>): (r: seq<WordRecord>)
    ensures multiset(r) == multiset(s)
    ensures |r| == |s|
    ensures Ordered(key, dir, r)
    decreases |s|
  {
    if |s| == 0 then []
    else
      assert s == [s[0]] + s[1..];
      Insert(key, dir, s[0], Sort(key, dir, s[1..]))
  }

  /** The toggle rule: descending only when re-sorting the current key while it is ascending. */
  function NextDirection(config: SortConfig, key: SortKey): (d: Direction)
    ensures d == Desc <==> config.key == Some(key) && config.direction == Some(Asc)
  {
    if config.key == Some(key) && config.direction == Some(Asc) then Desc else Asc
  }

  /**
   * `sortBy(key)`: re-orders a copy of the records by the chosen column and
   * records the key and the new direction, also for an empty list.
   */
  function SortBy(st: ListState, key: SortKey): (r: ListState)
    ensures r.sortConfig.key == Some(key)
    ensures r.sortConfig.direction == Some(Desc)
            <==> st.sortConfig.key == Some(key) && st.sortConfig.direction == Some(Asc)
    ensures r.sortConfig.direction == Some(Asc)
            <==> !(st.sortConfig.key == Some(key) && st.sortConfig.direction == Some(Asc))
    ensures multiset(r.words) == multiset(st.words)
    ensures r.sortConfig.direction == Some(Asc) ==>
              forall i :: 0 < i < |r.words| ==> ValueAtMost(Extract(key, r.words[i - 1]), Extract(key, r.words[i]))
    ensures r.sortConfig.direction == Some(Desc) ==>
              forall i :: 0 < i < |r.words| ==> ValueAtMost(Extract(key, r.words[i]), Extract(key, r.words[i - 1]))
  {
    var dir := NextDirection(st.sortConfig, key);
    var sorted := Sort(key, dir, st.words);
    assert forall i :: 0 < i < |sorted| ==> Compare(key, dir, sorted[i - 1], sorted[i]) <= 0;
    ListState(sorted, SortConfig(Some(key), Some(dir)))
  }

  // ---------------------------------------------------------------------------
  // Header glyphs and the "Current order" label

  const Unsorted := "\U{21C5}"
  const UpArrow := "\U{2191}"
  const DownArrow := "\U{2193}"

  /** `getSortIcon(key)`: the neutral glyph on every column but the sorted one. */
  function SortIcon(config: SortConfig, key: SortKey): (icon: string)
    ensures icon == Unsorted <==> config.key != Some(key)
    ensures icon == UpArrow <==> config.key == Some(key) && config.direction == Some(Asc)
    ensures icon == DownArrow <==> config.key == Some(key) && config.direction != Some(Asc)
  {
    if config.key != Some(key) then Unsorted
    else if config.direction == Some(Asc) then UpArrow
    else DownArrow
  }

  /** The column names of the label, spelled as the screen spells them. */
  function KeyLabel(key: SortKey): (text: string)
    ensures |text| >= 2 && text != "Original"
    ensures text == "ID" <==> key == Id
    ensures text == "Englsih" <==> key == English
    ensures text == "Japanse" <==> key == Japanese
    ensures text == "Known" <==> key == Known
  {
    match key
    case Id => "ID"
    case English => "Englsih"
    case Japanese => "Japanse"
    case Known => "Known"
  }

  /** `getSortLabel()`: "Original" before any sort, else "<label> (Up)" or "<label> (Down)". */
  function SortLabel(config: SortConfig): (text: string)
    ensures config.key == None ==> text == "Original"
    ensures config.key.Some? && config.direction == Some(Asc) ==> text == KeyLabel(config.key.value) + " (Up)"
    ensures config.key.Some? && config.direction != Some(Asc) ==> text == KeyLabel(config.key.value) + " (Down)"
  {
    if config.key.None? then "Original"
    else
      var direction := if config.direction == Some(Asc) then "Up" else "Down";
      KeyLabel(config.key.value) + " (" + direction + ")"
  }

  // ---------------------------------------------------------------------------
  // Deleting a word

  /** The list after a deletion: the records whose id differs from the deleted one, in their order. */
  function DeleteById(words: seq<WordRecord>, id: int): (r: seq<WordRecord>)
    ensures |r| <= |words|
    ensures forall i :: 0 <= i < |r| ==> r[i].id != id
    decreases |words|
  {
    if |words| == 0 then []
    else
      assert words == [words[0]] + words[1..];
      var rest := DeleteById(words[1..], id);
      if words[0].id == id then rest else [words[0]] + rest
  }

  /** Every copy of a record with another id survives, and no record with the id does. */
  lemma {:induction false} DeleteCounts(words: seq<WordRecord>, id: int)
    ensures forall w :: multiset(DeleteById(words, id))[w] == if w.id == id then 0 else multiset(words)[w]
    decreases |words|
  {
    if |words| > 0 {
      DeleteCounts(words[1..], id);
      assert words == [words[0]] + words[1..];
      assert multiset(words) == multiset{words[0]} + multiset(words[1..]);
    }
  }

  /**
   * Removing a word after the backend confirmed it: every record with that
   * id goes, every other record stays, and the sort configuration is left
   * as it was.
   */
  function DeleteWord(st: ListState, id: int): (r: ListState)
    ensures r.sortConfig == st.sortConfig
    ensures forall w :: multiset(r.words)[w] == if w.id == id then 0 else multiset(st.words)[w]
  {
    DeleteCounts(st.words, id);
    ListState(DeleteById(st.words, id), st.sortConfig)
  }
}
