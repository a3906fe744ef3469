/** Properties of the word-list screen that relate several of its operations. */
module WordListProperties {
  import opened Wrappers
  import opened Words
  import opened WordList

  // ---------------------------------------------------------------------------
  // Delete

  /** The filter works element by element, so it keeps the relative order of what it keeps. */
  lemma {:induction false} DeleteConcat(a: seq<WordRecord>, b: seq<WordRecord>, id: int)
    ensures DeleteById(a + b, id) == DeleteById(a, id) + DeleteById(b, id)
    decreases |a|
  {
    if |a| == 0 {
      assert a + b == b;
    } else {
      assert (a + b)[0] == a[0] && (a + b)[1..] == a[1..] + b;
      DeleteConcat(a[1..], b, id);
    }
  }

  /** Records with other ids are kept as they are, in order. */
  lemma {:induction false} DeleteAbsent(words: seq<WordRecord>, id: int)
    requires forall i :: 0 <= i < |words| ==> words[i].id != id
    ensures DeleteById(words, id) == words
    decreases |words|
  {
    if |words| > 0 {
      DeleteAbsent(words[1..], id);
    }
  }

  /**
   * When the record at position `k` is the only one with its id, deleting
   * that id removes exactly that record and leaves the others in their order.
   */
  lemma DeleteUniqueRemovesOne(words: seq<WordRecord>, k: int)
    requires 0 <= k < |words|
    requires forall i :: 0 <= i < |words| && i != k ==> words[i].id != words[k].id
    ensures DeleteById(words, words[k].id) == words[..k] + words[k + 1..]
    ensures |DeleteById(words, words[k].id)| == |words| - 1
  {
    var id := words[k].id;
    var before, after := words[..k], words[k + 1..];
    assert DeleteById(before, id) == before by {
      DeleteSliceAbsent(words, 0, k, id);
      assert words[0..k] == before;
    }
    assert DeleteById(after, id) == after by {
      DeleteSliceAbsent(words, k + 1, |words|, id);
      assert words[k + 1..|words|] == after;
    }
    assert words == before + ([words[k]] + after);
    DeleteDropsOne(before, words[k], after, id);
  }

  lemma DeleteDropsOne(before: seq<WordRecord>, w: WordRecord, after: seq<WordRecord>, id: int)
    requires w.id == id
    requires DeleteById(before, id) == before && DeleteById(after, id) == after
    ensures DeleteById(before + ([w] + after), id) == before + after
  {
    DeleteConcat([w], after, id);
    assert DeleteById([w], id) == [];
    DeleteConcat(before, [w] + after, id);
  }

  lemma DeleteSliceAbsent(words: seq<WordRecord>, lo: int, hi: int, id: int)
    requires 0 <= lo <= hi <= |words|
    requires forall i :: lo <= i < hi ==> words[i].id != id
    ensures DeleteById(words[lo..hi], id) == words[lo..hi]
  {
    var slice := words[lo..hi];
    forall i | 0 <= i < |slice|
      ensures slice[i].id != id
    {
      assert slice[i] == words[lo + i];
    }
    DeleteAbsent(slice, id);
  }

  /** Deleting twice is deleting once. */
  lemma DeleteIdempotent(words: seq<WordRecord>, id: int)
    ensures DeleteById(DeleteById(words, id), id) == DeleteById(words, id)
  {
    DeleteAbsent(DeleteById(words, id), id);
  }

  // ---------------------------------------------------------------------------
  // Glyphs and label, before and after a sort

  /** Before any sort every column shows the neutral glyph and the label reads "Original". */
  lemma InitialPresentation(words: seq<WordRecord>, key: SortKey)
    ensures SortIcon(Loaded(words).sortConfig, key) == Unsorted
    ensures SortLabel(Loaded(words).sortConfig) == "Original"
  {
  }

  /** After a sort the sorted column shows the direction's arrow and every other column the neutral glyph. */
  lemma IconsAfterSort(st: ListState, key: SortKey, column: SortKey)
    ensures var r := SortBy(st, key);
            SortIcon(r.sortConfig, column)
            == if column != key then Unsorted
               else if st.sortConfig.key == Some(key) && st.sortConfig.direction == Some(Asc) then DownArrow
               else UpArrow
  {
  }

  /** After a sort the label names the column and the direction, never "Original". */
  lemma LabelAfterSort(st: ListState, key: SortKey)
    ensures var r := SortBy(st, key);
            SortLabel(r.sortConfig)
            == KeyLabel(key) + (if r.sortConfig.direction == Some(Asc) then " (Up)" else " (Down)")
    ensures SortLabel(SortBy(st, key).sortConfig) != "Original"
  {
    var r := SortBy(st, key);
    var text := SortLabel(r.sortConfig);
    assert |KeyLabel(key)| >= 2;
    assert text[|text| - 1] == ')';
  }

  /** Three clicks on the same column go ascending, descending, ascending again. */
  lemma ClickCycle(st: ListState, key: SortKey)
    requires st.sortConfig.key != Some(key)
    ensures SortBy(st, key).sortConfig == SortConfig(Some(key), Some(Asc))
    ensures SortBy(SortBy(st, key), key).sortConfig == SortConfig(Some(key), Some(Desc))
    ensures SortBy(SortBy(SortBy(st, key), key), key).sortConfig == SortConfig(Some(key), Some(Asc))
  {
  }

  /** Sorting an empty list changes nothing but the configuration, which the label then shows. */
  lemma SortEmpty(config: SortConfig, key: SortKey)
    ensures SortBy(ListState([], config), key).words == []
    ensures SortLabel(SortBy(ListState([], config), key).sortConfig) != "Original"
  {
    LabelAfterSort(ListState([], config), key);
  }

  /**
   * A click on the ID header before the words have arrived sorts the empty
   * list; the words then arrive in table order, yet the label reads
   * "ID (Up)" and the ID column shows the up arrow.
   */
  lemma SortBeforeLoad(a: WordRecord, b: WordRecord)
    requires a.id < b.id
    ensures var r := LoadCompleted(SortBy(Loaded([]), Id), [b, a]);
            && SortLabel(r.sortConfig) == "ID (Up)"
            && SortIcon(r.sortConfig, Id) == UpArrow
            && !Ordered(Id, Asc, r.words)
            && r != Loaded([b, a])
  {
    var r := LoadCompleted(SortBy(Loaded([]), Id), [b, a]);
    assert r.sortConfig == SortConfig(Some(Id), Some(Asc));
    assert SortLabel(r.sortConfig) == "ID" + " (" + "Up" + ")";
    assert Compare(Id, Asc, r.words[0], r.words[1]) == 1;
  }

  /**
   * Records that all compare equal keep their order: sorting by `known` a list
   * whose words share one flag leaves it in table order.
   */
  lemma {:induction false} SortAllTied(key: SortKey, dir: Direction, s: seq<WordRecord>)
    requires forall i, j :: 0 <= i < |s| && 0 <= j < |s| ==> Compare(key, dir, s[i], s[j]) == 0
    ensures Sort(key, dir, s) == s
    decreases |s|
  {
    if |s| > 0 {
      SortAllTied(key, dir, s[1..]);
      assert s == [s[0]] + s[1..];
      if |s| > 1 {
        assert Compare(key, dir, s[0], s[1]) == 0;
      }
    }
  }

  // ---------------------------------------------------------------------------
  // The two-word example: sorting by the English column from the initial state

  const Konnichiwa := "\U{3053}\U{3093}\U{306B}\U{3061}\U{306F}"
  const Sayounara := "\U{3055}\U{3088}\U{3046}\U{306A}\U{3089}"

  lemma TwoWordExample()
    ensures var first := WordRecord(1, Konnichiwa, "Hello", 0);
            var second := WordRecord(2, "Goodbye", Sayounara, 1);
            var r := SortBy(Loaded([first, second]), English);
            && r.words == [second, first]
            && Render(r.words[0]) == Row(2, "Goodbye", Sayounara, Check)
            && Render(r.words[1]) == Row(1, "Hello", Konnichiwa, Cross)
            && SortLabel(r.sortConfig) == "Englsih (Up)"
  {
    var first := WordRecord(1, Konnichiwa, "Hello", 0);
    var second := WordRecord(2, "Goodbye", Sayounara, 1);
    ExampleColumns(first, second);
    var r := SortBy(Loaded([first, second]), English);
    assert r == ListState([second, first], SortConfig(Some(English), Some(Asc))) by {
      ExampleSort(first, second);
    }
    ExampleLabel();
  }

  /**
   * A word starting with an emoji sorts before one starting with a fullwidth
   * parenthesis, as JavaScript's code-unit order puts it, even though the
   * emoji's scalar value is the larger one.
   */
  lemma SurrogateSortExample()
    ensures var paren := WordRecord(1, "\U{FF08}", "x", 0);
            var smile := WordRecord(2, "\U{1F600}", "y", 0);
            SortBy(Loaded([paren, smile]), English).words == [smile, paren]
  {
    var paren := WordRecord(1, "\U{FF08}", "x", 0);
    var smile := WordRecord(2, "\U{1F600}", "y", 0);
    assert !Script.IsJapanese(paren.sourceText) && !Script.IsJapanese(smile.sourceText);
    JsString.SupplementaryBeforeFullwidth();
    assert Compare(English, Asc, paren, smile) == 1;
    ExampleSort(paren, smile);
  }

  lemma ExampleLabel()
    ensures SortLabel(SortConfig(Some(English), Some(Asc))) == "Englsih (Up)"
  {
    assert SortLabel(SortConfig(Some(English), Some(Asc))) == "Englsih" + " (" + "Up" + ")";
  }

  lemma ExampleSort(first: WordRecord, second: WordRecord)
    requires Compare(English, Asc, first, second) == 1
    ensures Sort(English, Asc, [first, second]) == [second, first]
  {
    assert [first, second][1..] == [second];
    assert Sort(English, Asc, [second]) == [second] by {
      assert [second][1..] == [];
    }
    assert Insert(English, Asc, first, [second]) == [second] + Insert(English, Asc, first, []);
  }

  /** The first record's source is Japanese, the second's is not; "Goodbye" sorts before "Hello". */
  lemma ExampleColumns(first: WordRecord, second: WordRecord)
    requires first == WordRecord(1, Konnichiwa, "Hello", 0)
    requires second == WordRecord(2, "Goodbye", Sayounara, 1)
    ensures Render(first) == Row(1, "Hello", Konnichiwa, Cross)
    ensures Render(second) == Row(2, "Goodbye", Sayounara, Check)
    ensures Compare(English, Asc, first, second) == 1
  {
    assert Script.IsJapaneseChar(Konnichiwa[0]);
    assert !Script.IsJapanese("Goodbye");
    assert JsString.Less("Goodbye", "Hello");
  }

  // ---------------------------------------------------------------------------
  // A second click on the same column reverses the list when the column's values are distinct

  /** No two different records in the collection share the extracted value. */
  predicate DistinctValues(key: SortKey, m: multiset<WordRecord>) {
    forall v, w :: v in m && w in m && Extract(key, v) == Extract(key, w) ==> v == w
  }

  function Reverse(s: seq<WordRecord>): (r: seq<WordRecord>)
    ensures |r| == |s|
    ensures forall i :: 0 <= i < |s| ==> r[i] == s[|s| - 1 - i]
    ensures multiset(r) == multiset(s)
    decreases |s|
  {
    if |s| == 0 then []
    else
      assert s == [s[0]] + s[1..];
      Reverse(s[1..]) + [s[0]]
  }

  /** Adjacent order implies the order of every pair. */
  lemma {:induction false} OrderedPairwise(key: SortKey, dir: Direction, s: seq<WordRecord>, i: int, j: int)
    requires Ordered(key, dir, s)
    requires 0 <= i <= j < |s|
    ensures Compare(key, dir, s[i], s[j]) <= 0
    decreases j - i
  {
    if i == j {
      ValueLessIrreflexive(Extract(key, s[i]));
    } else {
      OrderedPairwise(key, dir, s, i + 1, j);
      CompareTransitive(key, dir, s[i], s[i + 1], s[j]);
    }
  }

  lemma ReverseOrdered(key: SortKey, s: seq<WordRecord>)
    requires Ordered(key, Asc, s)
    ensures Ordered(key, Desc, Reverse(s))
  {
    var r := Reverse(s);
    forall i | 0 < i < |r|
      ensures Compare(key, Desc, r[i - 1], r[i]) <= 0
    {
      CompareFlip(key, r[i - 1], r[i]);
      assert r[i] == s[|s| - 1 - i] && r[i - 1] == s[|s| - 1 - i + 1];
    }
  }

  /** The first elements of two ordered arrangements of the same records with distinct values agree. */
  lemma OrderedHeads(key: SortKey, dir: Direction, a: seq<WordRecord>, b: seq<WordRecord>)
    requires Ordered(key, dir, a) && Ordered(key, dir, b)
    requires multiset(a) == multiset(b) && |a| > 0
    requires DistinctValues(key, multiset(a))
    ensures |b| > 0 && a[0] == b[0]
  {
    assert |b| == |multiset(b)| == |a|;
    assert b[0] in multiset(a) && a[0] in multiset(b);
    var j :| 0 <= j < |a| && a[j] == b[0];
    var k :| 0 <= k < |b| && b[k] == a[0];
    OrderedPairwise(key, dir, a, 0, j);
    OrderedPairwise(key, dir, b, 0, k);
    CompareAntisymmetric(key, dir, a[0], b[0]);
  }

  lemma MultisetTail(s: seq<WordRecord>)
    requires |s| > 0
    ensures multiset(s[1..]) == multiset(s) - multiset{s[0]}
  {
    assert s == [s[0]] + s[1..];
  }

  lemma DistinctValuesSub(key: SortKey, m: multiset<WordRecord>, sub: multiset<WordRecord>)
    requires DistinctValues(key, m) && sub <= m
    ensures DistinctValues(key, sub)
  {
  }

  /** Two ordered arrangements of the same records with distinct values are the same sequence. */
  lemma {:induction false} OrderedUnique(key: SortKey, dir: Direction, a: seq<WordRecord>, b: seq<WordRecord>)
    requires Ordered(key, dir, a) && Ordered(key, dir, b)
    requires multiset(a) == multiset(b)
    requires DistinctValues(key, multiset(a))
    ensures a == b
    decreases |a|
  {
    if |a| == 0 {
      assert |b| == |multiset(b)| == 0;
    } else {
      OrderedHeads(key, dir, a, b);
      assert a[1..] == b[1..] by {
        MultisetTail(a);
        MultisetTail(b);
        DistinctValuesSub(key, multiset(a), multiset(a[1..]));
        OrderedTail(key, dir, a);
        OrderedTail(key, dir, b);
        OrderedUnique(key, dir, a[1..], b[1..]);
      }
      assert a == [a[0]] + a[1..] && b == [b[0]] + b[1..];
    }
  }

  /**
   * Clicking a column that sorted ascending a second time shows the same
   * records in exactly the reverse order, provided no two records share the
   * column's value.
   */
  lemma SecondClickReverses(st: ListState, key: SortKey)
    requires !(st.sortConfig.key == Some(key) && st.sortConfig.direction == Some(Asc))
    requires DistinctValues(key, multiset(st.words))
    ensures var once := SortBy(st, key);
            var twice := SortBy(once, key);
            && once.sortConfig.direction == Some(Asc)
            && twice.sortConfig.direction == Some(Desc)
            && twice.words == Reverse(once.words)
  {
    var once := SortBy(st, key);
    var twice := SortBy(once, key);
    assert once.words == Sort(key, Asc, st.words);
    assert twice.words == Sort(key, Desc, once.words);
    ReverseOrdered(key, once.words);
    OrderedUnique(key, Desc, twice.words, Reverse(once.words));
  }
}
