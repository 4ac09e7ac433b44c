/**
 * The word collection: its entries, the playable subset for a category
 * filter, deletion by id, validation and normalisation of a new entry, and
 * the sorted list of categories offered by the filter.
 */
module Words {
  import opened Wrappers
  import opened Text

  /** One saved word: `{ id, word, category, imageData }`. */
  datatype WordEntry = WordEntry(id: int, word: string, category: string, imageData: string)

  /** The filter value that selects every word. */
  const ALL := "ALL"

  /** The category a new word gets when the category field is left empty. */
  const GENERAL := "GENERAL"

  // ---------------------------------------------------------------------------
  // Filtering (`Array.prototype.filter`)

  /** The entries of `s` that `keep` holds of, each as often as it occurs in `s`, in their order in `s`. */
  function Filter(s: seq<WordEntry>, keep: WordEntry -> bool): (r: seq<WordEntry>)
    ensures |r| <= |s|
    ensures forall e :: e in r <==> e in s && keep(e)
  {
    if s == [] then []
    else
      assert s == [s[0]] + s[1..];
      (if keep(s[0]) then [s[0]] else []) + Filter(s[1..], keep)
  }

  /** Each entry is kept as often as it occurs when `keep` holds of it, and dropped otherwise. */
  lemma {:induction false} FilterCount(s: seq<WordEntry>, keep: WordEntry -> bool, e: WordEntry)
    ensures multiset(Filter(s, keep))[e] == if keep(e) then multiset(s)[e] else 0
  {
    if s != [] {
      assert s == [s[0]] + s[1..];
      FilterCount(s[1..], keep, e);
    }
  }

  /** Filtering a concatenation filters each part, so the kept entries stay in their original order. */
  lemma {:induction false} FilterConcat(a: seq<WordEntry>, b: seq<WordEntry>, keep: WordEntry -> bool)
    ensures Filter(a + b, keep) == Filter(a, keep) + Filter(b, keep)
  {
    if a == [] {
      assert a + b == b;
    } else {
      assert (a + b)[0] == a[0];
      assert (a + b)[1..] == a[1..] + b;
      FilterConcat(a[1..], b, keep);
      var head := if keep(a[0]) then [a[0]] else [];
      assert Filter(a + b, keep) == head + Filter(a[1..] + b, keep);
      assert Filter(a, keep) == head + Filter(a[1..], keep);
    }
  }

  /** When `keep` holds of every entry, filtering returns the sequence itself. */
  lemma {:induction false} FilterKeepsAll(s: seq<WordEntry>, keep: WordEntry -> bool)
    requires forall e :: e in s ==> keep(e)
    ensures Filter(s, keep) == s
  {
    if s != [] {
      FilterKeepsAll(s[1..], keep);
    }
  }

  /** Two tests that agree on every entry filter alike. */
  lemma {:induction false} FilterAgree(s: seq<WordEntry>, k1: WordEntry -> bool, k2: WordEntry -> bool)
    requires forall e :: k1(e) == k2(e)
    ensures Filter(s, k1) == Filter(s, k2)
  {
    if s != [] {
      FilterAgree(s[1..], k1, k2);
    }
  }

  // ---------------------------------------------------------------------------
  // The playable set (script.js `getPlayableWords`)

  /** An entry matches a filter when their categories agree after upper-casing. */
  predicate Matches(e: WordEntry, filter: string)
  {
    Upper(e.category) == Upper(filter)
  }

  /** The words a round may be played with: all of them for `"ALL"`, else those whose category matches. */
  function Playable(words: seq<WordEntry>, filter: string): (r: seq<WordEntry>)
    ensures forall e :: e in r <==> e in words && (filter == ALL || Matches(e, filter))
    ensures multiset(r) <= multiset(words)
  {
    if filter == ALL then words
    else
      var keep := e => Matches(e, filter);
      assert forall e :: multiset(Filter(words, keep))[e] <= multiset(words)[e] by {
        forall e ensures multiset(Filter(words, keep))[e] <= multiset(words)[e] {
          FilterCount(words, keep, e);
        }
      }
      Filter(words, keep)
  }

  /** `"ALL"` plays the whole collection, in its order. */
  lemma PlayableAll(words: seq<WordEntry>)
    ensures Playable(words, ALL) == words
  {
  }

  /** Any other filter plays exactly the matching entries, in their original order. */
  lemma {:induction false} PlayableInOrder(a: seq<WordEntry>, b: seq<WordEntry>, filter: string)
    requires filter != ALL
    ensures Playable(a + b, filter) == Playable(a, filter) + Playable(b, filter)
    ensures Playable([], filter) == []
    ensures forall e :: Playable([e], filter) == if Matches(e, filter) then [e] else []
  {
    FilterConcat(a, b, e => Matches(e, filter));
  }

  /**
   * Filters that differ only in letter case play the same words, provided
   * neither is the literal `"ALL"` (only that exact spelling selects everything;
   * `"all"` selects the entries whose category is `ALL`).
   */
  lemma FilterIgnoresCase(words: seq<WordEntry>, f: string, g: string)
    requires f != ALL && g != ALL
    requires Upper(f) == Upper(g)
    ensures Playable(words, f) == Playable(words, g)
  {
    FilterAgree(words, e => Matches(e, f), e => Matches(e, g));
  }

  /** Appending an entry keeps every word that was playable playable. */
  lemma PlayableGrows(words: seq<WordEntry>, e: WordEntry, filter: string)
    ensures forall x :: x in Playable(words, filter) ==> x in Playable(words + [e], filter)
  {
    if filter != ALL {
      PlayableInOrder(words, [e], filter);
    }
  }

  // ---------------------------------------------------------------------------
  // Deletion (script.js `deleteWord`)

  /** `words.filter(w => w.id !== id)`: every entry with that id is gone, every other one is kept. */
  function RemoveId(words: seq<WordEntry>, id: int): (r: seq<WordEntry>)
    ensures forall e :: e in r <==> e in words && e.id != id
    ensures forall e: WordEntry :: e.id != id ==> multiset(r)[e] == multiset(words)[e]
  {
    var keep := (e: WordEntry) => e.id != id;
    assert forall e: WordEntry :: e.id != id ==> multiset(Filter(words, keep))[e] == multiset(words)[e] by {
      forall e: WordEntry ensures e.id != id ==> multiset(Filter(words, keep))[e] == multiset(words)[e] {
        FilterCount(words, keep, e);
      }
    }
    Filter(words, keep)
  }

  /** Deleting an id nobody has leaves the collection as it was. */
  lemma RemoveAbsentId(words: seq<WordEntry>, id: int)
    requires forall e :: e in words ==> e.id != id
    ensures RemoveId(words, id) == words
  {
    FilterKeepsAll(words, (e: WordEntry) => e.id != id);
  }

  /** Deletion keeps the remaining entries in their order. */
  lemma RemoveIdInOrder(a: seq<WordEntry>, b: seq<WordEntry>, id: int)
    ensures RemoveId(a + b, id) == RemoveId(a, id) + RemoveId(b, id)
  {
    FilterConcat(a, b, (e: WordEntry) => e.id != id);
  }

  // ---------------------------------------------------------------------------
  // Adding (script.js `handleAddWord`)

  /** `(rawWord || "").trim().toUpperCase()`: trimmed, upper-case, and empty exactly for a blank field. */
  function NormalWord(rawWord: string): (r: string)
    ensures IsTrimmed(r) && NoLower(r)
    ensures r == [] <==> AllSpace(rawWord)
  {
    TrimUpper(rawWord);
    Upper(Trim(rawWord))
  }

  lemma GeneralIsNormal()
    ensures Upper(Trim(GENERAL)) == GENERAL
  {
    assert IsTrimmed(GENERAL);
    TrimTrimmed(GENERAL);
    assert NoLower(GENERAL);
    UpperOfNoLower(GENERAL);
  }

  /**
   * `(rawCategory || "GENERAL").trim().toUpperCase()`: trimmed and upper-case;
   * the default applies only to an empty field, so a field of blanks gives `""`.
   */
  function NormalCategory(rawCategory: string): (r: string)
    ensures IsTrimmed(r) && NoLower(r)
    ensures rawCategory == "" ==> r == GENERAL
    ensures rawCategory != "" && AllSpace(rawCategory) ==> r == ""
  {
    var raw := if rawCategory == "" then GENERAL else rawCategory;
    TrimUpper(raw);
    GeneralIsNormal();
    Upper(Trim(raw))
  }

  /** How every added entry looks: a non-empty word, and word and category trimmed and upper-case. */
  predicate IsNormal(e: WordEntry)
  {
    e.word != [] && IsTrimmed(e.word) && NoLower(e.word) && IsTrimmed(e.category) && NoLower(e.category)
  }

  /**
   * The entry an add would create, or `None` when the word is empty after
   * trimming or no image was chosen.
   */
  function NewEntry(rawWord: string, rawCategory: string, image: Option<string>, id: int): (r: Option<WordEntry>)
    ensures r.Some? <==> !AllSpace(rawWord) && image.Some?
    ensures r.Some? ==> IsNormal(r.value) && r.value.id == id && r.value.imageData == image.value
    ensures r.Some? ==> r.value.word == Upper(Trim(rawWord))
    ensures r.Some? ==> r.value.category == Upper(Trim(if rawCategory == "" then GENERAL else rawCategory))
    ensures r.Some? && rawCategory == "" ==> r.value.category == GENERAL
    ensures r.Some? && AllSpace(rawCategory) && rawCategory != "" ==> r.value.category == ""
  {
    var word := NormalWord(rawWord);
    if word == "" || image.None? then None
    else Some(WordEntry(id, word, NormalCategory(rawCategory), image.value))
  }

  /** Re-entering a stored entry (category not empty) gives the same entry back: normalisation is idempotent. */
  lemma NewEntryIdempotent(e: WordEntry)
    requires IsNormal(e) && e.category != ""
    ensures NewEntry(e.word, e.category, Some(e.imageData), e.id) == Some(e)
  {
    TrimTrimmed(e.word);
    TrimTrimmed(e.category);
    UpperOfNoLower(e.word);
    UpperOfNoLower(e.category);
  }

  // ---------------------------------------------------------------------------
  // Category list (script.js `refreshCategoryFilter`)

  predicate NoDup(s: seq<string>)
  {
    forall i, j :: 0 <= i < j < |s| ==> s[i] != s[j]
  }

  predicate Sorted(s: seq<string>)
  {
    forall i, j :: 0 <= i < j < |s| ==> LessEq(s[i], s[j])
  }

  predicate StrictlySorted(s: seq<string>)
  {
    forall i, j :: 0 <= i < j < |s| ==> Less(s[i], s[j])
  }

  /** Some entry of `words` has category `c`. */
  predicate HasCategory(words: seq<WordEntry>, c: string)
  {
    exists e :: e in words && e.category == c
  }

  /** `words.map(w => w.category)` */
  function CategoryColumn(words: seq<WordEntry>): (r: seq<string>)
    ensures |r| == |words|
    ensures forall i :: 0 <= i < |words| ==> r[i] == words[i].category
  {
    if words == [] then [] else [words[0].category] + CategoryColumn(words[1..])
  }

  /** `[...new Set(xs)]`: each value once, at its first occurrence. */
  function Distinct(xs: seq<string>): (r: seq<string>)
    ensures NoDup(r)
    ensures forall x :: x in r <==> x in xs
  {
    if xs == [] then []
    else
      var d := Distinct(xs[..|xs| - 1]);
      var x := xs[|xs| - 1];
      assert xs == xs[..|xs| - 1] + [x];
      if x in d then d else d + [x]
  }

  /** Places `x` before the first element not smaller than it. */
  function Insert(x: string, s: seq<string>): (r: seq<string>)
    requires Sorted(s)
    ensures multiset(r) == multiset(s) + multiset{x}
    ensures Sorted(r)
  {
    if s == [] then [x]
    else if LessEq(x, s[0]) then
      FirstIsLeast(x, s);
      PrependSorted(x, s);
      [x] + s
    else
      LessTotal(x, s[0]);
      var t := Insert(x, s[1..]);
      assert s == [s[0]] + s[1..];
      forall y | y in t ensures LessEq(s[0], y) {
        assert y in multiset(t);
        if y != x {
          assert y in s[1..];
        }
      }
      PrependSorted(s[0], t);
      [s[0]] + t
  }

  /** A value not above the head of a sorted sequence is not above any of its elements. */
  lemma FirstIsLeast(x: string, s: seq<string>)
    requires Sorted(s) && s != [] && LessEq(x, s[0])
    ensures forall y :: y in s ==> LessEq(x, y)
  {
    forall y | y in s ensures LessEq(x, y) {
      var j :| 0 <= j < |s| && s[j] == y;
      if j > 0 && x != s[0] && s[0] != y {
        LessTransitive(x, s[0], y);
      }
    }
  }

  lemma PrependSorted(x: string, s: seq<string>)
    requires Sorted(s) && forall y :: y in s ==> LessEq(x, y)
    ensures Sorted([x] + s)
  {
    var r := [x] + s;
    forall i, j | 0 <= i < j < |r| ensures LessEq(r[i], r[j]) {
      if i == 0 {
        assert r[j] == s[j - 1];
      } else {
        assert r[i] == s[i - 1] && r[j] == s[j - 1];
      }
    }
  }

  /** Inserting a value not yet present into a strictly sorted sequence keeps it strictly sorted. */
  lemma {:induction false} InsertStrict(x: string, s: seq<string>)
    requires StrictlySorted(s) && x !in s
    ensures StrictlySorted(Insert(x, s))
  {
    if s != [] {
      if LessEq(x, s[0]) {
        forall y | y in s ensures Less(x, y) {
          var j :| 0 <= j < |s| && s[j] == y;
          if j > 0 {
            LessTransitive(x, s[0], y);
          }
        }
        PrependStrict(x, s);
      } else {
        LessTotal(x, s[0]);
        var t := Insert(x, s[1..]);
        InsertStrict(x, s[1..]);
        forall y | y in t ensures Less(s[0], y) {
          assert y in multiset(t);
          if y != x {
            var j :| 0 <= j < |s[1..]| && s[1..][j] == y;
            assert s[j + 1] == y;
          }
        }
        PrependStrict(s[0], t);
      }
    }
  }

  lemma PrependStrict(x: string, s: seq<string>)
    requires StrictlySorted(s) && forall y :: y in s ==> Less(x, y)
    ensures StrictlySorted([x] + s)
  {
    var r := [x] + s;
    forall i, j | 0 <= i < j < |r| ensures Less(r[i], r[j]) {
      if i == 0 {
        assert r[j] == s[j - 1];
      } else {
        assert r[i] == s[i - 1] && r[j] == s[j - 1];
      }
    }
  }

  /** The default `sort()` on strings: an ascending rearrangement of its input. */
  function Sort(xs: seq<string>): (r: seq<string>)
    ensures Sorted(r)
    ensures multiset(r) == multiset(xs)
  {
    if xs == [] then []
    else
      assert xs == [xs[0]] + xs[1..];
      Insert(xs[0], Sort(xs[1..]))
  }

  /** Sorting values without repetitions gives a strictly ascending sequence. */
  lemma {:induction false} SortDistinct(xs: seq<string>)
    requires NoDup(xs)
    ensures StrictlySorted(Sort(xs))
  {
    if xs != [] {
      var t := xs[1..];
      assert NoDup(t);
      SortDistinct(t);
      assert xs[0] !in t;
      assert xs[0] !in multiset(Sort(t));
      InsertStrict(xs[0], Sort(t));
    }
  }

  /**
   * `[...new Set(words.map(w => w.category))].sort()`: strictly ascending,
   * so free of duplicates, and holding exactly the categories in use.
   */
  function Categories(words: seq<WordEntry>): (r: seq<string>)
    ensures StrictlySorted(r)
    ensures forall c :: c in r <==> HasCategory(words, c)
  {
    var d := Distinct(CategoryColumn(words));
    SortDistinct(d);
    var r := Sort(d);
    assert forall c :: c in r <==> c in d by {
      forall c ensures c in r <==> c in d {
        assert c in r <==> c in multiset(r);
        assert c in d <==> c in multiset(d);
      }
    }
    assert forall c :: c in CategoryColumn(words) <==> HasCategory(words, c) by {
      forall c ensures c in CategoryColumn(words) <==> HasCategory(words, c) {
        var col := CategoryColumn(words);
        if c in col {
          var i :| 0 <= i < |col| && col[i] == c;
          assert words[i] in words;
        }
        if HasCategory(words, c) {
          var e :| e in words && e.category == c;
          var i :| 0 <= i < |words| && words[i] == e;
          assert col[i] == c;
        }
      }
    }
    r
  }

  lemma HeadIn(s: seq<string>)
    requires s != []
    ensures s[0] in s
  {
  }

  /** A strictly ascending sequence is fixed by the values it holds. */
  lemma {:induction false} StrictlySortedUnique(a: seq<string>, b: seq<string>)
    requires StrictlySorted(a) && StrictlySorted(b)
    requires forall x :: x in a <==> x in b
    ensures a == b
  {
    if a != [] && b != [] {
      if a[0] != b[0] {
        assert b[0] in a && a[0] in b;
        var i :| 0 <= i < |a| && a[i] == b[0];
        var j :| 0 <= j < |b| && b[j] == a[0];
        assert Less(a[0], b[0]) && Less(b[0], a[0]);
        LessAsymmetric(a[0], b[0]);
      }
      forall x ensures x in a[1..] <==> x in b[1..] {
        if x in a[1..] {
          var i :| 1 <= i < |a| && a[i] == x;
          assert x in b;
          var j :| 0 <= j < |b| && b[j] == x;
          if j == 0 {
            assert Less(a[0], a[i]);
            LessIrreflexive(x);
          } else {
            assert b[1..][j - 1] == x;
          }
        }
        if x in b[1..] {
          var j :| 1 <= j < |b| && b[j] == x;
          assert x in a;
          var i :| 0 <= i < |a| && a[i] == x;
          if i == 0 {
            assert Less(b[0], b[j]);
            LessIrreflexive(x);
          } else {
            assert a[1..][i - 1] == x;
          }
        }
      }
      StrictlySortedUnique(a[1..], b[1..]);
    } else if a != [] {
      HeadIn(a);
      assert false;
    } else if b != [] {
      HeadIn(b);
      assert false;
    }
  }

  /** The category list depends only on which categories are in use, not on the order or number of entries. */
  lemma CategoriesBySet(w1: seq<WordEntry>, w2: seq<WordEntry>)
    requires forall c :: HasCategory(w1, c) <==> HasCategory(w2, c)
    ensures Categories(w1) == Categories(w2)
  {
    StrictlySortedUnique(Categories(w1), Categories(w2));
  }

  /**
   * The filter after the list is rebuilt: the previous selection (`"ALL"`
   * when it is empty) when it is still one of the categories, `"ALL"` otherwise.
   */
  function RefreshedFilter(categories: seq<string>, current: string): (r: string)
    ensures r == ALL || r in categories
    ensures current != "" && current in categories ==> r == current
    ensures (current == "" || current !in categories) ==> r == ALL
  {
    var selected := if current == "" then ALL else current;
    if selected in categories then selected else ALL
  }

  /**
   * After a refresh the selection is `"ALL"` or a category some entry has,
   * so a collection that is not empty always has a playable word.
   */
  lemma RefreshedFilterPlayable(words: seq<WordEntry>, current: string)
    requires words != []
    ensures Playable(words, RefreshedFilter(Categories(words), current)) != []
  {
    var f := RefreshedFilter(Categories(words), current);
    if f == ALL {
      assert words[0] in Playable(words, f);
    } else {
      var e :| e in words && e.category == f;
      assert e in Playable(words, f);
    }
  }

  // ---------------------------------------------------------------------------
  // Choosing a word (script.js `pickRandomWord`)

  /**
   * The word chosen from `playable` by a random draw: none when nothing is
   * playable. `Math.floor(Math.random() * playable.length)` stands here as
   * the draw reduced modulo the length, so every index is the pick of some
   * draw — the draw equal to it.
   */
  function Pick(playable: seq<WordEntry>, draw: nat): (r: Option<WordEntry>)
    ensures r.None? <==> playable == []
    ensures r.Some? ==> r.value in playable
    ensures draw < |playable| ==> r == Some(playable[draw])
  {
    if playable == [] then None else Some(playable[draw % |playable|])
  }

  /** What reading the stored value yields: nothing stored, text that does not parse, or the parsed entries. */
  datatype Stored = Absent | Malformed | Parsed(entries: seq<WordEntry>)
}
