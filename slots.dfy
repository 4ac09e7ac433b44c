/**
 * The answer slots of one round: one slot per character of the word, each
 * empty (`""`) or holding the letter pressed into it, filled left to right.
 */
module Slots {

  /** The value of a slot that has not been filled. */
  const EMPTY := ""

  /** `Array.from({ length: n }, () => "")`, and also what `slots.map(() => "")` gives for `n` slots. */
  function EmptySlots(n: nat): (r: seq<string>)
    ensures |r| == n
    ensures forall i :: 0 <= i < n ==> r[i] == EMPTY
  {
    seq(n, _ => EMPTY)
  }

  /** `slots.every(v => v !== "")` */
  predicate AllFilled(slots: seq<string>)
  {
    forall i :: 0 <= i < |slots| ==> slots[i] != EMPTY
  }

  /** `k` is the lowest index of an empty slot. */
  predicate IsFirstEmpty(slots: seq<string>, k: int)
  {
    0 <= k < |slots| && slots[k] == EMPTY && forall i :: 0 <= i < k ==> slots[i] != EMPTY
  }

  /** `slots.findIndex(v => v === "")`: the lowest empty index, or -1 when every slot is filled. */
  function FirstEmpty(slots: seq<string>): (r: int)
    ensures -1 <= r < |slots|
    ensures r == -1 <==> AllFilled(slots)
    ensures r != -1 ==> IsFirstEmpty(slots, r)
  {
    if slots == [] then -1
    else if slots[0] == EMPTY then 0
    else
      var k := FirstEmpty(slots[1..]);
      assert forall i :: 1 <= i < |slots| ==> slots[i] == slots[1..][i - 1];
      if k == -1 then -1 else k + 1
  }

  /** There is only one lowest empty index. */
  lemma FirstEmptyUnique(slots: seq<string>, j: int, k: int)
    requires IsFirstEmpty(slots, j) && IsFirstEmpty(slots, k)
    ensures j == k
  {
  }

  /**
   * One key press: the letter goes into the lowest-index empty slot and
   * every other slot keeps its value; when no slot is empty nothing changes.
   */
  function Press(slots: seq<string>, letter: string): (r: seq<string>)
    ensures |r| == |slots|
    ensures AllFilled(slots) ==> r == slots
    ensures forall k :: IsFirstEmpty(slots, k) ==> r == slots[k := letter]
  {
    var k := FirstEmpty(slots);
    if k == -1 then slots else slots[k := letter]
  }

  /** The slots after pressing `letters` one after the other, the last one last. */
  function PressAll(slots: seq<string>, letters: seq<string>): seq<string>
  {
    if letters == [] then slots
    else Press(PressAll(slots, letters[..|letters| - 1]), letters[|letters| - 1])
  }

  /** No pressed letter is the empty string (every key of the keyboard carries one letter). */
  predicate NoneEmpty(letters: seq<string>)
  {
    forall i :: 0 <= i < |letters| ==> letters[i] != EMPTY
  }

  /** After filled slots, the first of the empty ones receives the letter. */
  lemma PressAfterFilled(done: seq<string>, x: string, m: nat)
    requires AllFilled(done) && m > 0
    ensures Press(done + EmptySlots(m), x) == done + [x] + EmptySlots(m - 1)
  {
    var slots := done + EmptySlots(m);
    assert IsFirstEmpty(slots, |done|) by {
      forall i | 0 <= i < |done| ensures slots[i] != EMPTY {
        assert slots[i] == done[i];
      }
    }
    var a, b := slots[|done| := x], done + [x] + EmptySlots(m - 1);
    assert |a| == |b|;
    forall i | 0 <= i < |a| ensures a[i] == b[i] {
      if i < |done| {
        assert a[i] == slots[i] == done[i] == b[i];
      } else if i > |done| {
        assert a[i] == slots[i] == EMPTY == b[i];
      }
    }
  }

  /**
   * Pressing up to `n` non-empty letters into `n` empty slots writes them,
   * in order, from the left, and leaves the remaining slots empty.
   */
  lemma {:induction false} PressAllFillsInOrder(n: nat, letters: seq<string>)
    requires NoneEmpty(letters) && |letters| <= n
    ensures PressAll(EmptySlots(n), letters) == letters + EmptySlots(n - |letters|)
  {
    if letters == [] {
      assert [] + EmptySlots(n) == EmptySlots(n);
    } else {
      var k := |letters| - 1;
      var init, x := letters[..k], letters[k];
      assert NoneEmpty(init) by {
        forall i | 0 <= i < k ensures init[i] != EMPTY {
          assert init[i] == letters[i];
        }
      }
      PressAllFillsInOrder(n, init);
      PressAfterFilled(init, x, n - k);
      assert init + [x] == letters;
    }
  }

  /** A round of `n` slots: after `n` non-empty letters the slots hold exactly those letters, and all are filled. */
  lemma RoundFills(n: nat, letters: seq<string>)
    requires |letters| == n && NoneEmpty(letters)
    ensures PressAll(EmptySlots(n), letters) == letters
    ensures AllFilled(letters)
  {
    PressAllFillsInOrder(n, letters);
    assert letters + EmptySlots(0) == letters;
  }

  /** Fewer than `n` letters leave the last slot empty, so the guess is not yet judged. */
  lemma RoundNotFull(n: nat, letters: seq<string>)
    requires |letters| < n && NoneEmpty(letters)
    ensures !AllFilled(PressAll(EmptySlots(n), letters))
  {
    PressAllFillsInOrder(n, letters);
    var r := PressAll(EmptySlots(n), letters);
    assert r[n - 1] == EmptySlots(n - |letters|)[n - 1 - |letters|];
  }

  /** `slots.join("")` */
  function Join(slots: seq<string>): string
  {
    if slots == [] then "" else slots[0] + Join(slots[1..])
  }

  /** The one-letter strings a word is spelt with, `word.split("")` for a word of single code units. */
  function Letters(word: string): (r: seq<string>)
    ensures |r| == |word|
    ensures forall i :: 0 <= i < |word| ==> r[i] == [word[i]]
  {
    if word == [] then [] else [[word[0]]] + Letters(word[1..])
  }

  /** Every pressed key is one character long. */
  predicate Singles(letters: seq<string>)
  {
    forall i :: 0 <= i < |letters| ==> |letters[i]| == 1
  }

  lemma {:induction false} JoinSingles(letters: seq<string>)
    requires Singles(letters)
    ensures |Join(letters)| == |letters|
    ensures forall i :: 0 <= i < |letters| ==> Join(letters)[i] == letters[i][0]
  {
    if letters != [] {
      var tail := letters[1..];
      assert Singles(tail) by {
        forall i | 0 <= i < |tail| ensures |tail[i]| == 1 {
          assert tail[i] == letters[i + 1];
        }
      }
      JoinSingles(tail);
      forall i | 0 <= i < |letters| ensures Join(letters)[i] == letters[i][0] {
        if i > 0 {
          assert Join(letters)[i] == Join(tail)[i - 1];
          assert tail[i - 1] == letters[i];
        }
      }
    }
  }

  /**
   * With one-character keys, the joined slots equal the word exactly when
   * the letters pressed are the word's letters in order.
   */
  lemma GuessMatchesIff(letters: seq<string>, word: string)
    requires Singles(letters)
    ensures Join(letters) == word <==> letters == Letters(word)
  {
    JoinSingles(letters);
    var w := Letters(word);
    if Join(letters) == word {
      assert |letters| == |w|;
      forall i | 0 <= i < |letters| ensures letters[i] == w[i] {
        assert |letters[i]| == 1;
        assert letters[i] == [letters[i][0]];
      }
    }
    if letters == w {
      assert |Join(letters)| == |word|;
      forall i | 0 <= i < |word| ensures Join(letters)[i] == word[i] {
        assert letters[i] == [word[i]];
      }
    }
  }

  /** Spelling the word letter by letter fills every slot, and the joined guess is the word. */
  lemma SpellingTheWordSucceeds(word: string)
    ensures AllFilled(PressAll(EmptySlots(|word|), Letters(word)))
    ensures Join(PressAll(EmptySlots(|word|), Letters(word))) == word
  {
    var w := Letters(word);
    assert NoneEmpty(w) && Singles(w) by {
      forall i | 0 <= i < |w| ensures w[i] != EMPTY && |w[i]| == 1 {
        assert w[i] == [word[i]];
      }
    }
    RoundFills(|word|, w);
    GuessMatchesIff(w, word);
  }

  /** The hint shown beside the slots: `word[0] || ""`. */
  function Hint(word: string): (r: string)
    ensures |r| <= 1
    ensures r == [] <==> word == []
    ensures r != [] ==> r[0] == word[0]
  {
    if word == [] then "" else [word[0]]
  }
}
