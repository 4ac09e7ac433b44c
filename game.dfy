/**
 * The game's state and the handlers that change it: loading the collection,
 * rebuilding the category filter, choosing a word, preparing its slots,
 * pressing letters, the two delayed follow-ups of a full guess, and the
 * settings actions that add and delete words.
 */
module Game {
  import opened Wrappers
  import opened Words
  import opened Slots

  /** What a key press led to; each stands for the message the page shows. */
  datatype Outcome =
    | NoWord       // "Add some words in settings first."
    | AlreadyFull  // every slot was filled: the press is ignored
    | Placed       // the letter went into a slot, some slots are still empty
    | Correct      // the last slot was filled and the guess is the word
    | Wrong        // the last slot was filled and the guess is not the word

  class Game {
    /** The saved collection, `{ id, word, category, imageData }` entries in insertion order. */
    var words: seq<WordEntry>
    /** The word being spelt, `null` in the page when nothing is playable. */
    var currentWord: Option<WordEntry>
    /** One answer slot per character of the current word. */
    var currentSlots: seq<string>
    /** The selected category, `"ALL"` for every word. */
    var categoryFilterValue: string
    /** The categories the filter offers besides `"ALL"`. */
    var categoryOptions: seq<string>
    /** The hint shown beside the slots. */
    var hint: string

    /**
     * A current word is one of the words its filter makes playable, and there
     * is one slot for each of its characters.
     */
    ghost predicate Valid()
      reads this
    {
      currentWord.Some? ==>
        currentWord.value in Playable(words, categoryFilterValue)
        && |currentSlots| == |currentWord.value.word|
    }

    /**
     * The page being loaded: the variables take their initial values, then
     * the stored collection is read, the filter is built, and a first word is
     * chosen (by `draw`) and shown.
     */
    constructor(stored: Stored, draw: nat)
      ensures Valid()
      ensures words == (if stored.Parsed? then stored.entries else [])
      ensures categoryOptions == Categories(words)
      ensures categoryFilterValue == RefreshedFilter(categoryOptions, ALL)
      ensures currentWord == Pick(Playable(words, categoryFilterValue), draw)
      ensures currentWord.Some? ==> currentSlots == EmptySlots(|currentWord.value.word|)
      ensures currentWord.None? ==> currentSlots == []
      ensures hint == if currentWord.Some? then Hint(currentWord.value.word) else ""
    {
      words := [];
      currentWord := None;
      currentSlots := [];
      categoryFilterValue := ALL;
      categoryOptions := [];
      hint := "";
      new;
      LoadWordsFromStorage(stored);
      RefreshCategoryFilter();
      var _ := PickRandomWord(draw);
      SetupWordDisplay();
    }

    /** The stored entries, or an empty collection when nothing is stored or the stored text does not parse. */
    method LoadWordsFromStorage(stored: Stored)
      modifies this
      ensures stored.Parsed? ==> words == stored.entries
      ensures !stored.Parsed? ==> words == []
      ensures currentWord == old(currentWord) && currentSlots == old(currentSlots)
      ensures categoryFilterValue == old(categoryFilterValue) && categoryOptions == old(categoryOptions)
      ensures hint == old(hint)
      ensures currentWord.None? ==> Valid()
    {
      match stored
      case Parsed(entries) =>
        words := entries;
      case _ =>
        words := [];
    }

    /**
     * The filter offers the distinct categories, sorted; the selection is
     * kept when it is still one of them and becomes `"ALL"` otherwise.
     */
    method RefreshCategoryFilter()
      modifies this
      ensures categoryOptions == Categories(words)
      ensures categoryFilterValue == RefreshedFilter(categoryOptions, old(categoryFilterValue))
      ensures categoryFilterValue == old(categoryFilterValue) || categoryFilterValue == ALL
      ensures words == old(words) && currentWord == old(currentWord)
      ensures currentSlots == old(currentSlots) && hint == old(hint)
      ensures old(Valid()) ==> Valid()
    {
      categoryOptions := Categories(words);
      categoryFilterValue := RefreshedFilter(categoryOptions, categoryFilterValue);
    }

    /** A word of the selected category becomes current, or none when the category has no words. */
    method PickRandomWord(draw: nat) returns (picked: Option<WordEntry>)
      modifies this
      ensures picked == currentWord == Pick(Playable(words, categoryFilterValue), draw)
      ensures picked.Some? ==> picked.value in words
      ensures picked.None? <==> Playable(words, categoryFilterValue) == []
      ensures words == old(words) && currentSlots == old(currentSlots) && hint == old(hint)
      ensures categoryFilterValue == old(categoryFilterValue) && categoryOptions == old(categoryOptions)
    {
      currentWord := Pick(Playable(words, categoryFilterValue), draw);
      picked := currentWord;
    }

    /**
     * With a current word: one empty slot per character and the first
     * character as the hint. Without one: no hint, and the slots are left as
     * they were.
     */
    method SetupWordDisplay()
      modifies this
      ensures currentWord.Some? ==> currentSlots == EmptySlots(|currentWord.value.word|)
      ensures currentWord.Some? ==> hint == Hint(currentWord.value.word)
      ensures currentWord.None? ==> currentSlots == old(currentSlots) && hint == ""
      ensures words == old(words) && currentWord == old(currentWord)
      ensures categoryFilterValue == old(categoryFilterValue) && categoryOptions == old(categoryOptions)
      ensures old(currentWord.Some? ==> currentWord.value in Playable(words, categoryFilterValue)) ==> Valid()
    {
      match currentWord
      case None =>
        hint := "";
      case Some(entry) =>
        currentSlots := EmptySlots(|entry.word|);
        hint := Hint(entry.word);
    }

    /**
     * A key press: without a word nothing happens; with every slot filled
     * nothing happens; otherwise the letter fills the first empty slot, and
     * once the last slot is filled the joined slots are compared with the word.
     */
    method HandleLetterClick(letter: string) returns (outcome: Outcome)
      modifies this
      ensures outcome == NoWord <==> currentWord.None?
      ensures outcome == AlreadyFull <==> currentWord.Some? && AllFilled(old(currentSlots))
      ensures currentWord.Some? ==> currentSlots == Press(old(currentSlots), letter)
      ensures currentWord.None? ==> currentSlots == old(currentSlots)
      ensures outcome == Placed <==>
        currentWord.Some? && !AllFilled(old(currentSlots)) && !AllFilled(currentSlots)
      ensures outcome == Correct <==>
        currentWord.Some? && !AllFilled(old(currentSlots)) && AllFilled(currentSlots)
        && Join(currentSlots) == currentWord.value.word
      ensures outcome == Wrong <==>
        currentWord.Some? && !AllFilled(old(currentSlots)) && AllFilled(currentSlots)
        && Join(currentSlots) != currentWord.value.word
      ensures words == old(words) && currentWord == old(currentWord) && hint == old(hint)
      ensures categoryFilterValue == old(categoryFilterValue) && categoryOptions == old(categoryOptions)
      ensures old(Valid()) ==> Valid()
    {
      if currentWord.None? {
        return NoWord;
      }
      var emptyIndex := FirstEmpty(currentSlots);
      if emptyIndex == -1 {
        return AlreadyFull;
      }
      currentSlots := currentSlots[emptyIndex := letter];
      if AllFilled(currentSlots) {
        if Join(currentSlots) == currentWord.value.word {
          outcome := Correct;
        } else {
          outcome := Wrong;
        }
      } else {
        outcome := Placed;
      }
    }

    /** What happens a moment after a correct guess: another word is chosen and shown. */
    method Resolve(draw: nat)
      modifies this
      ensures currentWord == Pick(Playable(words, categoryFilterValue), draw)
      ensures currentWord.Some? ==> currentSlots == EmptySlots(|currentWord.value.word|)
      ensures currentWord.Some? ==> hint == Hint(currentWord.value.word)
      ensures currentWord.None? ==> currentSlots == old(currentSlots) && hint == ""
      ensures words == old(words)
      ensures categoryFilterValue == old(categoryFilterValue) && categoryOptions == old(categoryOptions)
      ensures Valid()
    {
      var _ := PickRandomWord(draw);
      SetupWordDisplay();
    }

    /** What happens a moment after a wrong guess: every slot is emptied, the word and the hint stay. */
    method Retry()
      modifies this
      ensures currentSlots == EmptySlots(|old(currentSlots)|)
      ensures words == old(words) && currentWord == old(currentWord) && hint == old(hint)
      ensures categoryFilterValue == old(categoryFilterValue) && categoryOptions == old(categoryOptions)
      ensures old(Valid()) ==> Valid()
    {
      currentSlots := EmptySlots(|currentSlots|);
    }

    /** The filter's change listener: the chosen category is selected and a word of it is shown. */
    method SelectCategory(value: string, draw: nat)
      modifies this
      ensures categoryFilterValue == value
      ensures currentWord == Pick(Playable(words, value), draw)
      ensures currentWord.Some? ==> currentSlots == EmptySlots(|currentWord.value.word|)
      ensures currentWord.Some? ==> hint == Hint(currentWord.value.word)
      ensures currentWord.None? ==> currentSlots == old(currentSlots) && hint == ""
      ensures words == old(words) && categoryOptions == old(categoryOptions)
      ensures Valid()
    {
      categoryFilterValue := value;
      Resolve(draw);
    }

    /**
     * Every entry with the id is removed, the filter is rebuilt, and a word
     * is chosen afresh (by `draw`) from what is left.
     */
    method DeleteWord(id: int, draw: nat)
      modifies this
      ensures words == RemoveId(old(words), id)
      ensures categoryOptions == Categories(words)
      ensures categoryFilterValue == RefreshedFilter(categoryOptions, old(categoryFilterValue))
      ensures currentWord == Pick(Playable(words, categoryFilterValue), draw)
      ensures currentWord.Some? ==> currentWord.value.id != id
      ensures currentWord.None? <==> words == []
      ensures currentWord.Some? ==> currentSlots == EmptySlots(|currentWord.value.word|)
      ensures currentWord.Some? ==> hint == Hint(currentWord.value.word)
      ensures currentWord.None? ==> currentSlots == old(currentSlots) && hint == ""
      ensures Valid()
    {
      words := RemoveId(words, id);
      RefreshCategoryFilter();
      if words != [] {
        RefreshedFilterPlayable(words, old(categoryFilterValue));
      }
      Resolve(draw);
    }

    /**
     * The settings' add button together with the image reader's completion:
     * a non-blank word with an image is appended in normal form, the filter
     * is rebuilt, and when no word was current one is chosen (by `draw`) and
     * shown. A blank word or a missing image changes nothing.
     */
    method AddWord(rawCategory: string, rawWord: string, image: Option<string>, id: int, draw: nat)
      returns (added: Option<WordEntry>)
      modifies this
      ensures added == NewEntry(rawWord, rawCategory, image, id)
      ensures added.None? ==> words == old(words) && currentWord == old(currentWord)
      ensures added.None? ==> currentSlots == old(currentSlots) && hint == old(hint)
      ensures added.None? ==> categoryFilterValue == old(categoryFilterValue) && categoryOptions == old(categoryOptions)
      ensures added.Some? ==> words == old(words) + [added.value]
      ensures added.Some? ==> categoryOptions == Categories(words)
      ensures added.Some? ==> categoryFilterValue == RefreshedFilter(categoryOptions, old(categoryFilterValue))
      ensures added.Some? && old(currentWord).Some? ==>
        currentWord == old(currentWord) && currentSlots == old(currentSlots) && hint == old(hint)
      ensures added.Some? && old(currentWord).None? ==>
        currentWord == Pick(Playable(words, categoryFilterValue), draw)
        && currentWord.Some?
        && currentSlots == EmptySlots(|currentWord.value.word|)
        && hint == Hint(currentWord.value.word)
      ensures old(Valid()) ==> Valid()
    {
      added := NewEntry(rawWord, rawCategory, image, id);
      if added.None? {
        return;
      }
      ghost var before := words;
      words := words + [added.value];
      PlayableGrows(before, added.value, categoryFilterValue);
      PlayableAll(words);
      RefreshCategoryFilter();
      if currentWord.None? {
        RefreshedFilterPlayable(words, old(categoryFilterValue));
        var _ := PickRandomWord(draw);
        SetupWordDisplay();
      }
    }
  }
}
