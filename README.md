# ALPHABET spelling game — a Dafny model of its game and word store

ALPHABET is a browser game for young children. A picture is shown with
one empty answer slot per letter of its word, and the first letter is
shown as a hint. It also has an on-screen A–Z keyboard. Each key press fills the
leftmost empty slot. When the last slot is filled, the guess is judged:
- if it is the word, a new word follows after a short pause;
- if it is not, the slots are cleared after a short pause and the child
  tries the same word again.

A settings panel keeps the word collection, stored in the browser. Each
entry has an `id`, a `word`, a `category` and image data. From the panel
the user can add an entry, delete one, or pick which category the game
draws its words from.

The model follows `script.js`:

- `text.dfy` — module `Text`: the string operations the game depends on.
  These are `trim` (with the ECMAScript whitespace set), `toUpperCase`
  over ASCII letters, and the lexicographic order of the default `sort`.
  Its lemmas cover idempotence and the commuting of trim with upper-case,
  and prove that the order is a strict total order.
- `words.dfy` — module `Words`: the collection as values.
  - The playable subset for a filter.
  - Deletion by id.
  - Normalising and validating a new entry.
  - The sorted distinct category list and how the selection is kept or
    reset when the list is rebuilt.
  - The choice of a word by a random draw.
- `slots.dfy` — module `Slots`: the answer slots of one round.
  - The first empty slot.
  - A key press.
  - A whole sequence of key presses.
  - The joined guess and the hint.
- `game.dfy` — module `Game`: class `Game.Game`. Its fields are the page's
  state variables `words`, `currentWord`, `currentSlots` and
  `categoryFilterValue`, plus the filter's option list and the hint.
  There is one method per handler, each stating its whole new state in
  terms of the functions above. The invariant `Valid()` (the current
  word is playable under the current filter and has one slot per letter)
  holds after every handler that chooses a word, and every other handler
  keeps it.

Nondeterminism and the environment become parameters:
- `Math.random` is a natural-number `draw`.
- `Date.now()` is the `id` argument.
- The image file read by `FileReader` is `image: Option<string>`, where
  `None` means no file was chosen.
- The content of `localStorage` is a `Stored` value: nothing stored,
  unparsable text, or the parsed entries.
- The two `setTimeout` callbacks are the methods `Resolve` (after a
  correct guess) and `Retry` (after a wrong one). A caller invokes them
  when the timer fires.

Details of the code that the model keeps:
- **Rebuilding the category list.** The previous selection is kept while
  it is still a category (`script.js:218`), and becomes `"ALL"` otherwise.
- **Category default.** `"GENERAL"` replaces only an empty field, before
  trimming (`script.js:232`), so a category of blanks is stored as the
  empty string.
- **Case of the filter.** The filter compares categories after
  upper-casing, but only the exact value `"ALL"` selects everything
  (`script.js:81`); `"all"` selects the entries whose category
  upper-cases to `ALL`.
- **Empty selection.** An empty selection is read as `"ALL"` when the
  list is rebuilt (`script.js:203`), even if the empty string is itself
  a category.
- **Ids.** Nothing checks that ids are distinct, so deleting an id
  removes every entry that carries it (`script.js:223`).

## Model

| member | source | states |
|---|---|---|
| Text.Trim | script.js:232-233 | the result is the slice of the input that starts after its leading whitespace, with only whitespace after it; it has no whitespace at either end and is empty exactly when the input is all whitespace |
| Text.TrimTrimmed | script.js:232-233 | trimming a string that has no whitespace at either end returns it unchanged, so trimming is idempotent |
| Text.Upper | script.js:232-233 | upper-casing keeps the length, maps every character through the ASCII upper-case map and leaves no lower-case letter |
| Text.UpperOfNoLower | script.js:232-233 | a string without lower-case letters is its own upper-case, so upper-casing is idempotent |
| Text.TrimUpper | script.js:232-233 | trimming then upper-casing equals upper-casing then trimming |
| Text.LessIrreflexive | script.js:202 | no string sorts before itself |
| Text.LessAsymmetric | script.js:202 | two strings are never each before the other |
| Text.LessTransitive | script.js:202 | the sort order is transitive |
| Text.LessTotal | script.js:202 | of two different strings one sorts before the other |
| Words.Filter | script.js:82-84 | the kept entries are exactly the entries of the input the predicate accepts, and there are no more of them than in the input |
| Words.Playable | script.js:80-85 | an entry is playable exactly when it is in the collection and the filter is `"ALL"` or its category matches the filter after upper-casing; no entry occurs more often than in the collection |
| Words.PlayableAll | script.js:81 | the filter `"ALL"` plays the whole collection in its own order |
| Words.PlayableInOrder | script.js:82-84 | any other filter keeps the matching entries in their original order: it distributes over concatenation and keeps a single entry exactly when it matches |
| Words.FilterIgnoresCase | script.js:83 | two filters other than `"ALL"` that agree after upper-casing play the same words |
| Words.PlayableGrows | script.js:252 | appending an entry keeps every playable word playable |
| Words.RemoveId | script.js:223 | after deletion an entry remains exactly when it was there and has another id, with the same multiplicity |
| Words.RemoveAbsentId | script.js:223 | deleting an id no entry has leaves the collection unchanged, so deleting twice is deleting once |
| Words.RemoveIdInOrder | script.js:223 | deletion keeps the other entries in their order: it distributes over concatenation |
| Words.NormalWord | script.js:233 | the stored word has no whitespace at its ends and no lower-case letter, and is empty exactly when the input is all whitespace |
| Words.NormalCategory | script.js:232 | the stored category is trimmed and upper-case; an empty input gives `GENERAL` and an input of blanks gives the empty string |
| Words.NewEntry | script.js:231-252 | an entry is made exactly when the word is not all whitespace and an image was chosen; its word is the typed word trimmed and upper-cased, its category the typed category (or `GENERAL` for an empty field) trimmed and upper-cased, and it carries the given id and image data |
| Words.NewEntryIdempotent | script.js:232-233 | re-adding the fields of a normalised entry with a non-empty category gives the same entry back |
| Words.CategoryColumn | script.js:202 | the column has one category per entry, the i-th entry's category at position i |
| Words.Distinct | script.js:202 | the result has no duplicates and holds the same strings as the input |
| Words.Insert | script.js:202 | inserting into a sorted list gives a sorted list with exactly one more occurrence of the new string |
| Words.Sort | script.js:202 | the result is sorted and a permutation of the input |
| Words.SortDistinct | script.js:202 | sorting a list without duplicates gives a strictly ascending list |
| Words.Categories | script.js:202 | the category list is strictly ascending and holds exactly the categories some entry has |
| Words.StrictlySortedUnique | script.js:202 | two strictly ascending lists with the same elements are equal, so the category list is determined by the set of categories |
| Words.CategoriesBySet | script.js:202 | collections with the same categories have the same category list |
| Words.RefreshedFilter | script.js:201-219 | the new selection is `"ALL"` or a category; the previous non-empty selection is kept when it is a category, and otherwise the selection becomes `"ALL"` |
| Words.RefreshedFilterPlayable | script.js:201-219 | after a rebuild of the category list, a non-empty collection always has a playable word |
| Words.Pick | script.js:87-96 | nothing is picked exactly when nothing is playable; a pick is playable, and each index is picked by some draw |
| Slots.EmptySlots | script.js:113 | `n` slots, every one of them empty |
| Slots.AllFilled | script.js:145 | holds exactly when no slot is the empty string |
| Slots.FirstEmpty | script.js:138 | the result is -1 exactly when every slot is filled, and otherwise the lowest index of an empty slot |
| Slots.FirstEmptyUnique | script.js:138 | the lowest empty index is unique |
| Slots.Press | script.js:138-141 | a press keeps the number of slots, puts the letter in the lowest empty slot and changes no other, and changes nothing when every slot is filled |
| Slots.PressAfterFilled | script.js:138-141 | after a run of filled slots, a press fills the first of the empty slots that follow |
| Slots.PressAllFillsInOrder | script.js:138-141 | pressing up to `n` non-empty letters into `n` empty slots writes them from the left in order and leaves the rest empty |
| Slots.RoundFills | script.js:145 | after as many letters as slots, the slots hold exactly those letters and all are filled |
| Slots.RoundNotFull | script.js:145 | after fewer letters than slots, not every slot is filled, so no guess is judged |
| Slots.Join | script.js:146 | the concatenation of the slots' contents, from the left |
| Slots.GuessMatchesIff | script.js:146-147 | with one-character keys, the joined slots equal the word exactly when the letters pressed are the word's letters in order |
| Slots.SpellingTheWordSucceeds | script.js:145-147 | spelling the word letter by letter fills every slot, and the guess is the word |
| Slots.Hint | script.js:124 | the hint is empty exactly for an empty word, and otherwise is the word's first character alone |
| Game.Game.constructor | script.js:291-296 | the initial state, then the stored collection loaded, the category list built, and a first word chosen and shown; the invariant holds |
| Game.Game.LoadWordsFromStorage | script.js:48-56 | the collection is the parsed stored entries, or empty when nothing is stored or the text does not parse; nothing else changes |
| Game.Game.RefreshCategoryFilter | script.js:201-220 | the option list is the category list; the selection is the rebuilt filter, always the previous selection or `"ALL"` |
| Game.Game.PickRandomWord | script.js:87-96 | the current word is the pick from the playable words, and none exactly when nothing is playable |
| Game.Game.SetupWordDisplay | script.js:98-126 | with a word: one empty slot per character and the first character as hint; without one: no hint and the slots untouched |
| Game.Game.HandleLetterClick | script.js:128-165 | the outcome is one of five exact cases. No word: nothing changes. All slots full: the press is ignored. Otherwise the slots become the press result and the guess is judged once they are full. The invariant is kept |
| Game.Game.Resolve | script.js:151-154 | after a correct guess a new word is chosen and set up, and the invariant holds |
| Game.Game.Retry | script.js:158-162 | after a wrong guess every slot is emptied and the word and hint stay |
| Game.Game.SelectCategory | script.js:279-283 | the chosen filter is selected and a word of it is chosen and set up |
| Game.Game.DeleteWord | script.js:222-229 | the entries with the id are removed, the category list is rebuilt and a word is chosen afresh. The new word never has the deleted id, and none is chosen exactly when the collection became empty |
| Game.Game.AddWord | script.js:231-265 | a rejected input changes nothing. An accepted entry is appended and the category list rebuilt. A game without a word then always gets one; a game with a word keeps its word and slots. The invariant is kept |

## Left out

- Speech synthesis (`speakText`, `speakLetter`), the keyboard's buttons and all DOM updates: output only. The outcome of a key press stands for the message text.
- `createKeyboard`, `refreshWordList`, `openSettings` and `closeSettingsModal`: they only build or show page elements. The keyboard's 26 letters correspond to the non-empty one-character keys the slot lemmas assume.
- `saveWordsToStorage` and JSON encoding: local persistence is output. Loading reduces JSON parsing to its three outcomes, and the entries parsed are not checked for shape.
- The delays of the two timers: `Resolve` and `Retry` are the callbacks, and callers decide when they run. Handlers that run before a timer fires are modelled by calling methods in that order.
- The asynchronous `FileReader` completion: `AddWord` joins the click handler and the reader's `onload` into one step. An add started while another reader is pending is not modelled, and clearing the input fields is not modelled.
- Remote synchronisation of the collection: not in `script.js`.
- Text.Upper: does not model the non-ASCII part of `toUpperCase` (accented letters, `ß` becoming `SS`); only `a`–`z` are mapped.
- Strings are sequences of Unicode code points, while JavaScript counts UTF-16 code units. For a word with characters above U+FFFF (an emoji, say), the page shows one slot per code unit (`word.length`, `script.js:113`), and its hint `word[0]` (`script.js:124`) can be half of a surrogate pair. The model has one slot per character and a hint that is the whole first character. The two agree on every word whose characters are all at most U+FFFF.
- Text.Less: compares Unicode code points, while JavaScript's `sort` compares UTF-16 code units. The two orders agree except between characters above U+FFFF and those from U+E000 to U+FFFF.
- Words.Pick: `Math.floor(Math.random() * n)` is replaced by a natural-number draw reduced modulo `n`. The model shows that every index can be drawn; it does not model uniform probability.
