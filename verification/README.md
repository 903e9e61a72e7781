# Simple Dictionary: the word/definition store

A model of the logic inside `SimpleDictionaryApp` (`main.py`): an in-memory
mapping from words to definitions that the Tkinter window lists, searches,
edits, deletes from, merges JSON files into and loads from `dictionary.json`.
The window plumbing is dropped; each callback's effect on `self.data` becomes
a pure function over an immutable `map<string, string>`, and each user answer
to a prompt becomes a boolean input.

Modules:

- `Text` (`text.dfy`): Python's `str.strip()` (exact, with the code points
  `str.isspace` accepts), `str.lower()` (ASCII letters only), the substring
  test `a in b`, and the code-point lexicographic order of `<=` on strings.
- `Dictionary` (`dictionary.dfy`): the store `Store = map<string, string>`
  with `Get` (`show_word`), `SaveEntry` (`save_current`), `Delete`
  (`delete_selected`), `Import` (`import_json`) and `LoadData` (`load_data`),
  plus the shape every stored entry is meant to have (`WellFormed`).
- `WordList` (`wordlist.dfy`): `refresh_word_list` and `on_search` as
  methods built on an insertion sort keyed by `Lower` and a filter.

The code and the intended design differ in two places. First, `import_json`
copies keys and values verbatim, so a blank or untrimmed word can enter the
store even though saving never produces one (`ImportMayAddBlankWord`); the
model follows the code. Second, `load_data` does not check that the file holds
a JSON object (see Findings). Both loads are modelled: `LoadDataAsWritten` is
the code as written, and `LoadData` is the corrected start-up load. The other
operations take any store.

## Model

| member | source | states |
|---|---|---|
| Text.Trim | main.py:150 | with `IsSpace` the exact `str.isspace` code-point set, `strip()` returns an infix of its input with only whitespace around it, and the result neither starts nor ends with whitespace |
| Text.TrimEmptyIffAllSpace | main.py:150-153 | a field trims to the empty string exactly when it consists of whitespace only |
| Text.TrimIdempotent | main.py:150 | stripping an already stripped string changes nothing |
| Text.Lower | main.py:117-119 | `str.lower()` restricted to ASCII (`LowerChar`): the result has the input's length and each character is the input's character with `A`-`Z` mapped to `a`-`z` |
| Text.LowerIdempotent | main.py:117-119 | lowering twice is lowering once, so the `Lower` forms are case-free |
| Text.ContainsHasWitness | main.py:119 | when `needle in hay` (`Text.Contains`) holds there is a position where `needle` occurs in `hay` |
| Text.ContainsFromWitness | main.py:119 | any occurrence of `needle` in `hay` makes `needle in hay` true |
| Text.LexLeTotal | main.py:117 | any two strings are comparable under Python's string order `<=` (`Text.LexLe`: lexicographic by code point, a prefix first) |
| Text.LexLeTransitive | main.py:117 | Python's string order is transitive |
| Text.LexLeAntisymmetric | main.py:117 | two strings each no greater than the other are equal |
| Dictionary.Get | main.py:138 | the stored definition of a word, or the empty text when it is not stored |
| Dictionary.SaveEntry | main.py:149-158 | a blank word is refused; a blank definition without confirmation is refused; refusals leave the store unchanged; otherwise the trimmed word maps to the trimmed definition, it is the only key that may be added and every other entry is unchanged |
| Dictionary.SaveThenGet | main.py:149-158 | after a successful save, looking up the trimmed word returns the trimmed definition |
| Dictionary.SavePreservesWellFormed | main.py:150-158 | saving never introduces a blank or untrimmed word or an untrimmed definition |
| Dictionary.Delete | main.py:178 | `pop(word, None)` removes exactly that key when present and leaves every other entry as it was |
| Dictionary.DeleteIdempotent | main.py:178 | deleting twice equals deleting once; deleting an absent word is a no-op |
| Dictionary.DeleteThenGet | main.py:178 | after a delete the word looks up as the empty text |
| Dictionary.DeletePreservesWellFormed | main.py:178 | deleting keeps a well-formed store well formed |
| Dictionary.Import | main.py:187-198 | an unreadable or non-object file changes nothing and is reported; an object is merged so keys are the union, imported values win on shared words, other entries are unchanged, and the count reported is the number of imported entries |
| Dictionary.ImportIdempotent | main.py:193 | importing the same file twice gives the store one import gives |
| Dictionary.ImportReportsEntriesNotNewWords | main.py:193-195 | merging {"a": "x", "b": "y"} into {"a": "old"} gives {"a": "x", "b": "y"} and reports 2 although one word is new |
| Dictionary.ImportMayAddBlankWord | main.py:190-193 | import does not keep the store well formed: an imported empty key is stored |
| Dictionary.ImportPreservesWellFormed | main.py:193 | importing well-formed entries into a well-formed store keeps it well formed |
| Dictionary.LoadDataAsWritten | main.py:97-106 | a missing or unreadable file gives an empty dict, a parsed object is adopted, and a parsed non-object is adopted too, as a non-dict |
| Dictionary.LoadAsWrittenKeepsNonObject | main.py:98-101 | a data file whose top level is not an object leaves `self.data` not a dict |
| Dictionary.LoadData | main.py:97-106 | the store at start-up is the file's object, or empty when the file is missing, unreadable or not an object |
| Dictionary.LoadDataAgreesWhereDefined | main.py:97-106 | the corrected load gives the same store as the code whenever the code yields a dict |
| Dictionary.LoadFallbackIsEmpty | main.py:98-106 | starting without a usable file, every word looks up as the empty text |
| WordList.KeyLeTotal | main.py:117 | any two words are comparable by their lower-case forms |
| WordList.KeyLeTransitive | main.py:117 | comparison by lower-case form is transitive |
| WordList.Insert | main.py:117 | inserting a word into a list sorted by lower-case form gives a sorted list whose multiset of words is the old one plus the new word, without duplicates when the word was new |
| WordList.SortedKeys | main.py:117 | the keys sorted by lower-case form: sorted, no duplicates, as long as the store, and holding exactly the store's words |
| WordList.ListingUnique | main.py:117 | when no two words of the store differ only by case, any two sorted listings of the store are identical |
| WordList.FilterWords | main.py:118-119 | keeps exactly the words whose lower-case form contains the lower-case search text, as a subsequence, so sortedness and distinctness carry over |
| WordList.MatchesIff | main.py:119 | the search test `filter_text.lower() in w.lower()` (`WordList.Matches`) holds exactly when the lower-cased search text occurs at some position of the lower-cased word |
| WordList.FilterCounts | main.py:119 | the filter keeps every occurrence of a matching word and drops every occurrence of the others |
| WordList.FilterEmptyKeepsAll | main.py:118 | the empty search text keeps every word, so the `if filter_text:` guard is only a shortcut |
| WordList.FilterIgnoresCase | main.py:119 | filtering by a search text and by its lower-case form give the same list |
| WordList.ListWords | main.py:116-122 | the listed words are sorted and distinct, are exactly the matching words of the store (all of them for an empty filter), and are the matching part of some full sorted listing, in its order |
| WordList.Search | main.py:124-126 | the search text is stripped before filtering, and a blank search lists every word |

## Findings

| source | as written | input that shows it | evidently intended | confidence | as-written member | corrected member |
|---|---|---|---|---|---|---|
| main.py:97-106 | `load_data` assigns whatever `json.load` returns to `self.data` without the `isinstance(..., dict)` check `import_json` makes at main.py:190 | a `dictionary.json` containing `[1, 2, 3]`: `self.data` becomes a list, and the `self.data.keys()` call in `refresh_word_list` (main.py:117) during start-up fails | a top-level value that is not an object is treated like an unreadable file: warn and start empty | high (not executed) | Dictionary.LoadDataAsWritten, Dictionary.LoadAsWrittenKeepsNonObject | Dictionary.LoadData, Dictionary.LoadDataAgreesWhereDefined |

## Left out

- The Tkinter window: widgets, layout, key bindings, listbox selection, focus handling, the message boxes and the file dialogs, including cancelling the import or export dialog, which returns before anything changes (main.py:27-95, 128-147, 162-176, 184-186, 201-203). A prompt's answer is an input (`confirmEmpty`); the delete confirmation is not modelled because declining it leaves the store untouched.
- Reading and writing JSON (`json.load`, `json.dump`, main.py:100-101, 108-114, 188-189, 200-209): file contents enter as abstract parse results (`DataFile`, `ImportSource`); no save/load round trip is stated. `save_data` and `export_json` do not change the store.
- The automatic save after each change (main.py:160, 181, 196) and the list refresh after it: side effects only.
- JSON objects whose values are not strings, in the imported file or in the data file: `import_json` (main.py:189-193) and `load_data` (main.py:101) both adopt them without checking, but the model's `ImportSource` and `DataFile` carry string definitions only; no value check is added.
- Duplicate keys inside one JSON object (resolved by `json.load` before the store sees them).
- Text.Lower: maps only the ASCII letters `A`-`Z`; Python's full Unicode lower-casing (including mappings that change a string's length) is not modelled.
- WordList.SortedKeys: does not state the order among words whose lower-case forms are equal; Python's stable sort keeps dictionary insertion order there, which an immutable map does not have.
- `dictionary.py`: a hard-coded sample list that `main.py` never imports.
