/**
 The word -> definition store behind the dictionary window: reading an entry,
 saving an edited entry, deleting one, merging an imported JSON object, and
 loading the store's data file at start-up. Every operation is a pure
 function from the current store (and the user's inputs) to the new store.
 */
module Dictionary {
  import opened Text

  /** The in-memory data: word -> definition, as `json.load` returns it. */
  type Store = map<string, string>

  /** `data.get(word, "")`: the definition shown for a selected word, or the
      empty text when the word is not stored. */
  function Get(data: Store, word: string): (r: string)
    ensures word in data ==> r == data[word]
    ensures word !in data ==> r == []
  {
    if word in data then data[word] else []
  }

  /** The store's intended shape: every key is a non-empty trimmed word and
      every definition is trimmed. */
  predicate WellFormed(data: Store) {
    forall k :: k in data ==> k != [] && Trim(k) == k && Trim(data[k]) == data[k]
  }

  // ---------------------------------------------------------------- save

  datatype SaveStatus = Stored | EmptyWord | EmptyDefinitionDeclined

  datatype SaveResult = SaveResult(data: Store, status: SaveStatus)

  /** The "Save / Update" button. Both fields are trimmed; a blank word is
      refused; a blank definition is stored only when the user answers yes
      to the confirmation prompt (`confirmEmpty`); otherwise the trimmed word
      is inserted or overwritten. */
  function SaveEntry(data: Store, wordText: string, definitionText: string, confirmEmpty: bool): (r: SaveResult)
    ensures r.status == EmptyWord <==> AllSpace(wordText)
    ensures r.status == EmptyDefinitionDeclined <==>
              !AllSpace(wordText) && AllSpace(definitionText) && !confirmEmpty
    ensures r.status != Stored ==> r.data == data
    ensures r.status == Stored ==>
              && Trim(wordText) != []
              && r.data.Keys == data.Keys + {Trim(wordText)}
              && r.data[Trim(wordText)] == Trim(definitionText)
              && forall k :: k in data && k != Trim(wordText) ==> r.data[k] == data[k]
  {
    TrimEmptyIffAllSpace(wordText);
    TrimEmptyIffAllSpace(definitionText);
    var word := Trim(wordText);
    if word == [] then
      SaveResult(data, EmptyWord)
    else
      var definition := Trim(definitionText);
      if definition == [] && !confirmEmpty then
        SaveResult(data, EmptyDefinitionDeclined)
      else
        SaveResult(data[word := definition], Stored)
  }

  /** After a successful save, looking the trimmed word up yields the
      trimmed definition. */
  lemma SaveThenGet(data: Store, wordText: string, definitionText: string, confirmEmpty: bool)
    requires !AllSpace(wordText)
    requires !AllSpace(definitionText) || confirmEmpty
    ensures Get(SaveEntry(data, wordText, definitionText, confirmEmpty).data, Trim(wordText)) == Trim(definitionText)
  {
  }

  /** Saving keeps the store well formed: it only ever adds a non-empty
      trimmed word with a trimmed definition. */
  lemma SavePreservesWellFormed(data: Store, wordText: string, definitionText: string, confirmEmpty: bool)
    requires WellFormed(data)
    ensures WellFormed(SaveEntry(data, wordText, definitionText, confirmEmpty).data)
  {
    var r := SaveEntry(data, wordText, definitionText, confirmEmpty);
    if r.status == Stored {
      var word := Trim(wordText);
      TrimIdempotent(wordText);
      TrimIdempotent(definitionText);
      forall k | k in r.data
        ensures k != [] && Trim(k) == k && Trim(r.data[k]) == r.data[k]
      {
        if k != word {
          assert k in data;
        }
      }
    }
  }

  // -------------------------------------------------------------- delete

  /** `data.pop(word, None)`: the entry for `word` is removed if there is
      one; an absent word is not an error. */
  function Delete(data: Store, word: string): (r: Store)
    ensures r.Keys == data.Keys - {word}
    ensures forall k :: k in r ==> r[k] == data[k]
  {
    data - {word}
  }

  /** Deleting twice is the same as deleting once; deleting an absent word
      changes nothing. */
  lemma DeleteIdempotent(data: Store, word: string)
    ensures Delete(Delete(data, word), word) == Delete(data, word)
    ensures word !in data ==> Delete(data, word) == data
  {
  }

  /** After a delete the word is no longer found. */
  lemma DeleteThenGet(data: Store, word: string)
    ensures Get(Delete(data, word), word) == []
  {
  }

  lemma DeletePreservesWellFormed(data: Store, word: string)
    requires WellFormed(data)
    ensures WellFormed(Delete(data, word))
  {
  }

  // -------------------------------------------------------------- import

  /** The outcome of reading and parsing the chosen import file: the read or
      parse raised, the top-level value is not an object, or it is an object
      mapping words to definitions. */
  datatype ImportSource = ImportUnreadable | ImportNotObject | ImportObject(entries: Store)

  datatype ImportStatus = Imported(count: nat) | NotAnObject | ImportFailed

  datatype ImportResult = ImportResult(data: Store, status: ImportStatus)

  /** "Import JSON": a non-object or unreadable file is refused and nothing
      changes; otherwise `data.update(imported)` (imported entries win on a
      shared word) and the reported count is the number of imported entries,
      not the number of new words. */
  function Import(data: Store, source: ImportSource): (r: ImportResult)
    ensures source.ImportUnreadable? ==> r.data == data && r.status == ImportFailed
    ensures source.ImportNotObject? ==> r.data == data && r.status == NotAnObject
    ensures source.ImportObject? ==>
              && r.status == Imported(|source.entries|)
              && r.data.Keys == data.Keys + source.entries.Keys
              && (forall k :: k in source.entries ==> r.data[k] == source.entries[k])
              && (forall k :: k in data && k !in source.entries ==> r.data[k] == data[k])
  {
    match source
    case ImportUnreadable => ImportResult(data, ImportFailed)
    case ImportNotObject => ImportResult(data, NotAnObject)
    case ImportObject(entries) => ImportResult(data + entries, Imported(|entries|))
  }

  /** Importing the same object twice leaves the store as one import did. */
  lemma ImportIdempotent(data: Store, source: ImportSource)
    ensures Import(Import(data, source).data, source).data == Import(data, source).data
  {
  }

  /** The worked example of a merge: importing {"a": "x", "b": "y"} into
      {"a": "old"} gives {"a": "x", "b": "y"} and reports 2 entries, although
      only one word is new. */
  lemma ImportReportsEntriesNotNewWords()
    ensures Import(map["a" := "old"], ImportObject(map["a" := "x", "b" := "y"]))
            == ImportResult(map["a" := "x", "b" := "y"], Imported(2))
  {
  }

  /** Import copies keys verbatim, so it can bring in a blank word: it does not
      keep the store well formed the way saving does. */
  lemma ImportMayAddBlankWord()
    ensures WellFormed(map[])
    ensures !WellFormed(Import(map[], ImportObject(map["" := "x"])).data)
  {
  }

  /** Importing well-formed entries into a well-formed store keeps it so. */
  lemma ImportPreservesWellFormed(data: Store, entries: Store)
    requires WellFormed(data) && WellFormed(entries)
    ensures WellFormed(Import(data, ImportObject(entries)).data)
  {
  }

  // ---------------------------------------------------------------- load

  /** The state of the data file at start-up. */
  datatype DataFile = Missing | Unreadable | NotObject | Object(entries: Store)

  /** What `json.load` leaves in `self.data`: a dict, or some other JSON
      value (a list, a string, a number, ...). */
  datatype Loaded = LoadedDict(entries: Store) | LoadedOther

  /** `load_data` as written: a missing or unreadable file gives an empty
      dict, but a file that parses to a non-object is adopted as-is. */
  function LoadDataAsWritten(file: DataFile): (r: Loaded)
    ensures r.LoadedOther? <==> file.NotObject?
    ensures file.Object? ==> r == LoadedDict(file.entries)
    ensures file.Missing? || file.Unreadable? ==> r == LoadedDict(map[])
  {
    match file
    case Missing => LoadedDict(map[])
    case Unreadable => LoadedDict(map[])
    case NotObject => LoadedOther
    case Object(entries) => LoadedDict(entries)
  }

  /** A data file holding a JSON array leaves `self.data` without the
      `keys()` the word list needs right after loading. */
  lemma LoadAsWrittenKeepsNonObject()
    ensures !LoadDataAsWritten(NotObject).LoadedDict?
  {
  }

  /** `load_data` with the object check that `import_json` performs: every
      file that does not hold a JSON object yields the empty store. */
  function LoadData(file: DataFile): (r: Store)
    ensures file.Object? ==> r == file.entries
    ensures !file.Object? ==> r == map[]
  {
    if file.Object? then file.entries else map[]
  }

  /** The corrected load agrees with the code on every file the code handles
      and always yields a store. */
  lemma LoadDataAgreesWhereDefined(file: DataFile)
    ensures LoadDataAsWritten(file).LoadedDict? ==> LoadDataAsWritten(file).entries == LoadData(file)
    ensures LoadDataAsWritten(file).LoadedOther? ==> LoadData(file) == map[]
  {
  }

  /** Starting without a usable file, nothing can be looked up. */
  lemma LoadFallbackIsEmpty(file: DataFile, word: string)
    requires !file.Object?
    ensures Get(LoadData(file), word) == []
  {
  }
}
