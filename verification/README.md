# Glossary record and parsable-file resolver of the GitBook book pipeline

This project models two pure pieces of GitBook's book-parsing pipeline in Dafny and proves their properties.

- **The `Glossary` record** (`lib/models/glossary.js`). It is an immutable value that holds the file the glossary was read from and an insertion-ordered map from entry id to `GlossaryEntry`. `setFile`, `addEntry`, `addEntryByName` and `Glossary.createFromEntries` each return a new value. `getEntry(name)` looks an entry up by the id of a name. Immutable.js' `OrderedMap` is modelled by its observable behaviour (module `OrderedMaps`). It is a sequence of key/value pairs with distinct keys. `set` on a present key replaces the value where it stands. `set` on a new key appends the pair. Building a map from a list of pairs sets the pairs one after the other, so the last value wins and the first position is kept. `getFile()` and `getEntries()` are the datatype fields `file` and `entries`.
- **`findParsableFile(book, filename)`** (`lib/parse/findParsableFile.js`). It drops the caller's extension. It then looks up `basename + ext` in the file's directory for each extension of `FILE_EXTENSIONS`, in order. It returns the status of the first file that exists and that the book does not ignore, or `undefined`. The model returns the result together with the sequence of filesystem calls made (`FindFile`, `StatFile`). This lets the proofs talk about which lookups happen and on which path `statFile` is called.

Collaborators that are not shown become parameters:

- `GlossaryEntry.nameToID` is a parameter `nameToID: string -> Id`, an arbitrary deterministic function.
- The content filesystem (`findFile`, `statFile`) and `book.isContentFileIgnored` are function values inside `Book`.
- Node's `path.extname`, `path.basename` and `path.dirname` are function values inside `PathOps`.
- The extension list `FILE_EXTENSIONS` is the parameter `exts`.

`Promise.some` comes from `lib/utils/promise.js`, which is not part of this model. The model assumes what its doc comment and its use imply. The callback is run on the extensions one after the other, in list order, and the first defined result is returned. When none is defined, the result is `undefined`.

Files: `wrappers.dfy` (`Option`), `ordered_map.dfy` (`OrderedMaps`), `glossary.dfy` (`Glossaries`), `find_parsable_file.dfy` (`ParsableFiles`).

## Model

| member | source | states |
|---|---|---|
| `OrderedMaps.Find` | lib/models/glossary.js:38 | the position found holds the key, and no earlier pair has that key; `None` exactly when the key is absent |
| `OrderedMaps.Get` | lib/models/glossary.js:38 | `map.get(k)` is defined exactly when `k` is a key; it returns a value stored under `k`, and with distinct keys it is the one stored at `k`'s position |
| `OrderedMaps.Set` | lib/models/glossary.js:50 | after `map.set(k, v)`, `k` maps to `v` and every other key's lookup is unchanged; a present key keeps the key order and count, a new key is appended last; every pair of the result is an old pair or `(k, v)`; keys stay distinct |
| `OrderedMaps.UpdateLookup` | lib/models/glossary.js:50 | overwriting the value at an existing key's position keeps keys distinct, stores the new value and leaves the other lookups unchanged |
| `OrderedMaps.AppendLookup` | lib/models/glossary.js:50 | appending a pair with a new key keeps keys distinct, stores the value and leaves the other lookups unchanged |
| `OrderedMaps.FromPairs` | lib/models/glossary.js:84 | `OrderedMap(pairs)` has distinct keys, and every pair of the result is one of the input pairs |
| `OrderedMaps.FirstIndexAppend` | lib/models/glossary.js:84 | appending a pair does not move the first occurrence of a key already present; a new key first occurs at the end |
| `OrderedMaps.FromPairsHasKey` | lib/models/glossary.js:84 | the keys of `OrderedMap(pairs)` are exactly the keys that occur in `pairs` |
| `OrderedMaps.FromPairsOrder` | lib/models/glossary.js:84 | the keys of `OrderedMap(pairs)` are ordered by their first occurrence in `pairs` |
| `OrderedMaps.SetOrder` | lib/models/glossary.js:84 | setting one more pair keeps the map's keys ordered by first occurrence in the extended pair list |
| `OrderedMaps.FromPairsLastWins` | lib/models/glossary.js:84 | each key of `OrderedMap(pairs)` holds the value of its last occurrence in `pairs` |
| `Glossaries.NewEntry` | lib/models/glossary.js:60-63 | `new GlossaryEntry({name, description})` keeps the name and description and gives the entry the id of its name |
| `Glossaries.SetFile` | lib/models/glossary.js:25-27 | `setFile(f)` gives a glossary whose file is `f` and whose entries are the original ones |
| `Glossaries.SetFileWellFormed` | lib/models/glossary.js:25-27 | `setFile` keeps every stored entry's id equal to the id of its name |
| `Glossaries.GetEntry` | lib/models/glossary.js:34-39 | `getEntry(name)` is defined exactly when the id of `name` is a key, and then it is the entry stored under that id; in a valid glossary (every entry stored under its own id) that entry's own id is the id of `name`, and in a valid, well-formed glossary its name has the same id as `name` |
| `Glossaries.GetEntryOnEmpty` | lib/models/glossary.js:6-9 | the default glossary has no entry for any name |
| `Glossaries.AddEntry` | lib/models/glossary.js:46-52 | `addEntry(e)` keeps the file, stores `e` under `e.id`, leaves every other id's lookup unchanged, keeps the key order for a present id and appends a new id; entries stay keyed by their own ids |
| `Glossaries.AddEntryWellFormed` | lib/models/glossary.js:46-52 | `addEntry` of an entry whose id is that of its name keeps every stored entry's id equal to the id of its name |
| `Glossaries.AddEntryThenGetEntry` | lib/models/glossary.js:46-52 | after `addEntry(e)`, `getEntry(n)` returns `e` for every name `n` whose id is `e.id` |
| `Glossaries.AddEntryNewId` | lib/models/glossary.js:46-51 | an entry with a new id is appended after all existing entries, and the count grows by one |
| `Glossaries.AddEntryExistingId` | lib/models/glossary.js:46-51 | an entry with an existing id replaces the value at that id's position; the order and count are unchanged |
| `Glossaries.AddEntryByName` | lib/models/glossary.js:59-66 | `addEntryByName(n, d)` keeps the file, makes `getEntry(n)` return the entry with id `nameToID(n)`, name `n` and description `d`, leaves every name with another id unchanged, and keeps every stored entry's id equal to that of its name |
| `Glossaries.ReplaceByNameKeepsPosition` | lib/models/glossary.js:59-66 | two `addEntryByName` calls with names of the same id: the entry carries the second name and description and stays where the first call put it |
| `Glossaries.ToEntry` | lib/models/glossary.js:76-78 | an input that is already an entry is kept as it is; a plain record becomes the entry with its name and description and the id of its name |
| `Glossaries.KeyedEntries` | lib/models/glossary.js:75-81 | the inputs become one `[entry.id, entry]` pair each, in input order, the entry being the input turned into an entry |
| `Glossaries.CreateFromEntries` | lib/models/glossary.js:74-86 | `createFromEntries(xs)` has the default file, every entry is stored under its own id, and when every entry given as an instance has the id of its name, so does every stored entry |
| `Glossaries.CreateFromEntriesIds` | lib/models/glossary.js:74-85 | the ids of `createFromEntries(xs)` are exactly the ids of the entries built from `xs` |
| `Glossaries.CreateFromEntriesOrder` | lib/models/glossary.js:74-85 | the ids of `createFromEntries(xs)` are ordered by their first occurrence in `xs` |
| `Glossaries.CreateFromEntriesLastWins` | lib/models/glossary.js:74-85 | each id of `createFromEntries(xs)` holds the last input entry with that id |
| `Glossaries.AddEntriesAppend` | lib/models/glossary.js:46-52 | adding a list of entries and then one more is the same as adding the longer list |
| `Glossaries.CreateFromEntriesIsFold` | lib/models/glossary.js:74-85 | `createFromEntries(xs)` equals adding the entries of `xs` one by one to the default glossary |
| `Glossaries.CollidingNamesMerge` | lib/models/glossary.js:74-85 | two plain records whose names share an id make a single entry, which holds the later name and description |
| `ParsableFiles.Accepts` | lib/parse/findParsableFile.js:24 | a candidate is accepted only if a path was found and the book does not ignore it; an ignored path is rejected like a missing one; the empty path is falsy and rejected; a found, non-empty, not-ignored path is accepted |
| `ParsableFiles.SearchExtensions` | lib/parse/findParsableFile.js:19-30 | the result is undefined exactly when no extension is accepted; otherwise it is `statFile` of the candidate path of the first accepted extension, and every earlier extension was rejected |
| `ParsableFiles.SearchCallsAccepted` | lib/parse/findParsableFile.js:19-30 | when `exts[k]` is the first accepted extension, the calls are the lookups of `exts[0..k]` in list order, then a single `statFile` of the accepted path; nothing after it is looked up |
| `ParsableFiles.SearchCallsNone` | lib/parse/findParsableFile.js:19-30 | when no extension is accepted, every extension is looked up in list order and `statFile` is never called |
| `ParsableFiles.SearchLookups` | lib/parse/findParsableFile.js:19-22 | the `i`-th lookup of a search is of `basename + exts[i]` inside the base directory |
| `ParsableFiles.FindParsableFile` | lib/parse/findParsableFile.js:13-31 | the same first-match result, stated for the split of `filename`: the `i`-th lookup is `basename + exts[i]` inside `dirname(filename)`, where `basename` lacks the caller's extension |
| `ParsableFiles.FindParsableFileCalls` | lib/parse/findParsableFile.js:13-31 | for the split of `filename`: the lookups go in list order up to the first accepted extension and are followed by one `statFile` of its path; with no accepted extension every extension is looked up and `statFile` is never called |
| `ParsableFiles.NoExtensionsNoResult` | lib/parse/findParsableFile.js:19 | with an empty extension list, nothing is looked up and the result is undefined |
| `ParsableFiles.StatOnlyAccepted` | lib/parse/findParsableFile.js:24-28 | `statFile` is called at most once, as the last call, on a path that was found and is not ignored; its status is the result |
| `ParsableFiles.SameAcceptanceSameResult` | lib/parse/findParsableFile.js:22-26 | the result depends on each candidate only through whether it is accepted and, if it is, through the status of its path |
| `ParsableFiles.IgnoredIsMissing` | lib/parse/findParsableFile.js:24-26 | a candidate that is found but ignored gives the same search as one the filesystem does not find: the same result and the same lookups, the search moving on to the next extension |
| `ParsableFiles.EarlierExtensionWins` | lib/parse/findParsableFile.js:19-29 | if some extension is accepted, there is a result, and it comes from that extension or from an earlier one |

## Left out

- The commented-out legacy implementation (`lib/models/glossary.js:92-200`) is dead code and is not modelled. This includes `toText`, which renders through a parser.
- Immutable.js internals are not modelled: `Record`, `merge`, structural sharing and hashing. Only the observable ordered-map behaviour is. Non-mutation of the receiver holds because every value is immutable.
- `GlossaryEntry` (`lib/models/glossaryEntry.js`) is not part of this model. Its slug function is the parameter `nameToID`. `entry.id` (line 80) and `entry.getID()` (line 47) are both the entry's `id` field.
- A plain record given to `createFromEntries` is turned into an entry the way `addEntryByName` builds one: its id is `nameToID(name)`. Errors from building an entry out of a malformed record are not modelled.
- `GlossaryEntry` derives an entry's id from its name. Here the id is a stored field, so an entry given to `addEntry` or `createFromEntries` as an instance is taken as it is. The predicate `WellFormed` states the derived-id invariant. The model proves that `NewEntry`, `AddEntryByName` and `SetFile` keep it. It proves the same for `AddEntry` and `CreateFromEntries` when the entries they are given satisfy it.
- `File` (`lib/models/file.js`) is not part of this model. A file is reduced to its path, and the default `new File()` is the file with the empty path.
- Asynchrony and the body of `Promise.some` are not modelled; the search is sequential, as described above.
- The filesystem and the ignore rules are total functions here. A lookup or status call that fails, which would reject the promise in the source, is not modelled. The code catches nothing, so no recovery is invented.
- Node's `path` semantics are not modelled. `extname`, `basename` and `dirname` are arbitrary functions.
- The parser registry is reduced to the extension list.
- A status that is itself falsy is not modelled. `statFile` is taken to always yield a defined status, so `Promise.some` stops at the first accepted candidate.
- In JavaScript, `!found` also treats an empty path as not found. The model follows this.
