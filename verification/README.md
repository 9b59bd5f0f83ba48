# go-directory: the Directory service in Dafny

A model of the core of `go-directory`, a personal contact directory. The core is the
Directory service. It keeps an ordered collection of name/phone contacts in memory and
loads it once from a store. After every successful add, delete or edit it writes the
whole collection back. The model has six modules:

- `Wrappers` (wrappers.dfy): `Option` for Go's bare `error` return and `Result` for `(T, error)`.
- `Errors` (errors.dfy): the kinds of error the core returns (duplicate name, not found, read, decode and write failures, and a wrapped load failure).
- `Text` (text.dfy): the `strings` functions the service relies on. `TrimSpace` strips Go's `unicode.IsSpace` characters. `Lower` is one ASCII-only case fold, used both for `EqualFold` and for the `ToLower` calls before `Contains`. `Contains` is substring containment.
- `Domain` (domain.dfy): the `Contact` value and `NewContact`.
- `Storage` (storage.dfy): the `Storage` interface as the class `Store`. `backing` is the persisted state: absent, an empty file, a list of records, or malformed data. `readFails` and `writeFails` stand for I/O faults. The ghost counter `saves` counts `Save` calls. `Load` returns the stored sequence, and `Save` replaces it.
- `Service` (directory.dfy): the `Directory` class with a `seq<Contact>` field. Its methods are loops proved against the specification functions `FirstMatch` (first case-insensitive name match) and `Matching` (ordered case-insensitive substring filter). `NewDirectory` is here, along with lemmas about name uniqueness and search, and client scenarios that follow the service's tests.

Two behaviours of the Go code are kept on purpose:
- A failed `Save` does not undo the in-memory change. Only the error comes back (`SavedOnce` with `writeFails`).
- The Directory never rejects an empty name or phone. Only the HTTP and CLI layers check for those. A name made only of white space is stored as `""` (`Text.TrimSpaceOfBlank`).

## Model

| member | source | states |
|---|---|---|
| `Text.TrimSpace` | internal/service/directory.go:31 | the trimmed string is never longer than the input (its full meaning is TrimSpaceTrims) |
| `Text.TrimSpaceTrims` | internal/service/directory.go:31-32 | the result is `s` with only white space removed around it, and it neither starts nor ends with white space |
| `Text.TrimSpaceUnique` | internal/service/directory.go:31-32 | those two facts determine the trimmed string, so they are a complete specification of TrimSpace |
| `Text.TrimmedStaysTrimmed` | internal/service/directory.go:31-32 | a string with no white space at either end is left unchanged by trimming |
| `Text.TrimSpaceIdempotent` | internal/service/directory.go:94-95 | trimming twice equals trimming once, so the second trim in contactExists changes nothing |
| `Text.TrimSpaceOfBlank` | internal/service/directory.go:30-39 | a name made only of white space trims to the empty string, which AddContact accepts |
| `Text.Lower` | internal/service/directory.go:70 | lower-casing keeps the length and maps each character through the ASCII fold |
| `Text.EqualFold` | internal/service/directory.go:46 | names equal ignoring case have the same length |
| `Text.EqualFoldPointwise` | internal/service/directory.go:46 | EqualFold holds exactly when the lengths agree and the characters agree pairwise once folded |
| `Text.Contains` | internal/service/directory.go:82 | a string contains only queries no longer than itself |
| `Text.ContainsIffOccurs` | internal/service/directory.go:82 | Contains holds exactly when the query occurs at some offset of the name |
| `Text.ContainsEmpty` | internal/service/directory.go:82 | every string contains the empty query |
| `Domain.NewContact` | internal/domain/contact.go:8-13 | the contact holds the given name and phone as given, with no trimming or validation |
| `Domain.NewContactEquality` | internal/domain/contact.go:3-6 | two contacts are equal exactly when their names and their phones are equal |
| `Storage.Store.constructor` | internal/service/directory_test.go:9-24 | a fresh store holds the given backing, has the given fault flags, and has seen no Save |
| `Storage.Store.Load` | internal/storage/json_storage.go:21-42 | absent or empty storage loads as the empty sequence; records load in stored order; read faults and malformed data are errors |
| `Storage.Store.Save` | internal/storage/storage.go:7 | one call: on success the store holds exactly the given sequence and any old contents are replaced; on a write fault it returns the error and keeps its contents |
| `Storage.SaveThenLoad` | internal/storage/json_storage_test.go:61-92 | Save then Load returns the saved sequence; a second Save replaces the first rather than appending |
| `Service.FirstMatch` | internal/service/directory.go:45-46 | the index where an in-order scan stops: the first name equal to the query ignoring case, or the length when there is none |
| `Service.FirstMatchAt` | internal/service/directory.go:45-46 | a scan that sees no match before index `i` and a match at `i` (or reaches the end) stops exactly at `i` |
| `Service.FirstMatchFound` | internal/service/directory.go:45-51 | the scan finds an index exactly when some stored name matches |
| `Service.RemoveAt` | internal/service/directory.go:47 | removes one entry; the length drops by one, the other entries keep their order, and the multiset loses exactly that entry |
| `Service.Matching` | internal/service/directory.go:79-85 | the filtered result is never longer than the collection |
| `Service.MatchingMembers` | internal/service/directory.go:79-85 | a contact is in the result exactly when it is stored and its lower-cased name contains the lower-cased query |
| `Service.MatchingAppend` | internal/service/directory.go:81-85 | filtering keeps order: matches of a prefix come before matches of the rest |
| `Service.MatchingSplit` | internal/service/directory.go:69-72 | the filter of a collection is the filter of the part scanned so far followed by the filter of the rest |
| `Service.MatchingSnoc` | internal/service/directory.go:81-85 | one step of the search loop: the matches of the first `i + 1` contacts are those of the first `i`, followed by contact `i` when it matches |
| `Service.MatchingHeadAt` | internal/service/directory.go:69-72 | when no contact before index `i` matches and contact `i` does, contact `i` is the head of the filter |
| `Service.MatchingEmptyQuery` | internal/service/directory.go:82 | the empty query returns every contact |
| `Service.MatchingBlankQuery` | internal/service/directory.go:78-85 | a query of white space only, once trimmed, returns every contact |
| `Service.MatchingIgnoresQueryCase` | internal/service/directory.go:82 | two queries that differ only in case give the same result |
| `Service.MatchingHeadIsFirst` | internal/service/directory.go:69-72 | the first element of the filter is the first contact, in collection order, whose name contains the query |
| `Service.AppendKeepsNamesUnique` | internal/service/directory.go:34-39 | appending a contact whose name is not already stored keeps all names distinct ignoring case |
| `Service.RemoveFirstMatchKeepsNamesUnique` | internal/service/directory.go:45-47 | with distinct names, removing the first match keeps names distinct and leaves no remaining entry with that name |
| `Service.SameNamesKeepNamesUnique` | internal/service/directory.go:58-60 | changing only phones keeps names distinct |
| `Service.SetPhoneKeepsNames` | internal/service/directory.go:60 | setting one entry's phone keeps the length and every name, so distinct names stay distinct |
| `Service.Directory.constructor` | internal/service/directory.go:17-19 | the new directory holds the given store and collection |
| `Service.Directory.ContactExists` | internal/service/directory.go:94-102 | true exactly when some stored name equals the trimmed argument ignoring case |
| `Service.Directory.AddContact` | internal/service/directory.go:30-41 | on a duplicate, returns DuplicateName(trimmed name) and changes neither the collection nor the store (no Save); otherwise appends Contact(trim name, trim phone) and saves once; keeps names distinct |
| `Service.Directory.DeleteContact` | internal/service/directory.go:43-52 | removes exactly the first case-insensitive match and saves once, or returns NotFound and changes nothing; with distinct names, no match remains afterwards |
| `Service.Directory.EditContact` | internal/service/directory.go:54-65 | sets only the phone of the first match to the trimmed new phone and saves once, or returns NotFound and changes nothing; names and length never change |
| `Service.Directory.SearchContact` | internal/service/directory.go:67-75 | returns the first element of SearchContacts' result, or NotFound(trimmed query) when that result is empty |
| `Service.Directory.SearchContacts` | internal/service/directory.go:77-88 | returns, in order, exactly the contacts matching the trimmed query ignoring case, and an empty sequence when none match |
| `Service.Directory.ListContacts` | internal/service/directory.go:90-92 | returns the current collection unfiltered and in order |
| `Service.NewDirectory` | internal/service/directory.go:16-28 | the new directory's collection is what Load returns; a Load error is wrapped and no directory is produced |
| `Service.AddThenDuplicate` | internal/service/directory_test.go:64-96 | after adding a trimmed name, adding a variant that differs only in case fails with DuplicateName and leaves one contact, which has been persisted |
| `Service.EditThenDelete` | internal/service/directory_test.go:98-153 | editing then deleting the only contact leaves an empty directory and an empty persisted collection |
| `Service.LifecycleScenario` | internal/service/directory_test.go:64-153 | starting from a missing backing file: add, duplicate, edit and delete leave the list empty |

## Left out

- The JSON file backend (`os.Stat`, `os.ReadFile`, `os.WriteFile`, `encoding/json`, indented output) is reduced to the four `Backing` states. A decode failure is one opaque error.
- I/O faults are the `readFails` and `writeFails` flags of the store, not events of a real file system. A failed write leaves the backing as it was. A partly written file is not modelled.
- Text.Lower: folds ASCII letters only. Go's `strings.ToLower` and `strings.EqualFold` use full Unicode case folding, and they can disagree with each other on some non-ASCII letters.
- Strings are sequences of Unicode characters. Go strings are UTF-8 bytes, and invalid UTF-8 is not modelled.
- Error values are kinds carrying the name they mention, not the formatted message text.
- Go slice aliasing is not modelled. `ListContacts` returns the internal slice. The test mock keeps a reference to the saved slice. `append(d.contacts[:i], ...)` shifts elements in place. The model uses immutable sequences, so callers and the store never see later changes.
- A nil slice and an empty slice are the same empty sequence in the model, for example the nil result of SearchContacts when nothing matches.
- Concurrency: the HTTP handlers share one Directory without a lock. The model is sequential.
- api/handlers.go, api/server.go and cmd/go-directory/main.go are not part of this model. They hold HTTP routing, form parsing, URL unescaping, templates, flag parsing and printing, including the empty-field checks those layers make before calling the core.
