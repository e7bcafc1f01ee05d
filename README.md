# epublinks: archive lookup and fail-fast text collection, in Dafny

This project models two sequential pieces of the epublinks pipeline. The
pipeline pulls the hyperlink targets out of an EPUB book, and an EPUB book is a
zip container of XHTML section documents.

- **Archive access** (`archive.dfy`, module `Archive`, after `pkg/archive/zipfile.go`).
  An opened archive (`ZipFile`) wraps one of two backends. `FileReader` stands for
  `ZipFileReader`, which reads a local file. `UrlReader` stands for `ZipUrlReader`,
  which reads an in-memory buffer. Both expose the container's entries as an ordered
  `seq<Entry>`. `FileByName` finds the first entry with exactly the given name.
  `FilesByName` keeps, in container order, every entry whose name contains a
  fragment. Each is a method with a loop, proved against a specification
  function: `IndexOfName` for the first match, `Matching` for the filter.
  Substring containment follows Go's `strings.Contains`, so the empty fragment
  is contained in every name.
- **Text collection** (`xml.dfy`, module `Format`, after `pkg/format/xml.go`).
  `ReadTextFromXmls` walks the selected entries in order. For each one it opens
  the entry, turns the stream into text and appends the text. At the first
  failure it returns no texts and that failure. `ReadXmls` runs the substring
  selection and then this loop. Opening an entry and decoding its stream are
  foreign code, so they are the function parameters `open` and `toText`. The
  specification `ReadAll` gives the all-or-nothing outcome of reading a list.
- **Failures** (`errors.dfy`, module `Errors`). Go's `error` results are a tagged
  `Error`, and nil pointers are `None`. Go's `(value, error)` result pairs stay pairs.

The archive and its backends are never updated after they are opened, so they
are datatypes (values). `Files` is the backend's list itself, by definition.
Because the lookups take the archive as a value, they cannot change its entry
list.

`ReadXmls` (pkg/format/xml.go:21-30) returns the selection and read errors
unchanged, without adding context. The archive handle that `ZipFile` wraps
(pkg/archive/zipfile.go:28, :54) and the `archive.ZipData` that `ReadXmls`
takes (pkg/format/xml.go:20) are both read as the `ZipReader` interface, i.e.
as the entry sequence.

## Model

| member | source | states |
|---|---|---|
| `Archive.ReaderFiles` | pkg/archive/zipfile.go:30-46 | `Files` of either backend is the backend's entry list, unchanged. |
| `Archive.Files` | pkg/archive/zipfile.go:90-92 | `ZipFile.Files` is the backend's entry list, unchanged. |
| `Archive.Contains` | pkg/archive/zipfile.go:120 | `strings.Contains`: the fragment occurs at some position of the name, so a contained fragment is never longer than the name. |
| `Archive.ReaderClose` | pkg/archive/zipfile.go:34-50 | Closing the in-memory (URL) backend always succeeds. Closing the file backend returns the operating system's close outcome. |
| `Archive.Close` | pkg/archive/zipfile.go:95-97 | An archive backed by a fetched buffer always closes without error. A file-backed archive reports its backend's outcome. |
| `Archive.ContainsEmpty` | pkg/archive/zipfile.go:120 | The empty fragment is contained in every name. |
| `Archive.ContainsItself` | pkg/archive/zipfile.go:120 | Every name contains itself. |
| `Archive.IndexOfName` | pkg/archive/zipfile.go:101-106 | The index found is within bounds. No earlier entry has the name. If the index is in range, that entry has exactly the name. |
| `Archive.IndexOfNameAbsent` | pkg/archive/zipfile.go:108-110 | The search runs off the end exactly when no entry has the name. |
| `Archive.Matching` | pkg/archive/zipfile.go:119-123 | The selection is never longer than the container. |
| `Archive.MatchingIsSelection` | pkg/archive/zipfile.go:119-123 | The selection is the container restricted to strictly increasing positions. Those positions are exactly the ones whose name contains the fragment, so it is a subsequence in container order and is sound and complete. |
| `Archive.MatchingSound` | pkg/archive/zipfile.go:120-121 | Every selected entry's name contains the fragment. |
| `Archive.MatchingComplete` | pkg/archive/zipfile.go:120-121 | Every entry whose name contains the fragment is selected. |
| `Archive.MatchingEmpty` | pkg/archive/zipfile.go:125-127 | The selection is empty if and only if no entry name contains the fragment. |
| `Archive.MatchingEmptyFragment` | pkg/archive/zipfile.go:119-127 | With the empty fragment the selection is the whole container. So `FilesByName("")` fails exactly when the archive has no entries. |
| `Archive.ExactMatchIsSelected` | pkg/archive/zipfile.go:100-123 | An entry found by exact name is also selected when that name is used as the fragment. |
| `Archive.FileByName` | pkg/archive/zipfile.go:100-112 | On success it returns the first entry in container order with exactly that name, and no error. It returns no entry if and only if no entry has the name, and then the error is `FileNotFound(name)`. |
| `Archive.FilesByName` | pkg/archive/zipfile.go:118-130 | Returns exactly the container-order selection of entries whose names contain the fragment. Reports `NoFileContaining(fragment)` if and only if that selection is empty. |
| `Format.ReadEntry` | pkg/format/xml.go:39-47 | Reading one entry fails with the open error when `element.Open()` fails, and otherwise is the result of turning the opened stream into text. |
| `Format.ReadAll` | pkg/format/xml.go:35-53 | A successful read yields one text per entry. |
| `Format.ReadAllSucceeds` | pkg/format/xml.go:38-52 | Reading succeeds with `texts` if and only if it yields as many texts as entries and the i-th text is what the i-th entry reads to. |
| `Format.ReadAllFailsAt` | pkg/format/xml.go:39-47 | If entry k is the first that cannot be opened or decoded, the whole read fails with that entry's error. |
| `Format.ReadAllFailureHasCause` | pkg/format/xml.go:39-47 | Every failed read fails with the error of its first unreadable entry. |
| `Format.ReadAllIgnoresRest` | pkg/format/xml.go:38-47 | Entries after the first unreadable one do not affect the outcome. |
| `Format.SelectedTextsInContainerOrder` | pkg/format/xml.go:20-33 | Reading the selection successfully gives one text per name-matching entry of the container, in container order. |
| `Format.ReadTextFromXmls` | pkg/format/xml.go:35-53 | On success: one text per input entry, in order, each the entry's own text. On failure: an empty list and the failure of the fail-fast read `ReadAll`, which `ReadAllFailureHasCause` shows is the error of the first unreadable entry. An empty input gives an empty list and no error. |
| `Format.ReadXmls` | pkg/format/xml.go:20-33 | If no entry matches, it returns an empty list with the selection's `NoFileContaining` error unchanged. Otherwise its outcome is the fail-fast read of the selection, with an empty list on any error. On success the texts are one per matching entry, in container order. |

## Left out

- `NewZipFile` (pkg/archive/zipfile.go:58-66) is not modelled. It opens a local file, which is file-system I/O; a successfully opened archive is simply a `ZipFile(FileReader(entries))`.
- `NewZipFileFromUrl` (pkg/archive/zipfile.go:69-87) is not modelled. It is an HTTP fetch followed by reading the body, which is network I/O.
- `zip.ReadCloser.Close` is operating-system I/O. Its outcome is the parameter `osResult` of `ReaderClose` and `Close`.
- Zip decompression (`element.Open()`) and `XmlFileToString` are foreign code. They are the abstract parameters `open` and `toText`. `XmlFileToString`, `EpubLinksFromFile` and the href extraction are not part of this model.
- The model does not capture side effects of opening entry streams. So "no later file is opened after a failure" appears only as the loop's early return and as `ReadAllIgnoresRest`: later entries do not affect the outcome.
- `open` and `toText` are deterministic functions of an entry's value. So two equal entries (same name, same bytes) always read the same way, and a one-off I/O failure of `element.Open()` on a file-backed archive cannot be expressed.
- Entries are compared as values (name and stored bytes), not as `*zip.File` pointers.
- Go strings are UTF-8 bytes, while the model's names are sequences of characters. Containment agrees on well-formed names.
- pkg/format/xml_test.go is an integration test against a binary sample book, so there is no logic there to model.
- The text of error messages (`fmt.Errorf`) is not modelled; only which failure occurred is.
