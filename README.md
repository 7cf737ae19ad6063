# vcard-export-images in Dafny

This project models `vcard-export-images`. The tool reads every vCard file in
one folder into a single address book. It then writes the photo of each
contact to `<export folder>/<index><extension>`. Here `<index>` is the
contact's position in the whole address book, and `<extension>` comes from the
photo's media type.

The model has three modules:

- `Wrappers` holds `Option` and `Result`.
- `GoText` holds the Go library string operations the tool uses:
  - `strings.ToLower`;
  - `strings.Split` with a one-character separator;
  - the `%d` rendering of `fmt.Sprintf`.

  It also proves the facts the exporter needs about them: lower-casing is
  idempotent, split and join round-trip, and decimal rendering round-trips
  and is injective.
- `VCardExport` models the exporter:
  - the extension rule;
  - the output name;
  - building the address book (`AddressBook`, and the loop `ReadAddressBook`);
  - the export loop (`Outcomes` per contact, and the loop `ExportImages`);
  - the whole run after flag parsing (`Run`).

The parser, base64 decoding and the file system are parameters:

- `listing`: the directory listing, `None` when the folder cannot be read.
- `readFile`: the contacts of one file, `None` when it cannot be opened.
- `decode`: base64 decoding, `None` on invalid input.
- `writeOk`: whether a write succeeds.

Log messages are `LogLine` values, in the order they are logged.

## Model

| member | source | states |
|---|---|---|
| GoText.ToLower | vcard-export-images.go:61 | Lower-casing keeps the length; with ToLowerAt it maps every character to its lower-case form. |
| GoText.ToLowerAt | vcard-export-images.go:61 | Lower-casing maps each character on its own and leaves no upper-case letter. |
| GoText.LowerCaseOf | vcard-export-images.go:61 | A string whose every character is the lower-cased counterpart of another string's is that string's lower-casing. |
| GoText.ToLowerIdempotent | vcard-export-images.go:61 | Lower-casing an already lower-cased type changes nothing. |
| GoText.Split | vcard-export-images.go:67 | A split has at least one part, and no part contains the separator. |
| GoText.Join | vcard-export-images.go:67 | A join starts with its first part; it is the inverse that JoinSplit pairs with Split. |
| GoText.JoinSplit | vcard-export-images.go:67 | Joining the parts of a split with the separator gives back the original string. |
| GoText.SplitWithoutSep | vcard-export-images.go:67 | A string without the separator splits into itself alone. |
| GoText.SplitAtFirstSep | vcard-export-images.go:67 | Splitting `a/b` with no slash in `a` yields `a` and then the split of `b`. |
| GoText.SplitPair | vcard-export-images.go:67 | `a/b` with no other slash splits into exactly `[a, b]`, so index 1 is the subtype. |
| GoText.Decimal | vcard-export-images.go:82 | `%d` of a non-negative index is a non-empty digit string, with a leading `0` only for index 0. |
| GoText.DecimalRoundTrip | vcard-export-images.go:82 | Reading the decimal rendering back gives the index. |
| GoText.DecimalInjective | vcard-export-images.go:82 | Different indices are rendered differently. |
| GoText.LeadingDigits | vcard-export-images.go:82 | The leading digit run is a digit-only prefix of the string. |
| GoText.LeadingDigitsOfConcat | vcard-export-images.go:82 | Digits followed by an empty or non-digit suffix are exactly the leading run. |
| VCardExport.Extension | vcard-export-images.go:59-74 | An extension is either empty or starts with a dot. |
| VCardExport.SplitKnownTypes | vcard-export-images.go:66-67 | `image/jpeg` and `image/png` split into exactly two parts, so `[1]` is in range. |
| VCardExport.ExtensionEmpty | vcard-export-images.go:63-74 | The extension is empty, with no dot, exactly when the media type is empty. |
| VCardExport.ExtensionSplitTypes | vcard-export-images.go:61-74 | A type that lower-cases to `image/jpeg` gives `.jpeg`; one that lower-cases to `image/png` gives `.png`. |
| VCardExport.ExtensionVerbatim | vcard-export-images.go:63-74 | Any other non-empty type gives a dot and the whole lower-cased type, slash included. |
| VCardExport.ExtensionIgnoresCase | vcard-export-images.go:61-74 | The extension of a type equals the extension of its lower-cased form. |
| VCardExport.ExtensionExamples | vcard-export-images.go:61-74 | `image/PNG` gives `.png`, the empty type gives no extension, and `IMAGE/GIF` gives `.image/gif`. |
| VCardExport.OutputPath | vcard-export-images.go:82 | An output path is longer than the folder, the slash and the extension together, since the index adds at least one digit. |
| VCardExport.OutputPathParts | vcard-export-images.go:82 | An output path reads back as the folder, a slash, digits whose decimal value is the index, and the extension. |
| VCardExport.OutputPathInjective | vcard-export-images.go:82 | Two output paths in one folder, with dot-or-empty extensions, are equal only for equal index and extension. |
| VCardExport.FilePath | vcard-export-images.go:44 | A listed file's path is the folder, a slash, then exactly the entry name. |
| VCardExport.AddressBook | vcard-export-images.go:43-55 | A reported failure names a file that does not open; a built book holds exactly as many contacts as the listed files. |
| VCardExport.AddressBookOk | vcard-export-images.go:43-55 | The book is built exactly when every listed file opens, and then it holds every file's contacts. |
| VCardExport.AddressBookFirstFailure | vcard-export-images.go:43-50 | The first file that fails to open is the one reported, whatever follows it. |
| VCardExport.AddressBookPosition | vcard-export-images.go:43-57 | Contact `j` of the `k`-th file sits after all contacts of earlier files, so indices are global. |
| VCardExport.PrependAssociates | vcard-export-images.go:53-54 | Appending two files' contacts one after the other is appending their concatenation. |
| VCardExport.ReadAddressBook | vcard-export-images.go:43-55 | The loop returns the listing-order concatenation, or the path of the first unopenable file. |
| VCardExport.ContactOutcome | vcard-export-images.go:58-85 | A contact is skipped iff its photo is empty; decoding fails iff it is non-empty and undecodable; a written or failed write uses the output path of its index and extension, with the decoded bytes. |
| VCardExport.OutcomeLog | vcard-export-images.go:76-85 | An outcome logs at most one line, and none exactly when it is skipped or written. |
| VCardExport.Outcomes | vcard-export-images.go:57 | There is one outcome per contact. |
| VCardExport.OutcomeAt | vcard-export-images.go:57-86 | The contact at position `k` is handled with index `k`, whatever the earlier contacts did. |
| VCardExport.WrittenIndices | vcard-export-images.go:57-82 | Written files map to strictly increasing contact positions, and every written position is listed. |
| VCardExport.ExportedExactly | vcard-export-images.go:57-85 | Position `i` gets a file iff its photo is non-empty, decodes, and the write to its path succeeds. |
| VCardExport.WrittenFileContents | vcard-export-images.go:76-82 | Each written file is named by its contact's position and extension, and holds the decoded photo bytes. |
| VCardExport.WrittenPathsDistinct | vcard-export-images.go:57-82 | No path string is written twice in one run. |
| VCardExport.EveryPhotoAccountedFor | vcard-export-images.go:57-85 | The written files and the log lines together number exactly the contacts that carry a photo. |
| VCardExport.ContactLogged | vcard-export-images.go:58-85 | Handling contact `k` adds nothing to the log for an empty photo or a successful write, "could not decode" on a decode failure, and "could not write" with its path on a write failure. |
| VCardExport.PhotoCount | vcard-export-images.go:58 | There are no more photos than contacts. |
| VCardExport.OutcomesStep | vcard-export-images.go:57 | Handling one more contact appends its outcome to those of the contacts before it. |
| VCardExport.RecordOutcome | vcard-export-images.go:76-85 | One more outcome adds its file, if any, and its log line, if any. |
| VCardExport.ExportImages | vcard-export-images.go:57-87 | The loop writes exactly the files and logs exactly the lines the per-contact outcomes prescribe, in order. |
| VCardExport.Run | vcard-export-images.go:35-89 | An unreadable folder logs one line; an unopenable file logs its path; neither writes anything. Otherwise the book is exported. |
| VCardExport.IndexOneNames | vcard-export-images.go:82 | Index 1 in a folder is named `folder/1.png` with `.png`, and `folder/1` with no extension. |
| VCardExport.PngAfterEmptyPhoto | vcard-export-images.go:57-85 | A photo-less contact before one typed `image/png` in any case still uses index 0, so only `1.png` is written. |
| VCardExport.DecodeFailureThenNoExtension | vcard-export-images.go:57-85 | An undecodable photo logs one line and is skipped; the next contact, with an empty type, is written as `folder/1`. |
| VCardExport.TwoContacts | vcard-export-images.go:57 | The two contacts of a two-contact book are handled with indices 0 and 1. |
| VCardExport.TwoOutcomes | vcard-export-images.go:57-85 | A two-contact book writes and logs what its two outcomes prescribe, in order. |

## Left out

- Command-line parsing, the help text and the panic on a bad flag (vcard-export-images.go:15-33) are left out. They are a library's behaviour, not the exporter's.
- The vCard parser (`vcard.NewDirectoryInfoReader`, `ReadFrom`) is the parameter `readFile`. The source ignores its error, so a file that opens always contributes whatever contacts the parser yields.
- Base64 decoding is the parameter `decode`, and writing a file is the parameter `writeOk`. File permissions (`0644`) and the error text of a failed write are not modelled; the log line records the path.
- `ioutil.ReadDir` sorts entries by name. The model takes the listing in the order given. Sub-directories and other entry kinds are whatever `readFile` makes of their paths.
- `defer f.Close()` keeps every listed file open until the run ends. The only visible effect is that an open can fail once the listing exceeds the process's file-descriptor limit. That abort is covered by `readFile` returning `None` for that path; the model does not tie it to the listing's length.
- GoText.ToLower: lower-cases ASCII letters only, not the full Unicode case mapping of `strings.ToLower`.
- The text of log messages is not modelled; each message is a `LogLine` value.
- The source lower-cases `c.Photo.Type` on its loop copy of the contact. In the model contacts are values, so the address book is never changed by the export.
- VCardExport.WrittenPathsDistinct: proves that the path strings differ, not that the files differ. Because a media type is used whole as the extension, it may contain `/` or `..`. Index 1 typed `x/../2.png` gets `folder/1.x/../2.png`, which names the same file as index 2's `folder/2.png` when a directory `folder/1.x` exists. The file system's path resolution is not modelled.
