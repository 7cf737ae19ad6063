/**
 * The image exporter of vcard-export-images.go: build one address book
 * from every contact file in a folder, then write the photo of each
 * contact to `<export folder>/<position><extension>`.
 *
 * The contact-file parser, base64 decoding and the file system are not
 * modelled; they are parameters of the operations below:
 *   - `readFile(path)` is None when the file cannot be opened, otherwise
 *     the contacts the parser yields for it;
 *   - `decode(text)` is the standard base64 decoding of `text`, None when
 *     the text is not valid base64;
 *   - `writeOk(path, bytes)` tells whether writing `bytes` to `path` succeeds.
 */
module VCardExport {
  import opened Wrappers
  import opened GoText

  newtype byte = b: int | 0 <= b < 256

  /** The photo of a contact: base64 text (empty when there is no photo) and its media type. */
  datatype Photo = Photo(data: string, mediaType: string)

  datatype Contact = Contact(photo: Photo)

  /** A file the exporter has written. */
  datatype ImageFile = ImageFile(path: string, bytes: seq<byte>)

  /** The messages the exporter logs. */
  datatype LogLine =
    | CannotReadFolder(folder: string)
    | CannotReadFile(path: string)
    | CouldNotDecode
    | CouldNotWrite(path: string)

  type Reader = string -> Option<seq<Contact>>
  type Decoder = string -> Option<seq<byte>>
  type Writer = (string, seq<byte>) -> bool

  // ---------------------------------------------------------------------
  // File extension and output name

  /** The file extension for a photo's media type, dot included. */
  function Extension(mediaType: string): (ext: string)
    ensures ext == [] || ext[0] == '.'
  {
    var t := ToLower(mediaType);
    var name :=
      if t == "" then ""
      else if t == "image/jpeg" || t == "image/png" then
        SplitKnownTypes(); Split(t, '/')[1]
      else t;
    if name != "" then "." + name else ""
  }

  /** The two media types the exporter splits at the slash have exactly two parts. */
  lemma SplitKnownTypes()
    ensures Split("image/jpeg", '/') == ["image", "jpeg"]
    ensures Split("image/png", '/') == ["image", "png"]
  {
    assert "image/jpeg" == "image" + ['/'] + "jpeg";
    assert "image/png" == "image" + ['/'] + "png";
    SplitPair("image", "jpeg", '/');
    SplitPair("image", "png", '/');
  }

  /** An empty media type, and only that, gives no extension and no dot. */
  lemma ExtensionEmpty(mediaType: string)
    ensures Extension(mediaType) == "" <==> mediaType == ""
  {
    SplitKnownTypes();
    if mediaType != "" {
      assert |ToLower(mediaType)| > 0;
    }
  }

  /** `image/jpeg` and `image/png`, in any case, give a dot and the part after the slash. */
  lemma ExtensionSplitTypes(mediaType: string)
    ensures ToLower(mediaType) == "image/jpeg" ==> Extension(mediaType) == ".jpeg"
    ensures ToLower(mediaType) == "image/png" ==> Extension(mediaType) == ".png"
  {
    var t := ToLower(mediaType);
    SplitKnownTypes();
    if t == "image/jpeg" {
      assert Split(t, '/')[1] == "jpeg";
      assert Extension(mediaType) == "." + "jpeg";
      DotJoin();
    } else if t == "image/png" {
      assert Split(t, '/')[1] == "png";
      assert Extension(mediaType) == "." + "png";
      DotJoin();
    }
  }

  lemma DotJoin()
    ensures "." + "jpeg" == ".jpeg" && "." + "png" == ".png" && "." + "image/gif" == ".image/gif"
  {
  }

  /** Every other non-empty media type is used whole, lower-cased, slash included. */
  lemma ExtensionVerbatim(mediaType: string)
    requires mediaType != ""
    requires ToLower(mediaType) != "image/jpeg" && ToLower(mediaType) != "image/png"
    ensures Extension(mediaType) == "." + ToLower(mediaType)
  {
    assert |ToLower(mediaType)| > 0;
  }

  /** The extension does not depend on the case of the media type. */
  lemma ExtensionIgnoresCase(mediaType: string)
    ensures Extension(ToLower(mediaType)) == Extension(mediaType)
  {
    ToLowerIdempotent(mediaType);
  }

  lemma LowerPng()
    ensures ToLower("image/PNG") == "image/png"
  {
    LowerCaseOf("image/PNG", "image/png");
  }

  lemma LowerGif()
    ensures ToLower("IMAGE/GIF") == "image/gif"
  {
    LowerCaseOf("IMAGE/GIF", "image/gif");
  }

  /** Worked examples of the extension rule, including the verbatim use of other types. */
  lemma ExtensionExamples()
    ensures Extension("image/PNG") == ".png"
    ensures Extension("") == ""
    ensures Extension("IMAGE/GIF") == ".image/gif"
  {
    LowerPng();
    LowerGif();
    ExtensionSplitTypes("image/PNG");
    ExtensionEmpty("");
    ExtensionVerbatim("IMAGE/GIF");
    DotJoin();
  }

  /** `fmt.Sprintf("%s/%d%s", folder, index, ext)`. */
  function OutputPath(folder: string, index: nat, ext: string): (path: string)
    ensures |path| > |folder| + 1 + |ext|
  {
    folder + "/" + Decimal(index) + ext
  }

  /**
   * An output path reads back as the export folder, a slash, the decimal
   * digits of the index and then the extension.
   */
  lemma OutputPathParts(folder: string, index: nat, ext: string)
    ensures var path := OutputPath(folder, index, ext);
      var digits := path[|folder| + 1..|path| - |ext|];
      path[..|folder|] == folder && path[|folder|] == '/' && path[|path| - |ext|..] == ext
      && AllDigits(digits) && DecimalValue(digits) == index
  {
    var path := OutputPath(folder, index, ext);
    assert path == folder + ("/" + Decimal(index)) + ext;
    assert path[|folder| + 1..|path| - |ext|] == Decimal(index);
    DecimalRoundTrip(index);
  }

  /** Output paths in one folder determine the index and the extension. */
  lemma OutputPathInjective(folder: string, i: nat, e1: string, j: nat, e2: string)
    requires e1 == [] || e1[0] == '.'
    requires e2 == [] || e2[0] == '.'
    requires OutputPath(folder, i, e1) == OutputPath(folder, j, e2)
    ensures i == j && e1 == e2
  {
    var prefix := folder + "/";
    var n1, n2 := Decimal(i) + e1, Decimal(j) + e2;
    assert OutputPath(folder, i, e1) == prefix + n1;
    assert OutputPath(folder, j, e2) == prefix + n2;
    assert n1 == (prefix + n1)[|prefix|..];
    assert n2 == (prefix + n2)[|prefix|..];
    LeadingDigitsOfConcat(Decimal(i), e1);
    LeadingDigitsOfConcat(Decimal(j), e2);
    DecimalInjective(i, j);
    assert e1 == n1[|Decimal(i)|..];
  }

  // ---------------------------------------------------------------------
  // Building the address book

  /** The path of a listed entry: the folder, a slash, then the entry's name. */
  function FilePath(folder: string, name: string): (path: string)
    ensures |path| == |folder| + 1 + |name|
    ensures path[..|folder|] == folder && path[|folder|] == '/' && path[|folder| + 1..] == name
  {
    folder + "/" + name
  }

  /** The contacts read from one file; none when it cannot be opened. */
  function ContactsOf(folder: string, name: string, readFile: Reader): seq<Contact> {
    match readFile(FilePath(folder, name))
    case Some(contacts) => contacts
    case None => []
  }

  /**
   * The address book read from the listed files, in listing order, or the
   * path of the first file that cannot be opened.
   */
  function AddressBook(folder: string, names: seq<string>, readFile: Reader): (r: Result<seq<Contact>, string>)
    ensures r.Err? ==> readFile(r.error).None?
    ensures r.Ok? ==> |r.value| == ContactCount(folder, names, readFile)
  {
    if names == [] then Ok([])
    else
      var path := FilePath(folder, names[0]);
      match readFile(path)
      case None => Err(path)
      case Some(contacts) => Prepend(contacts, AddressBook(folder, names[1..], readFile))
  }

  function Prepend(contacts: seq<Contact>, r: Result<seq<Contact>, string>): (r': Result<seq<Contact>, string>) {
    match r
    case Ok(rest) => Ok(contacts + rest)
    case Err(path) => Err(path)
  }

  /** The number of contacts in the listed files. */
  function ContactCount(folder: string, names: seq<string>, readFile: Reader): (n: nat) {
    if names == [] then 0
    else |ContactsOf(folder, names[0], readFile)| + ContactCount(folder, names[1..], readFile)
  }

  /** The address book is built exactly when every listed file can be opened. */
  lemma {:induction false} AddressBookOk(folder: string, names: seq<string>, readFile: Reader)
    ensures AddressBook(folder, names, readFile).Ok?
        <==> forall k :: 0 <= k < |names| ==> readFile(FilePath(folder, names[k])).Some?
    ensures AddressBook(folder, names, readFile).Ok?
        ==> |AddressBook(folder, names, readFile).value| == ContactCount(folder, names, readFile)
  {
    if names != [] {
      AddressBookOk(folder, names[1..], readFile);
      assert forall k :: 1 <= k < |names| ==> names[k] == names[1..][k - 1];
    }
  }

  /** Reading stops at the first file that cannot be opened, and reports it. */
  lemma {:induction false} AddressBookFirstFailure(folder: string, names: seq<string>, readFile: Reader, k: nat)
    requires k < |names|
    requires readFile(FilePath(folder, names[k])).None?
    requires forall j :: 0 <= j < k ==> readFile(FilePath(folder, names[j])).Some?
    ensures AddressBook(folder, names, readFile) == Err(FilePath(folder, names[k]))
  {
    if k > 0 {
      assert readFile(FilePath(folder, names[0])).Some?;
      assert forall j :: 0 <= j < k - 1 ==> names[1..][j] == names[j + 1];
      AddressBookFirstFailure(folder, names[1..], readFile, k - 1);
    }
  }

  /**
   * Contact `j` of the `k`-th listed file sits in the address book after
   * every contact of the files listed before it: indices span all files.
   */
  lemma {:induction false} AddressBookPosition(folder: string, names: seq<string>, readFile: Reader, k: nat, j: nat)
    requires AddressBook(folder, names, readFile).Ok?
    requires k < |names| && j < |ContactsOf(folder, names[k], readFile)|
    ensures ContactCount(folder, names[..k], readFile) + j < |AddressBook(folder, names, readFile).value|
    ensures AddressBook(folder, names, readFile).value[ContactCount(folder, names[..k], readFile) + j]
         == ContactsOf(folder, names[k], readFile)[j]
  {
    var first := ContactsOf(folder, names[0], readFile);
    var rest := AddressBook(folder, names[1..], readFile);
    assert AddressBook(folder, names, readFile) == Prepend(first, rest);
    if k == 0 {
      assert names[..0] == [];
    } else {
      AddressBookPosition(folder, names[1..], readFile, k - 1, j);
      assert names[..k][1..] == names[1..][..k - 1];
      assert names[..k][0] == names[0];
      assert ContactCount(folder, names[..k], readFile)
          == |first| + ContactCount(folder, names[1..][..k - 1], readFile);
      assert AddressBook(folder, names, readFile).value == first + rest.value;
    }
  }

  lemma PrependAssociates(first: seq<Contact>, second: seq<Contact>, r: Result<seq<Contact>, string>)
    ensures Prepend(first, Prepend(second, r)) == Prepend(first + second, r)
  {
    if r.Ok? {
      assert first + (second + r.value) == first + second + r.value;
    }
  }

  /** Open and parse each listed file in turn, appending its contacts; give up at the first file that does not open. */
  method ReadAddressBook(folder: string, names: seq<string>, readFile: Reader)
    returns (r: Result<seq<Contact>, string>)
    ensures r == AddressBook(folder, names, readFile)
  {
    var book: seq<Contact> := [];
    ghost var whole := AddressBook(folder, names, readFile);
    if whole.Ok? {
      assert [] + whole.value == whole.value;
    }
    assert names[0..] == names;
    for i := 0 to |names|
      invariant AddressBook(folder, names, readFile) == Prepend(book, AddressBook(folder, names[i..], readFile))
    {
      var path := FilePath(folder, names[i]);
      var file := readFile(path);
      assert names[i..][0] == names[i] && names[i..][1..] == names[i + 1..];
      if file.None? {
        return Err(path);
      }
      PrependAssociates(book, file.value, AddressBook(folder, names[i + 1..], readFile));
      book := book + file.value;
    }
    assert names[|names|..] == [];
    assert book + [] == book;
    return Ok(book);
  }

  // ---------------------------------------------------------------------
  // Exporting the photos

  /** What happens to one contact of the address book. */
  datatype Outcome =
    | Skipped
    | DecodeFailed
    | WriteFailed(path: string)
    | Written(file: ImageFile)

  /**
   * The handling of the contact at position `index`: an empty photo is
   * skipped; otherwise the photo is decoded and, if that succeeds, written
   * to the output path named by the index and the media type's extension.
   */
  function ContactOutcome(folder: string, index: nat, c: Contact, decode: Decoder, writeOk: Writer): (o: Outcome)
    ensures o.Skipped? <==> c.photo.data == ""
    ensures o.DecodeFailed? <==> c.photo.data != "" && decode(c.photo.data).None?
    ensures o.Written? ==>
      o.file.path == OutputPath(folder, index, Extension(c.photo.mediaType))
      && decode(c.photo.data) == Some(o.file.bytes) && writeOk(o.file.path, o.file.bytes)
    ensures o.WriteFailed? ==>
      decode(c.photo.data).Some? && o.path == OutputPath(folder, index, Extension(c.photo.mediaType))
      && !writeOk(o.path, decode(c.photo.data).value)
  {
    if c.photo.data == "" then Skipped
    else
      match decode(c.photo.data)
      case None => DecodeFailed
      case Some(bytes) =>
        var path := OutputPath(folder, index, Extension(c.photo.mediaType));
        if writeOk(path, bytes) then Written(ImageFile(path, bytes)) else WriteFailed(path)
  }

  /** The line logged for one outcome: one for each kind of failure, none otherwise. */
  function OutcomeLog(o: Outcome): (lines: seq<LogLine>)
    ensures |lines| <= 1
    ensures lines == [] <==> o.Skipped? || o.Written?
  {
    match o
    case DecodeFailed => [CouldNotDecode]
    case WriteFailed(path) => [CouldNotWrite(path)]
    case _ => []
  }

  /** The outcome of every contact, each handled under its position in the whole book. */
  function Outcomes(folder: string, book: seq<Contact>, decode: Decoder, writeOk: Writer): (os: seq<Outcome>)
    ensures |os| == |book|
  {
    if book == [] then []
    else
      var n := |book| - 1;
      Outcomes(folder, book[..n], decode, writeOk) + [ContactOutcome(folder, n, book[n], decode, writeOk)]
  }

  /** The contact at position `k` is handled under index `k`, whatever precedes it. */
  lemma {:induction false} OutcomeAt(folder: string, book: seq<Contact>, decode: Decoder, writeOk: Writer, k: nat)
    requires k < |book|
    ensures Outcomes(folder, book, decode, writeOk)[k] == ContactOutcome(folder, k, book[k], decode, writeOk)
  {
    var n := |book| - 1;
    if k < n {
      OutcomeAt(folder, book[..n], decode, writeOk, k);
    }
  }

  /** The files written, in order. */
  function WrittenFiles(os: seq<Outcome>): (files: seq<ImageFile>) {
    if os == [] then []
    else
      var last := os[|os| - 1];
      WrittenFiles(os[..|os| - 1]) + (if last.Written? then [last.file] else [])
  }

  /** The lines logged, in order. */
  function Logs(os: seq<Outcome>): (lines: seq<LogLine>) {
    if os == [] then [] else Logs(os[..|os| - 1]) + OutcomeLog(os[|os| - 1])
  }

  /** The positions whose file was written, in order, one per written file. */
  function WrittenIndices(os: seq<Outcome>): (idx: seq<nat>)
    ensures |idx| == |WrittenFiles(os)|
    ensures forall k :: 0 <= k < |idx| ==> idx[k] < |os| && os[idx[k]] == Written(WrittenFiles(os)[k])
    ensures forall a, b :: 0 <= a < b < |idx| ==> idx[a] < idx[b]
    ensures forall i :: 0 <= i < |os| && os[i].Written? ==> i in idx
  {
    if os == [] then []
    else
      var n := |os| - 1;
      WrittenIndices(os[..n]) + (if os[n].Written? then [n] else [])
  }

  /** The number of contacts that carry a photo. */
  function PhotoCount(book: seq<Contact>): (n: nat)
    ensures n <= |book|
  {
    if book == [] then 0
    else PhotoCount(book[..|book| - 1]) + (if book[|book| - 1].photo.data != "" then 1 else 0)
  }

  /**
   * The contact at position `i` gets a file exactly when it has a photo,
   * the photo decodes, and the write to its output path succeeds; an
   * empty photo or a failure at any other position does not matter.
   */
  lemma ExportedExactly(folder: string, book: seq<Contact>, decode: Decoder, writeOk: Writer, i: nat)
    requires i < |book|
    ensures var c := book[i].photo;
      i in WrittenIndices(Outcomes(folder, book, decode, writeOk))
      <==> c.data != "" && decode(c.data).Some?
           && writeOk(OutputPath(folder, i, Extension(c.mediaType)), decode(c.data).value)
  {
    var os := Outcomes(folder, book, decode, writeOk);
    var idx := WrittenIndices(os);
    OutcomeAt(folder, book, decode, writeOk, i);
    if i in idx {
      var k :| 0 <= k < |idx| && idx[k] == i;
      assert os[i].Written?;
    }
  }

  /**
   * The `k`-th written file belongs to the contact at position
   * `WrittenIndices(..)[k]`: its name is that position and the extension
   * of the contact's media type, and its bytes are the decoded photo.
   */
  lemma WrittenFileContents(folder: string, book: seq<Contact>, decode: Decoder, writeOk: Writer, k: nat)
    requires k < |WrittenFiles(Outcomes(folder, book, decode, writeOk))|
    ensures WrittenIndices(Outcomes(folder, book, decode, writeOk))[k] < |book|
    ensures var os := Outcomes(folder, book, decode, writeOk);
      var c := book[WrittenIndices(os)[k]].photo;
      var f := WrittenFiles(os)[k];
      c.data != "" && decode(c.data) == Some(f.bytes)
      && f.path == OutputPath(folder, WrittenIndices(os)[k], Extension(c.mediaType))
  {
    var os := Outcomes(folder, book, decode, writeOk);
    var i := WrittenIndices(os)[k];
    var c := book[i].photo;
    assert os[i] == Written(WrittenFiles(os)[k]);
    OutcomeAt(folder, book, decode, writeOk, i);
    assert c.data != "" && decode(c.data).Some?;
  }

  /** No path string is written twice in one run: written paths are pairwise distinct. */
  lemma WrittenPathsDistinct(folder: string, book: seq<Contact>, decode: Decoder, writeOk: Writer, a: nat, b: nat)
    requires a < b < |WrittenFiles(Outcomes(folder, book, decode, writeOk))|
    ensures WrittenFiles(Outcomes(folder, book, decode, writeOk))[a].path
         != WrittenFiles(Outcomes(folder, book, decode, writeOk))[b].path
  {
    var os := Outcomes(folder, book, decode, writeOk);
    var idx := WrittenIndices(os);
    WrittenFileContents(folder, book, decode, writeOk, a);
    WrittenFileContents(folder, book, decode, writeOk, b);
    if WrittenFiles(os)[a].path == WrittenFiles(os)[b].path {
      OutputPathInjective(folder, idx[a], Extension(book[idx[a]].photo.mediaType),
                          idx[b], Extension(book[idx[b]].photo.mediaType));
      assert false;
    }
  }

  /**
   * Counting over the whole book: the written files and the log lines
   * together number the contacts that carry a photo. The per-contact
   * statement is `ContactLogged` (with `ExportedExactly` for the files).
   */
  lemma {:induction false} EveryPhotoAccountedFor(folder: string, book: seq<Contact>, decode: Decoder, writeOk: Writer)
    ensures |WrittenFiles(Outcomes(folder, book, decode, writeOk))| + |Logs(Outcomes(folder, book, decode, writeOk))|
         == PhotoCount(book)
  {
    if book != [] {
      var n := |book| - 1;
      var os := Outcomes(folder, book, decode, writeOk);
      assert os[..n] == Outcomes(folder, book[..n], decode, writeOk);
      EveryPhotoAccountedFor(folder, book[..n], decode, writeOk);
    }
  }

  /**
   * Handling the contact at position `k` logs its own line and only it:
   * nothing for an empty photo or a successful write, "could not decode"
   * for undecodable data, and "could not write" with its output path for a
   * failed write.
   */
  lemma ContactLogged(folder: string, book: seq<Contact>, decode: Decoder, writeOk: Writer, k: nat)
    requires k < |book|
    ensures var c := book[k].photo;
      var before := Logs(Outcomes(folder, book[..k], decode, writeOk));
      var after := Logs(Outcomes(folder, book[..k + 1], decode, writeOk));
      (c.data == "" ==> after == before)
      && (c.data != "" && decode(c.data).None? ==> after == before + [CouldNotDecode])
      && (c.data != "" && decode(c.data).Some? ==>
            var path := OutputPath(folder, k, Extension(c.mediaType));
            after == before + (if writeOk(path, decode(c.data).value) then [] else [CouldNotWrite(path)]))
  {
    var o := ContactOutcome(folder, k, book[k], decode, writeOk);
    OutcomesStep(folder, book, decode, writeOk, k);
    RecordOutcome(Outcomes(folder, book[..k], decode, writeOk), o);
  }

  /** The outcomes of a prefix of the book are a prefix of the outcomes. */
  lemma OutcomesStep(folder: string, book: seq<Contact>, decode: Decoder, writeOk: Writer, i: nat)
    requires i < |book|
    ensures Outcomes(folder, book[..i + 1], decode, writeOk)
         == Outcomes(folder, book[..i], decode, writeOk) + [ContactOutcome(folder, i, book[i], decode, writeOk)]
  {
    assert book[..i + 1][..i] == book[..i];
  }

  /** Recording one more outcome adds its file, if any, and its log line, if any. */
  lemma RecordOutcome(os: seq<Outcome>, o: Outcome)
    ensures WrittenFiles(os + [o]) == WrittenFiles(os) + (if o.Written? then [o.file] else [])
    ensures Logs(os + [o]) == Logs(os) + OutcomeLog(o)
  {
    assert (os + [o])[..|os|] == os;
  }

  /** Handle every contact in order, skipping one only on its own failure. */
  method ExportImages(folder: string, book: seq<Contact>, decode: Decoder, writeOk: Writer)
    returns (written: seq<ImageFile>, log: seq<LogLine>)
    ensures written == WrittenFiles(Outcomes(folder, book, decode, writeOk))
    ensures log == Logs(Outcomes(folder, book, decode, writeOk))
  {
    written, log := [], [];
    for i := 0 to |book|
      invariant written == WrittenFiles(Outcomes(folder, book[..i], decode, writeOk))
      invariant log == Logs(Outcomes(folder, book[..i], decode, writeOk))
    {
      ghost var o := ContactOutcome(folder, i, book[i], decode, writeOk);
      OutcomesStep(folder, book, decode, writeOk, i);
      RecordOutcome(Outcomes(folder, book[..i], decode, writeOk), o);
      var c := book[i];
      if c.photo.data != "" {
        var ext := Extension(c.photo.mediaType);
        var data := decode(c.photo.data);
        if data.None? {
          assert o == DecodeFailed;
          log := log + [CouldNotDecode];
          continue;
        }
        var path := OutputPath(folder, i, ext);
        if !writeOk(path, data.value) {
          assert o == WriteFailed(path);
          log := log + [CouldNotWrite(path)];
          continue;
        }
        assert o == Written(ImageFile(path, data.value));
        written := written + [ImageFile(path, data.value)];
      } else {
        assert o == Skipped;
      }
    }
    assert book[..|book|] == book;
  }

  /**
   * The whole run after the flags are parsed: `listing` is the folder's
   * directory listing, None when the folder cannot be read.
   */
  method Run(vcardFolder: string, exportFolder: string, listing: Option<seq<string>>,
             readFile: Reader, decode: Decoder, writeOk: Writer)
    returns (written: seq<ImageFile>, log: seq<LogLine>)
    ensures listing.None? ==> written == [] && log == [CannotReadFolder(vcardFolder)]
    ensures listing.Some? && AddressBook(vcardFolder, listing.value, readFile).Err?
      ==> written == [] && log == [CannotReadFile(AddressBook(vcardFolder, listing.value, readFile).error)]
    ensures listing.Some? && AddressBook(vcardFolder, listing.value, readFile).Ok?
      ==> var os := Outcomes(exportFolder, AddressBook(vcardFolder, listing.value, readFile).value, decode, writeOk);
          written == WrittenFiles(os) && log == Logs(os)
  {
    if listing.None? {
      return [], [CannotReadFolder(vcardFolder)];
    }
    var book := ReadAddressBook(vcardFolder, listing.value, readFile);
    if book.Err? {
      return [], [CannotReadFile(book.error)];
    }
    written, log := ExportImages(exportFolder, book.value, decode, writeOk);
  }

  // ---------------------------------------------------------------------
  // Worked scenarios

  lemma IndexOneNames(folder: string)
    ensures OutputPath(folder, 1, ".png") == folder + "/1.png"
    ensures OutputPath(folder, 1, "") == folder + "/1"
  {
    assert Decimal(1) == "1";
    assert folder + "/" + "1" + ".png" == folder + ("/" + "1" + ".png");
    assert "/" + "1" + ".png" == "/1.png";
    assert folder + "/" + "1" + "" == folder + ("/" + "1");
    assert "/" + "1" == "/1";
  }

  /** A contact without a photo, then one typed `image/png` in any case: only `1.png` is written. */
  lemma PngAfterEmptyPhoto(folder: string, data: string, mediaType: string, decode: Decoder, writeOk: Writer)
    requires data != "" && ToLower(mediaType) == "image/png"
    requires decode(data) == Some([1, 2, 3, 4])
    requires writeOk(folder + "/1.png", [1, 2, 3, 4])
    ensures var book := [Contact(Photo("", "")), Contact(Photo(data, mediaType))];
      var os := Outcomes(folder, book, decode, writeOk);
      WrittenFiles(os) == [ImageFile(folder + "/1.png", [1, 2, 3, 4])] && Logs(os) == []
  {
    var book := [Contact(Photo("", "")), Contact(Photo(data, mediaType))];
    var os := Outcomes(folder, book, decode, writeOk);
    var f := ImageFile(folder + "/1.png", [1, 2, 3, 4]);
    TwoContacts(folder, book[0], book[1], decode, writeOk);
    ExtensionSplitTypes(mediaType);
    IndexOneNames(folder);
    assert os == [Skipped, Written(f)];
    TwoOutcomes(os);
  }

  /** An undecodable photo is logged and skipped; the next contact, typed "", is written without extension. */
  lemma DecodeFailureThenNoExtension(folder: string, bad: string, badType: string, good: string,
                                     decode: Decoder, writeOk: Writer)
    requires bad != "" && good != ""
    requires decode(bad) == None
    requires decode(good) == Some([0, 0, 0])
    requires writeOk(folder + "/1", [0, 0, 0])
    ensures var book := [Contact(Photo(bad, badType)), Contact(Photo(good, ""))];
      var os := Outcomes(folder, book, decode, writeOk);
      WrittenFiles(os) == [ImageFile(folder + "/1", [0, 0, 0])] && Logs(os) == [CouldNotDecode]
  {
    var book := [Contact(Photo(bad, badType)), Contact(Photo(good, ""))];
    var os := Outcomes(folder, book, decode, writeOk);
    ExtensionEmpty("");
    IndexOneNames(folder);
    var f := ImageFile(folder + "/1", [0, 0, 0]);
    TwoContacts(folder, book[0], book[1], decode, writeOk);
    assert os == [DecodeFailed, Written(f)];
    TwoOutcomes(os);
  }

  /** The outcomes of a book of two contacts. */
  lemma TwoContacts(folder: string, c0: Contact, c1: Contact, decode: Decoder, writeOk: Writer)
    ensures Outcomes(folder, [c0, c1], decode, writeOk)
         == [ContactOutcome(folder, 0, c0, decode, writeOk), ContactOutcome(folder, 1, c1, decode, writeOk)]
  {
    OutcomeAt(folder, [c0, c1], decode, writeOk, 0);
    OutcomeAt(folder, [c0, c1], decode, writeOk, 1);
  }

  /** What a book of two contacts writes and logs, from their two outcomes. */
  lemma TwoOutcomes(os: seq<Outcome>)
    requires |os| == 2
    ensures WrittenFiles(os) == (if os[0].Written? then [os[0].file] else []) + (if os[1].Written? then [os[1].file] else [])
    ensures Logs(os) == OutcomeLog(os[0]) + OutcomeLog(os[1])
  {
    var first := os[..1];
    assert first + [os[1]] == os;
    assert [] + [os[0]] == first;
    RecordOutcome([], os[0]);
    RecordOutcome(first, os[1]);
  }
}
