/** The image reader (components/generic_main/filesystem_generator/fs_read.c) and the round trip through an image. */
module FsRead {
  import opened Bytes
  import opened DirTree
  import opened FsFormat
  import opened FsGen
  import opened Inflate

  /** What a search of the table ends with; BadImage is an access outside the image. */
  datatype Search = Found(entry: Entry) | NotFound | BadImage

  function WordAt(image: seq<byte>, at: nat): (r: nat)
    requires at + 4 <= |image|
  {
    FromLe32(image[at..at + 4])
  }

  function EntryAtOffset(image: seq<byte>, at: nat): (r: Entry)
    requires at + 20 <= |image|
  {
    Entry(WordAt(image, at), WordAt(image, at + 4), WordAt(image, at + 8), WordAt(image, at + 12),
          WordAt(image, at + 16))
  }

  datatype Named = Named(entry: Entry, name: Path)

  /** The i-th entry and the name it points at; None is an access outside the image. */
  function SlotAt(image: seq<byte>, tableAt: nat, i: nat): (r: Option<Named>)
  {
    if tableAt + 20 * i + 20 > |image| then None
    else
      var e := EntryAtOffset(image, tableAt + 20 * i);
      if e.nameOffset > |image| then None
      else
        var name := CString(image[e.nameOffset..]);
        if name.None? then None else Some(Named(e, name.value))
  }

  /** Linear search of the table from its i-th entry. */
  function SearchFrom(image: seq<byte>, path: Path, tableAt: nat, i: nat, n: nat): (r: Search)
    decreases n - i
  {
    if i >= n then NotFound
    else
      match SlotAt(image, tableAt, i)
      case None => BadImage
      case Some(slot) => if slot.name == path then Found(slot.entry) else SearchFrom(image, path, tableAt, i + 1, n)
  }

  /** The bytes an entry stands for; None is an access outside the image. */
  function Contents(lib: Zlib, image: seq<byte>, e: Entry): (r: Option<seq<byte>>)
  {
    if e.code == Code(Plain) then
      if e.dataOffset + e.size <= |image| then Some(image[e.dataOffset..e.dataOffset + e.size]) else None
    else if e.code == Code(Deflated) then
      if e.dataOffset + e.compressedSize <= |image| then
        Some(lib.meaning(image[e.dataOffset..e.dataOffset + e.compressedSize]))
      else None
    else Some([])
  }

  // Reading a generated image.

  function FirstWith(files: seq<Stored>, path: Path, i: nat): (r: Option<nat>)
    ensures r.Some? ==> i <= r.value < |files| && files[r.value].path == path
    ensures r.Some? ==> forall k :: i <= k < r.value ==> files[k].path != path
    ensures r.None? ==> forall k :: i <= k < |files| ==> files[k].path != path
    decreases |files| - i
  {
    if i >= |files| then None else if files[i].path == path then Some(i) else FirstWith(files, path, i + 1)
  }

  lemma WordReads(s: seq<byte>, at: nat, x: nat)
    requires at + 4 <= |s| && s[at..at + 4] == Le32(x) && x < 0x1_0000_0000
    ensures WordAt(s, at) == x
  {
    Le32RoundTrip(x);
  }

  ghost predicate Representable(e: Entry)
  {
    && e.nameOffset < 0x1_0000_0000 && e.dataOffset < 0x1_0000_0000 && e.compressedSize < 0x1_0000_0000
    && e.size < 0x1_0000_0000 && e.code < 0x1_0000_0000
  }

  /** An entry reads back from its bytes, wherever they are. */
  lemma EntryReads(image: seq<byte>, at: nat, e: Entry)
    requires at + 20 <= |image| && image[at..at + 20] == EntryBytes(e) && Representable(e)
    ensures EntryAtOffset(image, at) == e
  {
    var s := EntryBytes(e);
    SliceOfSlice(image, at, at + 20, 0, 4);
    SliceOfSlice(image, at, at + 20, 4, 8);
    SliceOfSlice(image, at, at + 20, 8, 12);
    SliceOfSlice(image, at, at + 20, 12, 16);
    SliceOfSlice(image, at, at + 20, 16, 20);
    assert s[0..4] == Le32(e.nameOffset) && s[4..8] == Le32(e.dataOffset) && s[8..12] == Le32(e.compressedSize)
        && s[12..16] == Le32(e.size) && s[16..20] == Le32(e.code);
    WordReads(image, at, e.nameOffset);
    WordReads(image, at + 4, e.dataOffset);
    WordReads(image, at + 8, e.compressedSize);
    WordReads(image, at + 12, e.size);
    WordReads(image, at + 16, e.code);
  }

  /** Every field of an entry below the maximum size fits its word. */
  lemma EntryIsRepresentable(lib: Zlib, files: seq<Stored>, k: nat)
    requires k < |files| && TableAt(lib, files) <= MAXIMUM_SIZE
    ensures Representable(Entries(lib, files)[k])
  {
    EntryAt(lib, files, k);
    StartOfNext(lib, files, k);
    StartsIncrease(lib, files, k + 1, |files|);
  }

  ghost predicate HasRecord(lib: Zlib, image: seq<byte>, from: nat, f: Stored)
  {
    from + |Record(lib, f)| <= |image| && image[from..from + |Record(lib, f)|] == Record(lib, f)
  }

  lemma HeaderReads(lib: Zlib, magic: seq<byte>, files: seq<Stored>)
    requires |magic| == COUNT_AT && |ImageOf(lib, magic, files)| <= MAXIMUM_SIZE
    ensures WordAt(ImageOf(lib, magic, files), COUNT_AT) == |files|
    ensures WordAt(ImageOf(lib, magic, files), TABLE_OFFSET_AT) == TableAt(lib, files)
  {
    hide Le32, ImageOf;
    var image, head := ImageOf(lib, magic, files), HeaderBytes(magic, |files|, TableAt(lib, files));
    ImageParts(lib, magic, files);
    SliceOfSlice(image, 0, HEADER_SIZE, COUNT_AT, TABLE_OFFSET_AT);
    SliceOfSlice(image, 0, HEADER_SIZE, TABLE_OFFSET_AT, HEADER_SIZE);
    assert image[0..HEADER_SIZE] == head;
    assert head[COUNT_AT..TABLE_OFFSET_AT] == Le32(|files|);
    assert head[TABLE_OFFSET_AT..HEADER_SIZE] == Le32(TableAt(lib, files));
    WordReads(image, COUNT_AT, |files|);
    WordReads(image, TABLE_OFFSET_AT, TableAt(lib, files));
  }

  lemma SlotInRest(image: seq<byte>, at: nat, table: seq<byte>, k: nat, slot: seq<byte>)
    requires at <= |image| && image[at..] == table && 20 * k + 20 <= |table| && table[20 * k..20 * k + 20] == slot
    ensures image[at + 20 * k..at + 20 * k + 20] == slot
  {
    SliceOfRest(image, at, 20 * k, 20 * k + 20);
  }

  lemma SlotBytes(image: seq<byte>, at: nat, entries: seq<Entry>, k: nat)
    requires at <= |image| && image[at..] == TableBytes(entries) && k < |entries|
    ensures at + 20 * k + 20 <= |image|
    ensures image[at + 20 * k..at + 20 * k + 20] == EntryBytes(entries[k])
  {
    TableEntryAt(entries, k);
    SlotInRest(image, at, TableBytes(entries), k, EntryBytes(entries[k]));
  }

  /** The k-th slot of the table holds the k-th file's entry, and its record is where the entry says. */
  ghost predicate DescribesFile(lib: Zlib, image: seq<byte>, files: seq<Stored>, k: nat)
    requires k < |files|
  {
    var at, from := TableAt(lib, files) + 20 * k, StartOf(lib, files, k);
    var e := EntryFor(lib, files[k], from);
    at + 20 <= |image| && image[at..at + 20] == EntryBytes(e) && Representable(e)
    && HasRecord(lib, image, from, files[k])
  }

  /** An image whose header, table and records describe `files`. */
  ghost predicate Describes(lib: Zlib, image: seq<byte>, files: seq<Stored>)
  {
    && HEADER_SIZE <= |image|
    && WordAt(image, COUNT_AT) == |files| && WordAt(image, TABLE_OFFSET_AT) == TableAt(lib, files)
    && forall k :: 0 <= k < |files| ==> DescribesFile(lib, image, files, k)
  }

  lemma ImageSlot(lib: Zlib, magic: seq<byte>, files: seq<Stored>, k: nat)
    requires |magic| == COUNT_AT && |ImageOf(lib, magic, files)| <= MAXIMUM_SIZE && k < |files|
    ensures DescribesFile(lib, ImageOf(lib, magic, files), files, k)
  {
    hide Le32, EntryBytes, TableBytes, ImageOf, Entries;
    ImageParts(lib, magic, files);
    SlotBytes(ImageOf(lib, magic, files), TableAt(lib, files), Entries(lib, files), k);
    EntryIsRepresentable(lib, files, k);
    EntryAt(lib, files, k);
    RecordAt(lib, magic, files, k);
  }

  /** The image of some files describes them. */
  lemma ImageDescribes(lib: Zlib, magic: seq<byte>, files: seq<Stored>)
    requires |magic| == COUNT_AT && |ImageOf(lib, magic, files)| <= MAXIMUM_SIZE
    ensures Describes(lib, ImageOf(lib, magic, files), files)
  {
    HeaderReads(lib, magic, files);
    forall k | 0 <= k < |files| ensures DescribesFile(lib, ImageOf(lib, magic, files), files, k) {
      ImageSlot(lib, magic, files, k);
    }
  }

  /** An unsigned value in four bytes, the first of them the least significant. */
  ghost predicate Word(image: seq<byte>, at: nat, x: int)
  {
    at + 4 <= |image| && x == image[at] as int + 0x100 * (image[at + 1] as int) + 0x1_0000 * (image[at + 2] as int)
                             + 0x100_0000 * (image[at + 3] as int)
  }

  /** The five words of an entry. */
  ghost predicate EntryPacked(image: seq<byte>, at: nat, e: Entry)
  {
    && Word(image, at, e.nameOffset) && Word(image, at + 4, e.dataOffset) && Word(image, at + 8, e.compressedSize)
    && Word(image, at + 12, e.size) && Word(image, at + 16, e.code)
  }

  /** The bytes of a file: its name, a zero, and what is stored of it by its size. */
  ghost predicate FilePacked(lib: Zlib, image: seq<byte>, f: Stored, e: Entry)
  {
    && 88 <= e.nameOffset && e.nameOffset + |f.path| + 1 + e.compressedSize <= |image|
    && image[e.nameOffset..e.nameOffset + |f.path|] == f.path && image[e.nameOffset + |f.path|] == 0
    && e.size == |f.data| % 0x1_0000_0000
    && if |f.data| == 0 then e.code == 1 && e.compressedSize == 0 && e.dataOffset == 0
       else
         && e.dataOffset == e.nameOffset + |f.path| + 1
         && image[e.dataOffset..e.dataOffset + e.compressedSize]
            == (if |f.data| < 100 then f.data else lib.compress(f.data))
         && e.code == if |f.data| < 100 then 0 else 2
  }

  lemma WordIsWord(image: seq<byte>, at: nat)
    requires at + 4 <= |image|
    ensures Word(image, at, WordAt(image, at))
  {
    var s := image[at..at + 4];
    assert s[0] == image[at] && s[1] == image[at + 1] && s[2] == image[at + 2] && s[3] == image[at + 3];
  }

  lemma EntryWords(image: seq<byte>, at: nat)
    requires at + 20 <= |image|
    ensures EntryPacked(image, at, EntryAtOffset(image, at))
  {
    hide WordAt, Word;
    WordIsWord(image, at);
    WordIsWord(image, at + 4);
    WordIsWord(image, at + 8);
    WordIsWord(image, at + 12);
    WordIsWord(image, at + 16);
  }

  /** A record in the image, byte by byte. */
  lemma RecordBytes(lib: Zlib, image: seq<byte>, from: nat, f: Stored)
    requires HasRecord(lib, image, from, f)
    ensures var at, data := from + |f.path|, StoredData(lib, f.data);
      && at + 1 + |data| <= |image|
      && image[from..at] == f.path && image[at] == 0 && image[at + 1..at + 1 + |data|] == data
  {
    var rec, stored := Record(lib, f), StoredData(lib, f.data);
    hide StoredData;
    SliceOfSlice(image, from, from + |rec|, 0, |f.path|);
    SliceOfSlice(image, from, from + |rec|, |f.path| + 1, |rec|);
    assert rec[0..|f.path|] == f.path && rec[|f.path| + 1..|rec|] == stored;
    assert image[from + |f.path|] == rec[|f.path|];
  }

  lemma RecordIsPacked(lib: Zlib, image: seq<byte>, from: nat, f: Stored)
    requires HasRecord(lib, image, from, f) && 88 <= from
    ensures FilePacked(lib, image, f, EntryFor(lib, f, from))
  {
    RecordBytes(lib, image, from, f);
    hide HasRecord;
  }

  lemma SlotIsPacked(lib: Zlib, image: seq<byte>, files: seq<Stored>, k: nat)
    requires k < |files| && DescribesFile(lib, image, files, k)
    ensures var e := EntryFor(lib, files[k], StartOf(lib, files, k));
      EntryPacked(image, TableAt(lib, files) + 20 * k, e) && FilePacked(lib, image, files[k], e)
  {
    var from, at := StartOf(lib, files, k), TableAt(lib, files) + 20 * k;
    assert 88 <= from;
    hide Le32, EntryBytes, TableAt, StartOf, EntryAtOffset, HasRecord, EntryPacked, FilePacked, EntryFor, Record;
    EntryReads(image, at, EntryFor(lib, files[k], from));
    EntryWords(image, at);
    RecordIsPacked(lib, image, from, files[k]);
  }

  lemma MagicFirst(magic: seq<byte>, count: nat, table: nat)
    requires |magic| == 80
    ensures HeaderBytes(magic, count, table)[..80] == magic
  {
  }

  lemma HeaderIsPacked(lib: Zlib, magic: seq<byte>, files: seq<Stored>)
    requires |magic| == 80 && |ImageOf(lib, magic, files)| <= 4 * 1024 * 1024
    ensures var image, table := ImageOf(lib, magic, files), TableAt(lib, files);
      image[..80] == magic && Word(image, 80, |files|) && Word(image, 84, table) && table % 4 == 0
  {
    var image := ImageOf(lib, magic, files);
    assert |image| >= 88;
    hide *;
    ImageParts(lib, magic, files);
    HeaderReads(lib, magic, files);
    MagicFirst(magic, |files|, TableAt(lib, files));
    TableAligned(lib, files);
    TakeOfTake(image, 80, 88);
    WordIsWord(image, 80);
    WordIsWord(image, 84);
  }

  lemma TableAligned(lib: Zlib, files: seq<Stored>)
    ensures TableAt(lib, files) % 4 == 0
  {
    hide StartOf;
  }

  lemma TakeOfTake(s: seq<byte>, a: nat, b: nat)
    requires a <= b <= |s|
    ensures s[..b][..a] == s[..a]
  {
  }

  /**
   * Where everything is in an image. The header has the number of files at 80 and the place of the table at 84; the
   * k-th 20 bytes there are an entry, which leads to the k-th file.
   */
  lemma FileIsPacked(lib: Zlib, magic: seq<byte>, files: seq<Stored>, k: nat)
    requires |magic| == 80 && |ImageOf(lib, magic, files)| <= 4 * 1024 * 1024 && k < |files|
    ensures var image, table, e :=
        ImageOf(lib, magic, files), TableAt(lib, files), EntryFor(lib, files[k], StartOf(lib, files, k));
      && image[..80] == magic && Word(image, 80, |files|) && Word(image, 84, table) && table % 4 == 0
      && EntryPacked(image, table + 20 * k, e) && FilePacked(lib, image, files[k], e)
  {
    hide ImageOf, TableAt, StartOf, EntryFor, EntryPacked, FilePacked, Word, DescribesFile;
    HeaderIsPacked(lib, magic, files);
    ImageDescribes(lib, magic, files);
    SlotIsPacked(lib, ImageOf(lib, magic, files), files, k);
  }

  lemma NameReads(lib: Zlib, image: seq<byte>, from: nat, f: Stored)
    requires HasRecord(lib, image, from, f) && IsCString(f.path)
    ensures CString(image[from..]) == Some(f.path)
  {
    var n, rec := |Record(lib, f)|, Record(lib, f);
    SliceOfSlice(image, from, from + n, 0, |f.path|);
    assert rec[0..|f.path|] == f.path;
    assert image[from + |f.path|] == rec[|f.path|];
    assert image[from..][..|f.path|] == image[from..from + |f.path|];
    CStringOf(image[from..], f.path);
  }

  /** What a file's entry points at is the file's data. */
  lemma ContentsRead(lib: Zlib, image: seq<byte>, from: nat, f: Stored)
    requires lib.Inverse() && HasRecord(lib, image, from, f)
    ensures Contents(lib, image, EntryFor(lib, f, from)) == Some(f.data)
  {
    var rec, stored, at := Record(lib, f), StoredData(lib, f.data), |f.path| + 1;
    assert rec[at..|rec|] == stored;
    SliceOfSlice(image, from, from + |rec|, at, |rec|);
    assert image[from + at..from + at + |stored|] == stored;
    match MethodOf(f.data) {
      case ZeroLength =>
      case Plain => assert |f.data| % 0x1_0000_0000 == |f.data|;
      case Deflated =>
    }
  }

  /** One step of the search. */
  lemma SearchStep(lib: Zlib, image: seq<byte>, files: seq<Stored>, path: Path, i: nat)
    requires Describes(lib, image, files) && i < |files| && IsCString(files[i].path)
    ensures SearchFrom(image, path, TableAt(lib, files), i, |files|)
         == if files[i].path == path then Found(EntryFor(lib, files[i], StartOf(lib, files, i)))
            else SearchFrom(image, path, TableAt(lib, files), i + 1, |files|)
  {
    hide Le32, FromLe32, WordAt, EntryBytes, EntryAtOffset, Record, CString, StoredData, TableAt, StartOf;
    assert DescribesFile(lib, image, files, i);
    EntryReads(image, TableAt(lib, files) + 20 * i, EntryFor(lib, files[i], StartOf(lib, files, i)));
    NameReads(lib, image, StartOf(lib, files, i), files[i]);
  }

  /** Searching the image of some files finds the first one stored under a path, and nothing else. */
  lemma {:induction false} SearchFinds(lib: Zlib, image: seq<byte>, files: seq<Stored>, path: Path, i: nat)
    requires Describes(lib, image, files) && i <= |files|
    requires forall f :: f in files ==> IsCString(f.path)
    ensures SearchFrom(image, path, TableAt(lib, files), i, |files|)
         == match FirstWith(files, path, i)
            case None => NotFound
            case Some(k) => Found(EntryFor(lib, files[k], StartOf(lib, files, k)))
    decreases |files| - i
  {
    hide Describes, SearchFrom, EntryFor, StartOf, TableAt, IsCString;
    if i < |files| {
      SearchStep(lib, image, files, path, i);
      SearchFinds(lib, image, files, path, i + 1);
    } else {
      SearchEnds(image, path, TableAt(lib, files), i);
    }
  }

  lemma SearchEnds(image: seq<byte>, path: Path, tableAt: nat, n: nat)
    ensures SearchFrom(image, path, tableAt, n, n) == NotFound
  {
  }

  // The reader.

  /** What the reader does with a path: print a file's bytes, report it missing, or run off a malformed image. */
  datatype Reading = Printed(bytes: seq<byte>) | Missing | Fault

  function Lookup(lib: Zlib, image: seq<byte>, path: Path): (r: Reading)
  {
    if |image| < HEADER_SIZE then Fault
    else
      match SearchFrom(image, path, WordAt(image, TABLE_OFFSET_AT), 0, WordAt(image, COUNT_AT))
      case NotFound => Missing
      case BadImage => Fault
      case Found(e) =>
        match Contents(lib, image, e) case None => Fault case Some(bytes) => Printed(bytes)
  }

  /** Print one entry's file, inflating it where it is compressed. */
  method ReadFile(lib: Zlib, image: seq<byte>, e: Entry) returns (out: Option<seq<byte>>)
    requires lib.Contract()
    ensures out == Contents(lib, image, e)
  {
    if e.code == Code(Plain) {
      out := if e.dataOffset + e.size <= |image| then Some(image[e.dataOffset..e.dataOffset + e.size]) else None;
    } else if e.code == Code(Deflated) {
      if e.dataOffset + e.compressedSize > |image| {
        return None;
      }
      var stream := image[e.dataOffset..e.dataOffset + e.compressedSize];
      var result, consumed, slices, steps := DecompressMemToCallback(lib, stream, (_: seq<seq<byte>>) => true, true);
      out := Some(Flatten(slices));
    } else {
      out := Some([]);
    }
  }

  /** The lookup loop, which stops at the first entry whose name is `path`. */
  method FindEntry(image: seq<byte>, path: Path) returns (search: Search)
    requires HEADER_SIZE <= |image|
    ensures search == SearchFrom(image, path, WordAt(image, TABLE_OFFSET_AT), 0, WordAt(image, COUNT_AT))
  {
    hide FromLe32, WordAt, SlotAt;
    var count, tableAt := WordAt(image, COUNT_AT), WordAt(image, TABLE_OFFSET_AT);
    var i := 0;
    while i < count
      invariant i <= count
      invariant SearchFrom(image, path, tableAt, 0, count) == SearchFrom(image, path, tableAt, i, count)
    {
      var slot := SlotAt(image, tableAt, i);
      if slot.None? {
        return BadImage;
      }
      if slot.value.name == path {
        return Found(slot.value.entry);
      }
      i := i + 1;
    }
    search := NotFound;
  }

  /** The reader's main program: search the table, print the file found. */
  method Read(lib: Zlib, image: seq<byte>, path: Path) returns (reading: Reading)
    requires lib.Contract()
    ensures reading == Lookup(lib, image, path)
  {
    if |image| < HEADER_SIZE {
      return Fault;
    }
    var search := FindEntry(image, path);
    match search {
      case NotFound => reading := Missing;
      case BadImage => reading := Fault;
      case Found(e) =>
        var bytes := ReadFile(lib, image, e);
        reading := if bytes.Some? then Printed(bytes.value) else Fault;
    }
  }

  // The round trip.

  /** Reading the image of some files gives the first one stored under the path. */
  lemma ReadingImage(lib: Zlib, magic: seq<byte>, files: seq<Stored>, path: Path)
    requires lib.Inverse() && |magic| == COUNT_AT && |ImageOf(lib, magic, files)| <= MAXIMUM_SIZE
    requires forall f :: f in files ==> IsCString(f.path)
    ensures Lookup(lib, ImageOf(lib, magic, files), path)
         == match FirstWith(files, path, 0) case None => Missing case Some(k) => Printed(files[k].data)
  {
    hide ImageOf, Le32, FromLe32, WordAt, EntryBytes, Record, StoredData, EntryFor, SearchFrom, Contents;
    var image := ImageOf(lib, magic, files);
    ImageDescribes(lib, magic, files);
    SearchFinds(lib, image, files, path, 0);
    var first := FirstWith(files, path, 0);
    if first.Some? {
      assert DescribesFile(lib, image, files, first.value);
      ContentsRead(lib, image, StartOf(lib, files, first.value), files[first.value]);
    }
  }

  /** A path names a regular file of the source directory with these bytes. */
  ghost predicate InTree(source: seq<Node>, path: Path, data: seq<byte>)
  {
    exists names :: Holds(source, names, data) && names != [] && path == PathOf(None, names)
  }

  /** The reader prints exactly what the tree holds under the path, and ends well. */
  ghost predicate RoundTrips(lib: Zlib, image: seq<byte>, source: seq<Node>, path: Path)
  {
    var reading := Lookup(lib, image, path);
    (forall data :: reading == Printed(data) <==> InTree(source, path, data)) && reading != Fault
  }

  /**
   * The round trip. Pack any directory tree and read any path back from the image: the reader prints data if
   * and only if the tree holds a regular file with that pathname and that data, and reports the path missing
   * otherwise.
   */
  lemma RoundTrip(lib: Zlib, magic: seq<byte>, source: seq<Node>, path: Path)
    requires lib.Inverse() && |magic| == COUNT_AT
    requires WellFormed(source) && PathsFit(source, None, 1023)
    requires |ImageOf(lib, magic, Walk(source, None, Some(PATH_LIMIT)))| <= 4 * 1024 * 1024
    ensures RoundTrips(lib, ImageOf(lib, magic, Walk(source, None, Some(PATH_LIMIT))), source, path)
  {
    hide ImageOf, Lookup, Walk, WellFormed, InTree;
    var files := Walk(source, None, None);
    BufferIsHarmless(source, None, PATH_LIMIT);
    WalkCStrings(source, None, None);
    ReadingImage(lib, magic, files, path);
    forall data
      ensures InTree(source, path, data) <==>
        FirstWith(files, path, 0).Some? && files[FirstWith(files, path, 0).value].data == data
    {
      FirstIsInTree(source, path, data);
    }
  }

  /** The first file walked that has a path is the file of the tree with that path. */
  lemma FirstIsInTree(source: seq<Node>, path: Path, data: seq<byte>)
    requires WellFormed(source)
    ensures var files := Walk(source, None, None);
      InTree(source, path, data) <==>
        FirstWith(files, path, 0).Some? && files[FirstWith(files, path, 0).value].data == data
  {
    hide Walk, Holds, PathOf, WellFormed;
    var files := Walk(source, None, None);
    WalkDistinct(source, None);
    var first := FirstWith(files, path, 0);
    if first.Some? {
      var names := WalkSound(source, None, first.value);
    }
    if InTree(source, path, data) {
      var names :| Holds(source, names, data) && names != [] && path == PathOf(None, names);
      WalkComplete(source, None, names, data);
      var k :| 0 <= k < |files| && files[k] == Stored(path, data);
    }
  }

  /** A pathname that does not fit the walk's buffer cannot be found, though the tree may hold a file there. */
  lemma LongPathIsMissing(lib: Zlib, magic: seq<byte>, source: seq<Node>, path: Path)
    requires lib.Inverse() && |magic| == COUNT_AT && WellFormed(source) && |path| > PATH_LIMIT
    requires |ImageOf(lib, magic, Walk(source, None, Some(PATH_LIMIT)))| <= MAXIMUM_SIZE
    ensures Lookup(lib, ImageOf(lib, magic, Walk(source, None, Some(PATH_LIMIT))), path) == Missing
  {
    hide ImageOf, Walk, Lookup, WellFormed;
    var packed := Walk(source, None, Some(PATH_LIMIT));
    WalkCStrings(source, None, Some(PATH_LIMIT));
    ReadingImage(lib, magic, packed, path);
    var first := FirstWith(packed, path, 0);
    if first.Some? {
      WalkTruncated(source, None, PATH_LIMIT, first.value);
    }
  }

  /** A file that is walked is in the tree. */
  lemma WalkedIsInTree(source: seq<Node>, k: nat)
    requires k < |Walk(source, None, None)|
    ensures InTree(source, Walk(source, None, None)[k].path, Walk(source, None, None)[k].data)
  {
    hide Walk, Holds, PathOf;
    var names := WalkSound(source, None, k);
  }

  /** The packed pathnames fit the walk's buffer exactly when every path of the tree makes the round trip. */
  lemma RoundTripExact(lib: Zlib, magic: seq<byte>, source: seq<Node>)
    requires lib.Inverse() && |magic| == COUNT_AT && WellFormed(source)
    requires |ImageOf(lib, magic, Walk(source, None, Some(PATH_LIMIT)))| <= MAXIMUM_SIZE
    ensures PathsFit(source, None, 1023) <==>
      forall path :: RoundTrips(lib, ImageOf(lib, magic, Walk(source, None, Some(PATH_LIMIT))), source, path)
  {
    hide ImageOf, Walk, Lookup, InTree, WellFormed;
    var image, full := ImageOf(lib, magic, Walk(source, None, Some(PATH_LIMIT))), Walk(source, None, None);
    if PathsFit(source, None, 1023) {
      forall path ensures RoundTrips(lib, image, source, path) {
        RoundTrip(lib, magic, source, path);
      }
    } else {
      var k :| 0 <= k < |full| && |full[k].path| > PATH_LIMIT;
      WalkedIsInTree(source, k);
      LongPathIsMissing(lib, magic, source, full[k].path);
      assert !RoundTrips(lib, image, source, full[k].path);
    }
  }

  // A tree whose pathnames are too long.

  /** As long as a name can be on the usual file systems. */
  function LongName(): (r: Path)
    ensures |r| == 255 && forall k :: 0 <= k < 255 ==> r[k] == 97
  {
    seq(255, _ => 97)
  }

  /** An empty file below n directories, all of them with the longest name a directory entry can have. */
  function Nested(n: nat): (r: seq<Node>)
    ensures |r| == 1 && r[0].name == LongName()
  {
    [if n == 0 then File(LongName(), []) else Dir(LongName(), Nested(n - 1))]
  }

  lemma {:induction false} NestedWalk(n: nat, dir: Option<Path>)
    ensures |Walk(Nested(n), dir, None)| == 1 && Walk(Nested(n), dir, None)[0].data == []
    ensures |Walk(Nested(n), dir, None)[0].path| == 256 * n + |Join(dir, LongName())|
    ensures WellFormed(Nested(n))
  {
    var source, none: seq<Node> := Nested(n), [];
    assert source[..0] == none && Walk(none, dir, None) == [];
    assert Walk(source, dir, None) == Walk(source[..0], dir, None) + WalkNode(source[0], dir, None);
    assert !Skipped(LongName()) && ProperName(LongName());
    if n > 0 {
      NestedWalk(n - 1, Some(Join(dir, LongName())));
    }
  }

  /** The image of one file has its record, the header, one table entry and padding. */
  lemma OneFileImage(lib: Zlib, magic: seq<byte>, f: Stored)
    requires |magic| == COUNT_AT
    ensures |ImageOf(lib, magic, [f])| <= HEADER_SIZE + |Record(lib, f)| + 23
  {
    assert [f][..0] == [] && [f][..1] == [f];
    assert Body(lib, [f]) == Body(lib, []) + Record(lib, f);
  }

  /** An empty file below four directories with names of 255 bytes is packed and cannot be found. */
  lemma LongPathIsLost(lib: Zlib, magic: seq<byte>) returns (source: seq<Node>, path: Path)
    requires lib.Inverse() && |magic| == COUNT_AT
    ensures WellFormed(source) && |ImageOf(lib, magic, Walk(source, None, Some(PATH_LIMIT)))| <= MAXIMUM_SIZE
    ensures |path| == 1279 && InTree(source, path, [])
    ensures Lookup(lib, ImageOf(lib, magic, Walk(source, None, Some(PATH_LIMIT))), path) == Missing
  {
    source := Nested(4);
    NestedWalk(4, None);
    NestedFits(lib, magic);
    hide *;
    path := Walk(source, None, None)[0].path;
    WalkedIsInTree(source, 0);
    LongPathIsMissing(lib, magic, source, path);
  }

  lemma NestedFits(lib: Zlib, magic: seq<byte>)
    requires |magic| == COUNT_AT
    ensures |ImageOf(lib, magic, Walk(Nested(4), None, Some(PATH_LIMIT)))| <= MAXIMUM_SIZE
  {
    var source := Nested(4);
    NestedWalk(4, None);
    hide Walk, ImageOf, WellFormed, Nested;
    var packed := Walk(source, None, Some(PATH_LIMIT));
    WalkLength(source, None, None, None, Some(PATH_LIMIT));
    WalkTruncated(source, None, PATH_LIMIT, 0);
    WalkData(source, None, None, None, Some(PATH_LIMIT), 0);
    assert packed == [packed[0]];
    OneFileImage(lib, magic, packed[0]);
  }

  /** Generating an image and reading a path back from it. */
  method PackAndRead(lib: Zlib, magic: seq<byte>, source: seq<Node>, path: Path)
    returns (outcome: Outcome, reading: Reading)
    requires lib.Contract() && lib.Inverse() && |magic| == COUNT_AT
    requires WellFormed(source) && PathsFit(source, None, 1023)
    ensures outcome == Ok ==>
      (forall data :: reading == Printed(data) <==> InTree(source, path, data)) && reading != Fault
    ensures outcome == Ok <==> |ImageOf(lib, magic, Walk(source, None, None))| <= 4 * 1024 * 1024
  {
    BufferIsHarmless(source, None, PATH_LIMIT);
    var image;
    outcome, image := Generate(lib, magic, source);
    reading := Missing;
    if outcome == Ok {
      RoundTrip(lib, magic, source, path);
      reading := Read(lib, image, path);
    }
  }
}
