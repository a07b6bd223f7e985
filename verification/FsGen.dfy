/** The filesystem generator (components/generic_main/filesystem_generator/fs_gen.c). */
module FsGen {
  import opened Bytes
  import opened DirTree
  import opened FsFormat
  import opened Inflate

  const INITIAL_ENTRIES: nat := 100

  // "gif", "gz", "jpg", "jpeg", "png", "tif", "tiff", "webp"
  const DO_NOT_COMPRESS: seq<seq<byte>> := [
    [103, 105, 102], [103, 122], [106, 112, 103], [106, 112, 101, 103],
    [112, 110, 103], [116, 105, 102], [116, 105, 102, 102], [119, 101, 98, 112]]

  /** The text from the last '.' on. */
  function FromLastDot(name: seq<byte>): (r: Option<seq<byte>>)
    ensures r.Some? ==> r.value != [] && r.value[0] == DOT
    ensures r.None? <==> DOT !in name
  {
    if name == [] then None
    else
      var rest := FromLastDot(name[1..]);
      if rest.Some? then rest else if name[0] == DOT then Some(name) else None
  }

  /** The suffix scan compares suffixes listed without a dot with text that starts with one, so it never matches. */
  method HasListedSuffix(name: seq<byte>) returns (listed: bool)
    ensures !listed
  {
    listed := false;
    var dot := FromLastDot(name);
    if dot.Some? {
      for i := 0 to |DO_NOT_COMPRESS|
        invariant !listed
      {
        if DO_NOT_COMPRESS[i] == dot.value {
          listed := true;
          break;
        }
      }
    }
  }

  class Generator {
    const lib: Zlib
    const magic: seq<byte>
    const image: array<byte>
    var output: nat
    var entries: array<Entry>
    var entryIndex: nat
    ghost var files: seq<Stored>

    /** The entries collected so far describe `files`. */
    ghost predicate Listing()
      reads this, entries
    {
      && entryIndex == |files| <= entries.Length && 0 < entries.Length
      && entries[..entryIndex] == Entries(lib, files)
    }

    ghost predicate Valid()
      reads this, image, entries
    {
      && |magic| == COUNT_AT
      && image.Length == MAXIMUM_SIZE && output == StartOf(lib, files, |files|)
      && Written(image[..], magic, |files|, Body(lib, files))
      && Listing()
    }

    constructor (lib: Zlib, magic: seq<byte>)
      requires |magic| == COUNT_AT
      ensures Valid() && files == [] && this.lib == lib && this.magic == magic && fresh(image) && fresh(entries)
    {
      this.lib, this.magic := lib, magic;
      image := new byte[MAXIMUM_SIZE](_ => 0);
      entries := new Entry[INITIAL_ENTRIES](_ => Entry(0, 0, 0, 0, 0));
      output, entryIndex, files := HEADER_SIZE, 0, [];
      new;
      FreshImage(image[..], magic);
      Copy(0, magic);
    }

    /** memcpy into the image. */
    method Copy(at: nat, bytes: seq<byte>)
      requires at + |bytes| <= image.Length
      modifies image
      ensures image[..] == Overwrite(old(image[..]), at, bytes)
    {
      forall k | 0 <= k < |bytes| {
        image[at + k] := bytes[k];
      }
    }

    /** Copy to the output pointer and advance it. */
    method Append(bytes: seq<byte>, ghost n: nat, ghost body: seq<byte>)
      requires |magic| == COUNT_AT && image.Length == MAXIMUM_SIZE
      requires Written(image[..], magic, n, body) && output == HEADER_SIZE + |body|
      requires output + |bytes| <= MAXIMUM_SIZE
      modifies this`output, image
      ensures Written(image[..], magic, n, body + bytes) && output == HEADER_SIZE + |body + bytes|
    {
      AppendWrites(image[..], magic, n, body, bytes);
      Copy(output, bytes);
      output := output + |bytes|;
    }

    /** Add one to the header's number of files. */
    method CountFile(ghost n: nat, ghost body: seq<byte>)
      requires |magic| == COUNT_AT && image.Length == MAXIMUM_SIZE
      requires Written(image[..], magic, n, body) && n + 1 < 0x1_0000_0000
      modifies image
      ensures Written(image[..], magic, n + 1, body)
    {
      CountWrites(image[..], magic, n, body);
      assert image[..][COUNT_AT..TABLE_OFFSET_AT] == image[COUNT_AT..TABLE_OFFSET_AT];
      var count := FromLe32(image[COUNT_AT..TABLE_OFFSET_AT]);
      Copy(COUNT_AT, Le32(count + 1));
    }

    /** Double the table when it is full. */
    method Grow()
      requires Listing()
      modifies this`entries
      ensures Listing() && entryIndex < entries.Length
      ensures entries == old(entries) || fresh(entries)
    {
      if entryIndex >= entries.Length {
        var larger := new Entry[2 * entries.Length](_ => Entry(0, 0, 0, 0, 0));
        forall k | 0 <= k < entries.Length {
          larger[k] := entries[k];
        }
        assert larger[..entryIndex] == entries[..entryIndex];
        entries := larger;
      }
    }

    /** Use the table's next slot. */
    method AddEntry(e: Entry, ghost f: Stored)
      requires Listing() && e == EntryFor(lib, f, StartOf(lib, files, |files|))
      modifies this`entries, this`entryIndex, this`files, entries
      ensures Listing() && files == old(files) + [f]
      ensures entries == old(entries) || fresh(entries)
    {
      hide Body, StartOf, Entries, EntryFor;
      Grow();
      TakeUpdated(entries[..], entryIndex, e);
      ghost var updated := entries[..][entryIndex := e];
      entries[entryIndex] := e;
      assert entries[..] == updated;
      AppendOne(lib, files, f);
      files := files + [f];
      entryIndex := entryIndex + 1;
    }

    /**
     * Store a file's data after its name: nothing, the bytes themselves or their compressed form. The entry's
     * fields are returned.
     */
    method StoreData(name: Path, data: seq<byte>, ghost n: nat, ghost body: seq<byte>)
      returns (outcome: Outcome, dataOffset: nat, compressedSize: nat, code: nat)
      requires |magic| == COUNT_AT && image.Length == MAXIMUM_SIZE
      requires Written(image[..], magic, n, body) && output == HEADER_SIZE + |body|
      modifies this`output, image
      ensures outcome == Ok ==>
        && Written(image[..], magic, n, body + StoredData(lib, data))
        && output == HEADER_SIZE + |body + StoredData(lib, data)|
        && dataOffset == (if data == [] then 0 else old(output))
        && compressedSize == |StoredData(lib, data)| && code == Code(MethodOf(data))
      ensures StoredData(lib, data) == if |data| == 0 then [] else if |data| < 100 then data else lib.compress(data)
      ensures outcome == Ok ==> code == if |data| == 0 then 1 else if |data| < 100 then 0 else 2
      ensures outcome == if DataFit(lib, data, old(output)) then Ok else TooLarge
    {
      outcome, dataOffset, compressedSize, code := Ok, output, 0, Code(ZeroLength);
      var doNotCompress := HasListedSuffix(name);
      if |data| == 0 {
        dataOffset := 0;
        assert body + [] == body;
        return;
      }
      if |data| < UNCOMPRESSED_BELOW {
        doNotCompress := true;
      }
      if doNotCompress {
        if output + |data| >= MAXIMUM_SIZE {
          return TooLarge, 0, 0, 0;
        }
        compressedSize, code := |data|, Code(Plain);
        Append(data, n, body);
      } else {
        var compressed := lib.compress(data);
        if |compressed| > MAXIMUM_SIZE - output {
          return TooLarge, 0, 0, 0;
        }
        compressedSize, code := |compressed|, Code(Deflated);
        Append(compressed, n, body);
      }
    }

    /** Store a file's name and data, count it, and fill in its entry. */
    method StoreRecord(name: Path, path: Path, data: seq<byte>, ghost n: nat, ghost body: seq<byte>)
      returns (outcome: Outcome, e: Entry)
      requires |magic| == COUNT_AT && image.Length == MAXIMUM_SIZE && n + 1 < 0x1_0000_0000
      requires Written(image[..], magic, n, body) && output == HEADER_SIZE + |body|
      modifies this`output, image
      ensures outcome == Ok ==>
        && Written(image[..], magic, n + 1, body + Record(lib, Stored(path, data)))
        && output == HEADER_SIZE + |body + Record(lib, Stored(path, data))|
        && e == EntryFor(lib, Stored(path, data), old(output))
      ensures outcome == OutcomeOf(lib, Stored(path, data), old(output))
    {
      var nameOffset := output;
      e := Entry(0, 0, 0, 0, 0);
      if output + |path| + 1 > MAXIMUM_SIZE {
        return OutOfBounds, e;
      }
      Append(path + [NUL], n, body);
      CountFile(n, body + (path + [NUL]));
      var dataOffset, compressedSize, code;
      outcome, dataOffset, compressedSize, code := StoreData(name, data, n + 1, body + (path + [NUL]));
      Associative(body, path + [NUL], StoredData(lib, data));
      e := Entry(nameOffset, dataOffset, compressedSize, |data| % 0x1_0000_0000, code);
    }

    /**
     * Append a file's name, its data and its entry. On anything but Ok the program ends: a name that does not fit
     * is copied past the end of the image, data that do not fit are refused.
     */
    method WriteFile(name: Path, path: Path, data: seq<byte>) returns (outcome: Outcome)
      requires Valid()
      modifies this, image, entries
      ensures entries == old(entries) || fresh(entries)
      ensures outcome == Ok ==> Valid() && files == old(files) + [Stored(path, data)]
      ensures outcome == OutcomeOf(lib, Stored(path, data), old(output))
    {
      AppendOne(lib, files, Stored(path, data));
      CountBounded(lib, files);
      var e;
      outcome, e := StoreRecord(name, path, data, |files|, Body(lib, files));
      if outcome == Ok {
        AddEntry(e, Stored(path, data));
      }
    }

    /**
     * Walk a directory, depth first, writing each regular file. `dir` is the directory's pathname; the top
     * directory has none.
     */
    method Descend(directory: seq<Node>, dir: Option<Path>) returns (outcome: Outcome)
      requires Valid()
      modifies this, image, entries
      ensures entries == old(entries) || fresh(entries)
      ensures outcome == Ok ==> Valid() && files == old(files) + Walk(directory, dir, Some(PATH_LIMIT))
      ensures outcome != Ok ==>
        HEADER_SIZE + |Body(lib, old(files) + Walk(directory, dir, Some(PATH_LIMIT)))| >= MAXIMUM_SIZE
      decreases directory, 0
    {
      outcome := Ok;
      ghost var limit, start := Some(PATH_LIMIT), files;
      assert files + [] == files;
      for i := 0 to |directory|
        invariant outcome == Ok && Valid()
        invariant entries == old(entries) || fresh(entries)
        invariant files == start + Walk(directory[..i], dir, limit)
      {
        WalkStep(lib, start, directory, dir, i);
        outcome := Visit(directory[i], dir);
        if outcome != Ok {
          return;
        }
      }
      assert directory[..|directory|] == directory;
    }

    /** Align to four bytes, store the table's offset in the header and the table after the data. */
    method Finish() returns (outcome: Outcome, finished: seq<byte>)
      requires Valid()
      modifies this`output, image
      ensures outcome == Ok <==> |ImageOf(lib, magic, files)| <= MAXIMUM_SIZE
      ensures outcome == Ok ==> finished == ImageOf(lib, magic, files)
    {
      hide Body, Entries, Written, Le32;
      var unaligned := output % 4;
      if unaligned != 0 {
        output := output + (4 - unaligned);
      }
      assert output == TableAt(lib, files);
      var table := TableOf(entries[..entryIndex]);
      assert output + |table| == |ImageOf(lib, magic, files)|;
      if output + |table| > MAXIMUM_SIZE {
        return TooLarge, [];
      }
      FinishImage(lib, magic, files, image[..]);
      Copy(TABLE_OFFSET_AT, Le32(output));
      Copy(output, table);
      output := output + |table|;
      outcome, finished := Ok, image[..][..output];
    }

    /** One directory entry. */
    method Visit(e: Node, dir: Option<Path>) returns (outcome: Outcome)
      requires Valid()
      modifies this, image, entries
      ensures entries == old(entries) || fresh(entries)
      ensures outcome == Ok ==> Valid() && files == old(files) + WalkNode(e, dir, Some(PATH_LIMIT))
      ensures outcome != Ok ==>
        HEADER_SIZE + |Body(lib, old(files) + WalkNode(e, dir, Some(PATH_LIMIT)))| >= MAXIMUM_SIZE
      decreases e, 1
    {
      outcome := Ok;
      if Skipped(e.name) {
        return;
      }
      var path := Truncate(Join(dir, e.name), Some(PATH_LIMIT));
      match e {
        case Dir(_, below) =>
          outcome := Descend(below, Some(path));
        case File(name, data) =>
          AppendOne(lib, files, Stored(path, data));
          outcome := WriteFile(name, path, data);
        case Other(_) =>
      }
    }
  }

  /** How one entry extends the files walked so far, and what the whole walk stores at least. */
  lemma WalkStep(lib: Zlib, files: seq<Stored>, directory: seq<Node>, dir: Option<Path>, i: nat)
    requires i < |directory|
    ensures var limit := Some(PATH_LIMIT);
      var before, node := files + Walk(directory[..i], dir, limit), WalkNode(directory[i], dir, limit);
      && files + Walk(directory[..i + 1], dir, limit) == before + node
      && |Body(lib, before + node)| <= |Body(lib, files + Walk(directory, dir, limit))|
  {
    var limit := Some(PATH_LIMIT);
    var before, node := Walk(directory[..i], dir, limit), WalkNode(directory[i], dir, limit);
    WalkNext(directory, dir, limit, i);
    WalkPrefix(directory, dir, limit, i + 1);
    Associative(files, before, node);
    BodyGrows(lib, files + (before + node), files + Walk(directory, dir, limit));
  }

  /** The table's bytes. */
  method TableOf(entries: seq<Entry>) returns (table: seq<byte>)
    ensures table == TableBytes(entries)
  {
    table := [];
    for i := 0 to |entries|
      invariant table == TableBytes(entries[..i])
    {
      assert entries[..i + 1][..i] == entries[..i];
      table := table + EntryBytes(entries[i]);
    }
    assert entries[..|entries|] == entries;
  }

  /** Storing the table's offset and the table completes the image. */
  lemma FinishImage(lib: Zlib, magic: seq<byte>, files: seq<Stored>, written: seq<byte>)
    requires |magic| == COUNT_AT && Written(written, magic, |files|, Body(lib, files))
    requires |ImageOf(lib, magic, files)| <= MAXIMUM_SIZE
    ensures var tableAt, table := TableAt(lib, files), TableBytes(Entries(lib, files));
      Overwrite(Overwrite(written, TABLE_OFFSET_AT, Le32(tableAt)), tableAt, table)[..tableAt + |table|]
        == ImageOf(lib, magic, files)
  {
    hide Le32, Entries, TableBytes, Body;
    var tableAt, table := TableAt(lib, files), TableBytes(Entries(lib, files));
    assert files[..|files|] == files;
    var end := StartOf(lib, files, |files|);
    var pad := seq(tableAt - end, _ => 0);
    TwoStores(written, TABLE_OFFSET_AT, Le32(tableAt), tableAt, table);
    assert written[..TABLE_OFFSET_AT] == written[..COUNT_AT] + written[COUNT_AT..TABLE_OFFSET_AT];
    assert written[end..tableAt] == pad;
    assert written[HEADER_SIZE..tableAt] == written[HEADER_SIZE..end] + written[end..tableAt];
    Group(magic + Le32(|files|), Le32(tableAt), Body(lib, files), pad, table);
  }

  lemma Group<T>(a: seq<T>, b: seq<T>, c: seq<T>, d: seq<T>, e: seq<T>)
    ensures a + b + (c + d) + e == (a + b) + c + (d + e)
  {
  }

  /** Once the data reaches the maximum size, the image with its table exceeds it. */
  lemma FullImage(lib: Zlib, magic: seq<byte>, files: seq<Stored>)
    requires |magic| == COUNT_AT && HEADER_SIZE + |Body(lib, files)| >= MAXIMUM_SIZE
    ensures |ImageOf(lib, magic, files)| > MAXIMUM_SIZE
  {
    assert files[..|files|] == files;
  }

  /**
   * The generator's main program: write the header, walk the source directory, then put the entry table after
   * the data, aligned to four bytes. It ends well exactly when the whole image fits, and the image is then a
   * function of the files walked.
   */
  method Generate(lib: Zlib, magic: seq<byte>, source: seq<Node>) returns (outcome: Outcome, image: seq<byte>)
    requires |magic| == COUNT_AT
    ensures outcome == Ok <==> |ImageOf(lib, magic, Walk(source, None, Some(PATH_LIMIT)))| <= MAXIMUM_SIZE
    ensures outcome == Ok ==> image == ImageOf(lib, magic, Walk(source, None, Some(PATH_LIMIT)))
  {
    ghost var files := Walk(source, None, Some(PATH_LIMIT));
    image := [];
    var g := new Generator(lib, magic);
    assert g.files + files == files;
    outcome := g.Descend(source, None);
    if outcome != Ok {
      FullImage(lib, magic, files);
      return;
    }
    outcome, image := g.Finish();
  }
}
