/** The byte layout of the embedded filesystem, as a function of the files it stores. */
module FsFormat {
  import opened Bytes
  import opened DirTree
  import opened Inflate

  const MAXIMUM_SIZE: nat := 4 * 1024 * 1024
  const HEADER_SIZE: nat := 88
  const COUNT_AT: nat := 80
  const TABLE_OFFSET_AT: nat := 84
  const UNCOMPRESSED_BELOW: nat := 100

  datatype Method = Plain | ZeroLength | Deflated

  function Code(m: Method): (r: nat)
  {
    match m case Plain => 0 case ZeroLength => 1 case Deflated => 2
  }

  datatype Entry = Entry(nameOffset: nat, dataOffset: nat, compressedSize: nat, size: nat, code: nat)

  function EntryBytes(e: Entry): (r: seq<byte>)
    ensures |r| == 20
  {
    Le32(e.nameOffset) + Le32(e.dataOffset) + Le32(e.compressedSize) + Le32(e.size) + Le32(e.code)
  }

  // What is stored for one file.

  function MethodOf(data: seq<byte>): (r: Method)
  {
    if data == [] then ZeroLength else if |data| < UNCOMPRESSED_BELOW then Plain else Deflated
  }

  function StoredData(lib: Zlib, data: seq<byte>): (r: seq<byte>)
  {
    match MethodOf(data)
    case ZeroLength => []
    case Plain => data
    case Deflated => lib.compress(data)
  }

  function Record(lib: Zlib, f: Stored): (r: seq<byte>)
  {
    f.path + [NUL] + StoredData(lib, f.data)
  }

  function EntryFor(lib: Zlib, f: Stored, at: nat): (r: Entry)
  {
    Entry(at, if f.data == [] then 0 else at + |f.path| + 1, |StoredData(lib, f.data)|, |f.data| % 0x1_0000_0000,
          Code(MethodOf(f.data)))
  }

  /** Names and data, one file after the other. */
  function Body(lib: Zlib, files: seq<Stored>): (r: seq<byte>)
  {
    if files == [] then []
    else Body(lib, files[..|files| - 1]) + Record(lib, files[|files| - 1])
  }

  /** Where the k-th file's record starts. */
  function StartOf(lib: Zlib, files: seq<Stored>, k: nat): (r: nat)
    requires k <= |files|
  {
    HEADER_SIZE + |Body(lib, files[..k])|
  }

  function Entries(lib: Zlib, files: seq<Stored>): (r: seq<Entry>)
    ensures |r| == |files|
  {
    if files == [] then []
    else
      var last := |files| - 1;
      Entries(lib, files[..last]) + [EntryFor(lib, files[last], StartOf(lib, files, last))]
  }

  function TableBytes(entries: seq<Entry>): (r: seq<byte>)
    ensures |r| == 20 * |entries|
  {
    if entries == [] then [] else TableBytes(entries[..|entries| - 1]) + EntryBytes(entries[|entries| - 1])
  }

  function HeaderBytes(magic: seq<byte>, count: nat, tableOffset: nat): (r: seq<byte>)
    requires |magic| == COUNT_AT
    ensures |r| == HEADER_SIZE
  {
    magic + Le32(count) + Le32(tableOffset)
  }

  function PadTo4(n: nat): (r: nat)
    ensures r < 4 && (n + r) % 4 == 0
  {
    if n % 4 == 0 then 0 else 4 - n % 4
  }

  function TableAt(lib: Zlib, files: seq<Stored>): (r: nat)
  {
    var end := StartOf(lib, files, |files|);
    end + PadTo4(end)
  }

  /** The finished image. */
  function ImageOf(lib: Zlib, magic: seq<byte>, files: seq<Stored>): (r: seq<byte>)
    requires |magic| == COUNT_AT
    ensures |r| == TableAt(lib, files) + 20 * |files|
  {
    assert files[..|files|] == files;
    HeaderBytes(magic, |files|, TableAt(lib, files)) + Body(lib, files)
    + (seq(PadTo4(StartOf(lib, files, |files|)), _ => 0) + TableBytes(Entries(lib, files)))
  }

  // When a file is refused.

  /** How writing ends: stored, refused for lack of room, or a name copied past the end of the mapped image. */
  datatype Outcome = Ok | TooLarge | OutOfBounds

  /** Whether a file's data can be stored from `at` on. Plain data may not reach the maximum size, compressed may. */
  predicate DataFit(lib: Zlib, data: seq<byte>, at: nat)
  {
    match MethodOf(data)
    case ZeroLength => true
    case Plain => at + |data| < MAXIMUM_SIZE
    case Deflated => at + |lib.compress(data)| <= MAXIMUM_SIZE
  }

  function OutcomeOf(lib: Zlib, f: Stored, at: nat): (r: Outcome)
    ensures r == Ok ==> at + |Record(lib, f)| <= MAXIMUM_SIZE
    ensures r != Ok ==> at + |Record(lib, f)| >= MAXIMUM_SIZE
  {
    if at + |f.path| + 1 > MAXIMUM_SIZE then OutOfBounds
    else if DataFit(lib, f.data, at + |f.path| + 1) then Ok
    else TooLarge
  }

  // The layout.

  /** Records of earlier files are where they were. */
  lemma {:induction false} BodyPrefix(lib: Zlib, files: seq<Stored>, k: nat)
    requires k <= |files|
    ensures Body(lib, files[..k]) <= Body(lib, files)
  {
    var last := |files| - 1;
    if k == |files| {
      assert files[..k] == files;
    } else {
      BodyPrefix(lib, files[..last], k);
      assert files[..last][..k] == files[..k];
    }
  }

  lemma {:induction false} EntryAt(lib: Zlib, files: seq<Stored>, k: nat)
    requires k < |files|
    ensures Entries(lib, files)[k] == EntryFor(lib, files[k], StartOf(lib, files, k))
  {
    var last := |files| - 1;
    if k < last {
      assert files[..last][..k] == files[..k];
      assert StartOf(lib, files[..last], k) == StartOf(lib, files, k);
      EntryAt(lib, files[..last], k);
    }
  }

  /** The record of the k-th file ends where the next one starts. */
  lemma StartOfNext(lib: Zlib, files: seq<Stored>, k: nat)
    requires k < |files|
    ensures StartOf(lib, files, k + 1) == StartOf(lib, files, k) + |Record(lib, files[k])|
  {
    assert files[..k + 1][..k] == files[..k];
  }

  lemma {:induction false} StartsIncrease(lib: Zlib, files: seq<Stored>, j: nat, k: nat)
    requires j <= k <= |files|
    ensures StartOf(lib, files, j) <= StartOf(lib, files, k)
    ensures j < k ==> StartOf(lib, files, j) < StartOf(lib, files, k)
    decreases k
  {
    if j < k {
      StartsIncrease(lib, files, j, k - 1);
      StartOfNext(lib, files, k - 1);
    }
  }

  /** Appending files leaves the entries and records of the earlier ones alone. */
  lemma {:induction false} Append(lib: Zlib, files: seq<Stored>, more: seq<Stored>)
    ensures Body(lib, files) <= Body(lib, files + more)
    ensures Entries(lib, files) <= Entries(lib, files + more)
    decreases |more|
  {
    if more == [] {
      assert files + more == files;
    } else {
      var last := |more| - 1;
      Append(lib, files, more[..last]);
      assert (files + more)[..|files + more| - 1] == files + more[..last];
    }
  }

  lemma BodyGrows(lib: Zlib, files: seq<Stored>, more: seq<Stored>)
    requires files <= more
    ensures |Body(lib, files)| <= |Body(lib, more)|
  {
    Append(lib, files, more[|files|..]);
    assert files + more[|files|..] == more;
  }

  /** One more file. */
  lemma AppendOne(lib: Zlib, files: seq<Stored>, f: Stored)
    ensures var at := StartOf(lib, files, |files|);
      && at == HEADER_SIZE + |Body(lib, files)|
      && Body(lib, files + [f]) == Body(lib, files) + Record(lib, f)
      && StartOf(lib, files + [f], |files + [f]|) == at + |Record(lib, f)|
      && Entries(lib, files + [f]) == Entries(lib, files) + [EntryFor(lib, f, at)]
  {
    var all := files + [f];
    assert all[..|files|] == files;
    assert files[..|files|] == files;
    assert all[..|all|] == all;
  }

  /** Every record has at least its terminator. */
  lemma {:induction false} CountBounded(lib: Zlib, files: seq<Stored>)
    ensures |files| <= |Body(lib, files)|
  {
    if files != [] {
      CountBounded(lib, files[..|files| - 1]);
    }
  }

  // The image while it is written.

  /** A header with `magic` that counts n files, `body` after it, and zeros from the output pointer on. */
  ghost predicate Written(image: seq<byte>, magic: seq<byte>, n: nat, body: seq<byte>)
    requires |magic| == COUNT_AT
  {
    && |image| == MAXIMUM_SIZE && HEADER_SIZE + |body| <= MAXIMUM_SIZE
    && image[..COUNT_AT] == magic
    && image[COUNT_AT..TABLE_OFFSET_AT] == Le32(n)
    && image[HEADER_SIZE..HEADER_SIZE + |body|] == body
    && (forall k :: HEADER_SIZE + |body| <= k < MAXIMUM_SIZE ==> image[k] == 0)
  }

  lemma FreshImage(image: seq<byte>, magic: seq<byte>)
    requires |image| == MAXIMUM_SIZE && |magic| == COUNT_AT && forall k :: 0 <= k < |image| ==> image[k] == 0
    ensures Written(Overwrite(image, 0, magic), magic, 0, [])
  {
    OverwriteFrames(image, 0, magic, COUNT_AT, TABLE_OFFSET_AT);
    assert image[COUNT_AT..TABLE_OFFSET_AT] == Le32(0);
  }

  lemma AppendWrites(image: seq<byte>, magic: seq<byte>, n: nat, body: seq<byte>, bytes: seq<byte>)
    requires |magic| == COUNT_AT && Written(image, magic, n, body)
    requires HEADER_SIZE + |body| + |bytes| <= MAXIMUM_SIZE
    ensures Written(Overwrite(image, HEADER_SIZE + |body|, bytes), magic, n, body + bytes)
  {
    var at := HEADER_SIZE + |body|;
    var next := Overwrite(image, at, bytes);
    OverwriteFrames(image, at, bytes, 0, COUNT_AT);
    OverwriteFrames(image, at, bytes, COUNT_AT, TABLE_OFFSET_AT);
    OverwriteFrames(image, at, bytes, HEADER_SIZE, at);
    assert next[HEADER_SIZE..at + |bytes|] == next[HEADER_SIZE..at] + next[at..at + |bytes|];
  }

  lemma CountWrites(image: seq<byte>, magic: seq<byte>, n: nat, body: seq<byte>)
    requires |magic| == COUNT_AT && Written(image, magic, n, body) && n + 1 < 0x1_0000_0000
    ensures FromLe32(image[COUNT_AT..TABLE_OFFSET_AT]) == n
    ensures Written(Overwrite(image, COUNT_AT, Le32(n + 1)), magic, n + 1, body)
  {
    Le32RoundTrip(n);
    hide Le32, FromLe32;
    OverwriteFrames(image, COUNT_AT, Le32(n + 1), 0, COUNT_AT);
    OverwriteFrames(image, COUNT_AT, Le32(n + 1), HEADER_SIZE, HEADER_SIZE + |body|);
  }

  /** A half-open range of the image. */
  datatype Range = Range(from: nat, to: nat)

  function NameRange(lib: Zlib, files: seq<Stored>, k: nat): (r: Range)
    requires k < |files|
  {
    var e := Entries(lib, files)[k];
    Range(e.nameOffset, e.nameOffset + |files[k].path| + 1)
  }

  function DataRange(lib: Zlib, files: seq<Stored>, k: nat): (r: Range)
    requires k < |files|
  {
    var e := Entries(lib, files)[k];
    Range(e.dataOffset, e.dataOffset + e.compressedSize)
  }

  /**
   * The recorded ranges lie past the header and before the table, each file's data right after its name, and
   * those of an earlier file before those of a later one.
   */
  lemma Layout(lib: Zlib, files: seq<Stored>, j: nat, k: nat)
    requires j <= k < |files|
    ensures HEADER_SIZE <= NameRange(lib, files, k).from < NameRange(lib, files, k).to <= TableAt(lib, files)
    ensures files[k].data != [] ==>
      NameRange(lib, files, k).to == DataRange(lib, files, k).from
      && DataRange(lib, files, k).to <= TableAt(lib, files)
    ensures j < k ==> NameRange(lib, files, j).to <= NameRange(lib, files, k).from
    ensures j < k && files[j].data != [] ==> DataRange(lib, files, j).to <= NameRange(lib, files, k).from
  {
    hide Body, Entries, StoredData;
    EntryAt(lib, files, j);
    EntryAt(lib, files, k);
    StartOfNext(lib, files, j);
    StartOfNext(lib, files, k);
    if j < k {
      StartsIncrease(lib, files, j + 1, k);
    }
    StartsIncrease(lib, files, k + 1, |files|);
  }

  /** What an entry points at. */
  lemma RecordAt(lib: Zlib, magic: seq<byte>, files: seq<Stored>, k: nat)
    requires |magic| == COUNT_AT && k < |files|
    ensures StartOf(lib, files, k) + |Record(lib, files[k])| <= TableAt(lib, files)
    ensures ImageOf(lib, magic, files)[StartOf(lib, files, k)..StartOf(lib, files, k) + |Record(lib, files[k])|]
         == Record(lib, files[k])
  {
    var rec := Record(lib, files[k]);
    StartOfNext(lib, files, k);
    StartsIncrease(lib, files, k + 1, |files|);
    assert files[..|files|] == files;
    BodyPrefix(lib, files, k + 1);
    assert files[..k + 1][..k] == files[..k];
    BodySplit(lib, files, k);
    var head := HeaderBytes(magic, |files|, TableAt(lib, files));
    var rest := Body(lib, files)[|Body(lib, files[..k + 1])|..];
    var tail := seq(PadTo4(StartOf(lib, files, |files|)), _ => 0) + TableBytes(Entries(lib, files));
    Regroup(head, Body(lib, files[..k]), rec, rest, tail);
    Middle(head + Body(lib, files[..k]), rec, rest + tail);
  }

  /** Where the header and the table of an image are. */
  lemma ImageParts(lib: Zlib, magic: seq<byte>, files: seq<Stored>)
    requires |magic| == COUNT_AT
    ensures ImageOf(lib, magic, files)[..HEADER_SIZE] == HeaderBytes(magic, |files|, TableAt(lib, files))
    ensures ImageOf(lib, magic, files)[TableAt(lib, files)..] == TableBytes(Entries(lib, files))
  {
    assert files[..|files|] == files;
    var head, body := HeaderBytes(magic, |files|, TableAt(lib, files)), Body(lib, files);
    var pad, table := seq(PadTo4(StartOf(lib, files, |files|)), _ => 0), TableBytes(Entries(lib, files));
    Ends(head, body, pad + table);
    Associative(head + body, pad, table);
    Ends(head + body, pad, table);
  }

  lemma BodySplit(lib: Zlib, files: seq<Stored>, k: nat)
    requires k < |files|
    ensures |Body(lib, files[..k + 1])| <= |Body(lib, files)|
    ensures Body(lib, files)
         == Body(lib, files[..k]) + Record(lib, files[k]) + Body(lib, files)[|Body(lib, files[..k + 1])|..]
  {
    BodyPrefix(lib, files, k + 1);
    assert files[..k + 1][..k] == files[..k];
  }

  lemma Regroup<T>(a: seq<T>, b: seq<T>, c: seq<T>, d: seq<T>, e: seq<T>)
    ensures a + (b + c + d) + e == (a + b) + c + (d + e)
  {
  }

  lemma Middle<T>(a: seq<T>, b: seq<T>, c: seq<T>)
    ensures (a + b + c)[|a|..|a| + |b|] == b
  {
  }

  lemma {:induction false} TableEntryAt(entries: seq<Entry>, k: nat)
    requires k < |entries|
    ensures TableBytes(entries)[20 * k..20 * k + 20] == EntryBytes(entries[k])
  {
    var last := |entries| - 1;
    var before, at := TableBytes(entries[..last]), 20 * k;
    if k < last {
      TableEntryAt(entries[..last], k);
      assert TableBytes(entries)[at..at + 20] == before[at..at + 20];
    }
  }
}
