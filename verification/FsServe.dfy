/** Serving a file from the embedded filesystem over HTTP (components/generic_main/compressed_fs.c). */
module FsServe {
  import opened Bytes
  import opened DirTree
  import opened FsFormat
  import opened FsGen
  import opened FsRead
  import opened Inflate

  const MAXIMUM_CHUNK_SIZE: nat := 4096

  // "deflate"
  const DEFLATE: seq<byte> := [100, 101, 102, 108, 97, 116, 101]

  /** The chunks handed to the HTTP server, in order. */
  type Chunks = seq<seq<byte>>

  /** What a client receives: an empty chunk ends the response. */
  function Received(chunks: Chunks): (r: seq<byte>)
  {
    if chunks == [] || chunks[0] == [] then [] else chunks[0] + Received(chunks[1..])
  }

  ghost predicate Bounded(chunks: Chunks)
  {
    forall k :: 0 <= k < |chunks| ==> |chunks[k]| <= 4096
  }

  /** Non-empty chunks within the limit that together make up `data`. */
  ghost predicate Splits(chunks: Chunks, data: seq<byte>)
  {
    Bounded(chunks) && [] !in chunks && Flatten(chunks) == data
  }

  lemma {:induction false} ReceivedSplit(chunks: Chunks, data: seq<byte>, rest: Chunks)
    requires Splits(chunks, data)
    ensures Received(chunks + rest) == data + Received(rest)
    decreases |chunks|
  {
    if chunks == [] {
      assert chunks + rest == rest;
    } else {
      var tail := chunks[1..];
      assert chunks == [chunks[0]] + tail;
      FlattenAppend([chunks[0]], tail);
      FlattenOne(chunks[0]);
      ReceivedSplit(tail, Flatten(tail), rest);
      assert (chunks + rest)[1..] == tail + rest;
    }
  }

  lemma {:induction false} ReceivedEnded(chunks: Chunks, rest: Chunks)
    requires [] in chunks
    ensures Received(chunks + rest) == Received(chunks)
    decreases |chunks|
  {
    if chunks[0] != [] {
      ReceivedEnded(chunks[1..], rest);
      assert (chunks + rest)[1..] == chunks[1..] + rest;
    }
  }

  /** Chunks of bounded size, ended at least once, that add up to `total` and of which a client receives `got`. */
  ghost predicate Delivery(sent: Chunks, total: seq<byte>, got: seq<byte>)
  {
    Bounded(sent) && [] in sent && Flatten(sent) == total && Received(sent) == got
  }

  lemma DeliveryOfOne(pieces: Chunks, data: seq<byte>)
    requires Splits(pieces, data)
    ensures Delivery(pieces + [[]], data, data)
  {
    ReceivedSplit(pieces, data, [[]]);
    FlattenAppend(pieces, [[]]);
    FlattenOne<byte>([]);
    assert Received([[]]) == [];
  }

  lemma EmptyChunk()
    ensures Delivery([[]], [], [])
  {
    var none: Chunks := [];
    DeliveryOfOne(none, []);
    assert none + [[]] == [[]];
  }

  /** Nothing sent after an empty chunk reaches the client. */
  lemma DeliveryThen(sent: Chunks, total: seq<byte>, got: seq<byte>, more: Chunks, data: seq<byte>, lost: seq<byte>)
    requires Delivery(sent, total, got) && Delivery(more, data, lost)
    ensures Delivery(sent + more, total + data, got)
  {
    ReceivedEnded(sent, more);
    FlattenAppend(sent, more);
  }

  /** Whether the request's Accept-Encoding value makes the server inflate a compressed file itself. */
  predicate Inflates(acceptEncoding: Option<seq<byte>>)
  {
    acceptEncoding.Some? &&
    var after := AfterDeflate(acceptEncoding.value);
    after.Some? && after.value != [] && after.value[0] !in {44, 59, 0, 13, 10}
  }

  /** What follows the first "deflate". */
  function AfterDeflate(value: seq<byte>): (r: Option<seq<byte>>)
  {
    if |value| < |DEFLATE| then None
    else if value[..|DEFLATE|] == DEFLATE then Some(value[|DEFLATE|..])
    else AfterDeflate(value[1..])
  }

  /** "deflate" stands at a place. */
  ghost predicate DeflateAt(value: seq<byte>, i: nat)
  {
    i + 7 <= |value| && value[i..i + 7] == [100, 101, 102, 108, 97, 116, 101]
  }

  /**
   * The header's value has a character right behind its first "deflate", and that is no comma, semicolon, zero,
   * carriage return or line feed.
   */
  ghost predicate WantsInflated(acceptEncoding: Option<seq<byte>>)
  {
    acceptEncoding.Some? &&
    var value := acceptEncoding.value;
    exists i: nat ::
      DeflateAt(value, i) && (forall k: nat :: k < i ==> !DeflateAt(value, k))
      && i + 7 < |value| && value[i + 7] != 44 && value[i + 7] != 59 && value[i + 7] != 0
      && value[i + 7] != 13 && value[i + 7] != 10
  }

  /** What is found behind the first "deflate". */
  lemma {:induction false} AfterDeflateMeans(value: seq<byte>) returns (i: nat)
    ensures AfterDeflate(value).None? ==> forall k: nat :: !DeflateAt(value, k)
    ensures AfterDeflate(value).Some? ==>
      && DeflateAt(value, i) && (forall k: nat :: k < i ==> !DeflateAt(value, k))
      && AfterDeflate(value).value == value[i + 7..]
    decreases |value|
  {
    i := 0;
    if |value| >= 7 && value[..7] != DEFLATE {
      var j := AfterDeflateMeans(value[1..]);
      i := j + 1;
      assert !DeflateAt(value, 0);
      forall k: nat ensures DeflateAt(value, k + 1) <==> DeflateAt(value[1..], k) {
        DeflateLater(value, k);
      }
      forall k: nat | AfterDeflate(value).None? || k < i ensures !DeflateAt(value, k) {
        if k > 0 {
          assert DeflateAt(value, k - 1 + 1) <==> DeflateAt(value[1..], k - 1);
        }
      }
    }
  }

  lemma DeflateLater(value: seq<byte>, k: nat)
    requires value != []
    ensures DeflateAt(value, k + 1) <==> DeflateAt(value[1..], k)
  {
    if k + 8 <= |value| {
      assert value[1..][k..k + 7] == value[k + 1..k + 8];
    }
  }

  /** The server inflates exactly for such values; not without the header, nor without "deflate" or behind it. */
  lemma InflatesExactly(acceptEncoding: Option<seq<byte>>)
    ensures Inflates(acceptEncoding) <==> WantsInflated(acceptEncoding)
  {
    if acceptEncoding.Some? {
      var value := acceptEncoding.value;
      var i := AfterDeflateMeans(value);
      hide DeflateAt, AfterDeflate;
      if AfterDeflate(value).Some? {
        DeflateInside(value, i);
        var after := AfterDeflate(value).value;
        assert after != [] ==> after[0] == value[i + 7];
        forall j: nat | DeflateAt(value, j) && (forall k: nat :: k < j ==> !DeflateAt(value, k)) ensures j == i {
        }
      }
    }
  }

  lemma DeflateInside(value: seq<byte>, i: nat)
    requires DeflateAt(value, i)
    ensures i + 7 <= |value|
  {
  }

  /** An HTTP response being sent. */
  class Response {
    var chunks: Chunks
    var deflated: bool

    constructor ()
      ensures chunks == [] && !deflated
    {
      chunks, deflated := [], false;
    }

    method SendChunk(chunk: seq<byte>)
      modifies this`chunks
      ensures chunks == old(chunks) + [chunk]
    {
      chunks := chunks + [chunk];
    }

    /** Send an empty chunk after what was sent for a file. */
    method Terminate(ghost sent: Chunks, ghost total: seq<byte>, ghost got: seq<byte>) returns (ghost all: Chunks)
      requires Delivery(sent, total, got)
      modifies this`chunks
      ensures chunks == old(chunks) + [[]] && all == sent + [[]] && Delivery(all, total, got)
    {
      SendChunk([]);
      all := sent + [[]];
      EmptyChunk();
      DeliveryThen(sent, total, got, [[]], [], []);
      assert total + [] == total;
    }

    /** Send `data` in pieces, then an empty chunk. */
    method SendChunks(data: seq<byte>) returns (ghost sent: Chunks)
      modifies this`chunks
      ensures chunks == old(chunks) + sent && Delivery(sent, data, data)
    {
      var size, rest := |data|, data;
      ghost var pieces: Chunks := [];
      assert data[..0] == [];
      while size > 0
        invariant size == |rest| <= |data| && rest == data[|data| - size..]
        invariant Splits(pieces, data[..|data| - size])
        invariant chunks == old(chunks) + pieces
      {
        var chunkSize := size;
        if chunkSize > MAXIMUM_CHUNK_SIZE {
          chunkSize := MAXIMUM_CHUNK_SIZE;
        }
        var chunk := rest[..chunkSize];
        SendChunk(chunk);
        assert (pieces + [chunk])[..|pieces|] == pieces;
        assert data[..|data| - size] + chunk == data[..|data| - size + chunkSize];
        pieces := pieces + [chunk];
        size := size - chunkSize;
        rest := rest[chunkSize..];
      }
      assert data[..|data|] == data;
      DeliveryOfOne(pieces, data);
      SendChunk([]);
      sent := pieces + [[]];
    }

    /** The inflate driver's callback, called with each slice in turn. */
    method ProcessSlices(slices: Chunks) returns (ghost sent: Chunks)
      requires slices != []
      modifies this`chunks
      ensures chunks == old(chunks) + sent && Delivery(sent, Flatten(slices), slices[0])
    {
      sent := SendChunks(slices[0]);
      FlattenOne(slices[0]);
      assert slices[..1] == [slices[0]];
      hide Delivery;
      for i := 1 to |slices|
        invariant chunks == old(chunks) + sent && Delivery(sent, Flatten(slices[..i]), slices[0])
      {
        ghost var more := SendChunks(slices[i]);
        assert slices[..i + 1][..i] == slices[..i];
        DeliveryThen(sent, Flatten(slices[..i]), slices[0], more, slices[i], slices[i]);
        sent := sent + more;
      }
      assert slices[..|slices|] == slices;
    }

    /** Inflate a stored stream and send each slice of it as it is produced, then an empty chunk. */
    method SendUncompressedFile(lib: Zlib, stream: seq<byte>) returns (ghost sent: Chunks, ghost first: seq<byte>)
      requires lib.Contract()
      modifies this`chunks
      ensures chunks == old(chunks) + sent && Delivery(sent, lib.meaning(stream), first)
      ensures lib.Fills() ==> first == Truncate(lib.meaning(stream), Some(WINDOW))
    {
      var result, consumed, slices, steps := DecompressMemToCallback(lib, stream, (_: seq<seq<byte>>) => true, true);
      FirstSlice(slices, lib.Fills());
      hide Delivery, Sliced;
      if slices == [] {
        SendChunk([]);
        EmptyChunk();
        sent, first := [[]], [];
      } else {
        first := slices[0];
        sent := ProcessSlices(slices);
        sent := Terminate(sent, lib.meaning(stream), first);
      }
    }

    /** Send the file of one table entry. The entry's data must lie in the image. */
    method ReadFile(lib: Zlib, image: seq<byte>, e: Entry, acceptEncoding: Option<seq<byte>>)
      returns (ghost sent: Chunks, ghost got: seq<byte>)
      requires lib.Contract() && Contents(lib, image, e).Some? && e.code <= Code(Deflated)
      modifies this
      ensures chunks == old(chunks) + sent && Delivery(sent, Payload(lib, image, e, acceptEncoding), got)
      ensures deflated == (old(deflated) || (e.code == Code(Deflated) && !WantsInflated(acceptEncoding)))
      ensures !(e.code == Code(Deflated) && WantsInflated(acceptEncoding)) ==>
        got == Payload(lib, image, e, acceptEncoding)
      ensures e.code == Code(Deflated) && WantsInflated(acceptEncoding) && lib.Fills() ==>
        got == Truncate(Payload(lib, image, e, acceptEncoding), Some(WINDOW))
    {
      InflatesExactly(acceptEncoding);
      hide Delivery, Inflates, WantsInflated;
      got := Payload(lib, image, e, acceptEncoding);
      if e.code == Code(ZeroLength) {
        SendChunk([]);
        EmptyChunk();
        sent := [[]];
      } else if e.code == Code(Plain) {
        sent := SendChunks(image[e.dataOffset..e.dataOffset + e.size]);
        sent := Terminate(sent, got, got);
      } else {
        var stream := image[e.dataOffset..e.dataOffset + e.compressedSize];
        if Inflates(acceptEncoding) {
          sent, got := SendUncompressedFile(lib, stream);
          sent := Terminate(sent, lib.meaning(stream), got);
        } else {
          deflated := true;
          sent := SendChunks(stream);
          sent := Terminate(sent, got, got);
        }
      }
    }
  }

  /** The bytes of all chunks sent for an entry. */
  ghost function Payload(lib: Zlib, image: seq<byte>, e: Entry, acceptEncoding: Option<seq<byte>>): (r: seq<byte>)
    requires Contents(lib, image, e).Some?
  {
    if e.code == Code(Deflated) && !WantsInflated(acceptEncoding) then
      image[e.dataOffset..e.dataOffset + e.compressedSize]
    else
      Contents(lib, image, e).value
  }

  /** Slices that fill the window start with the window's worth of all they hold. */
  lemma FirstSlice(slices: Chunks, full: bool)
    requires Sliced(slices, full)
    ensures slices != [] ==> slices[0] <= Flatten(slices)
    ensures full && slices != [] ==> slices[0] == Truncate(Flatten(slices), Some(WINDOW))
  {
    if slices != [] {
      var rest := slices[1..];
      assert slices == [slices[0]] + rest;
      FlattenAppend([slices[0]], rest);
      FlattenOne(slices[0]);
      if rest != [] {
        assert rest[..|rest| - 1] + [rest[|rest| - 1]] == rest;
        assert rest[|rest| - 1] == slices[|slices| - 1];
      }
    }
  }

  /**
   * What a client makes of the chunks and the header of a response for a file with these bytes. Every way of
   * delivering it gives the file, except that a file larger than the window which the server inflates itself is
   * cut off after the window's first filling, because each slice is followed by an empty chunk.
   */
  ghost predicate Served(lib: Zlib, data: seq<byte>, acceptEncoding: Option<seq<byte>>, chunks: Chunks, deflated: bool)
  {
    && Bounded(chunks) && [] in chunks
    && deflated == (|data| >= 100 && !WantsInflated(acceptEncoding))
    && if deflated then lib.meaning(Received(chunks)) == data
       else if |data| >= 100 then
         Received(chunks) == Truncate(data, Some(32768)) && (Received(chunks) == data <==> |data| <= 32768)
       else Received(chunks) == data
  }

  /** The payload of a packed file's entry. */
  lemma PackedPayload(lib: Zlib, image: seq<byte>, f: Stored, from: nat, acceptEncoding: Option<seq<byte>>)
    requires lib.Inverse() && HasRecord(lib, image, from, f)
    ensures var e := EntryFor(lib, f, from);
      && Contents(lib, image, e) == Some(f.data) && e.code == Code(MethodOf(f.data))
      && (MethodOf(f.data).Deflated? && !WantsInflated(acceptEncoding) ==>
            lib.meaning(Payload(lib, image, e, acceptEncoding)) == f.data)
      && (!MethodOf(f.data).Deflated? || WantsInflated(acceptEncoding) ==>
            Payload(lib, image, e, acceptEncoding) == f.data)
  {
    ContentsRead(lib, image, from, f);
    hide WantsInflated, HasRecord;
  }

  /** Answer a request for one packed file. */
  method ServeFile(lib: Zlib, image: seq<byte>, e: Entry, ghost f: Stored, ghost from: nat,
                   acceptEncoding: Option<seq<byte>>)
    returns (chunks: Chunks, deflated: bool)
    requires lib.Contract() && lib.Inverse() && lib.Fills()
    requires HasRecord(lib, image, from, f) && e == EntryFor(lib, f, from)
    ensures Served(lib, f.data, acceptEncoding, chunks, deflated)
  {
    hide WantsInflated, HasRecord, Payload, Contents, StoredData;
    PackedPayload(lib, image, f, from, acceptEncoding);
    var response := new Response();
    var sent, got := response.ReadFile(lib, image, e, acceptEncoding);
    chunks, deflated := response.chunks, response.deflated;
    assert chunks == sent;
  }

  /** The handler's search and answer; without a file of that name nothing is sent here. */
  method HttpFileHandler(lib: Zlib, image: seq<byte>, ghost files: seq<Stored>, path: Path,
                         acceptEncoding: Option<seq<byte>>)
    returns (found: bool, chunks: Chunks, deflated: bool)
    requires lib.Contract() && lib.Inverse() && lib.Fills() && Describes(lib, image, files)
    requires forall f :: f in files ==> IsCString(f.path)
    ensures found <==> FirstWith(files, path, 0).Some?
    ensures found ==> Served(lib, files[FirstWith(files, path, 0).value].data, acceptEncoding, chunks, deflated)
    ensures !found ==> chunks == []
  {
    SearchFinds(lib, image, files, path, 0);
    hide Served, HasRecord, EntryFor, SearchFrom;
    var search := FindEntry(image, path);
    match search {
      case Found(e) =>
        ghost var k := FirstWith(files, path, 0).value;
        assert DescribesFile(lib, image, files, k);
        chunks, deflated := ServeFile(lib, image, e, files[k], StartOf(lib, files, k), acceptEncoding);
        found := true;
      case _ =>
        found, chunks, deflated := false, [], false;
    }
  }

  /**
   * Pack a directory tree and answer a request from the image: a file is found exactly if the tree holds one with
   * that pathname, and the client is served that file.
   */
  method PackAndServe(lib: Zlib, magic: seq<byte>, source: seq<Node>, path: Path, acceptEncoding: Option<seq<byte>>)
    returns (outcome: Outcome, found: bool, chunks: Chunks, deflated: bool)
    requires lib.Contract() && lib.Inverse() && lib.Fills() && |magic| == COUNT_AT
    requires WellFormed(source) && PathsFit(source, None, 1023)
    ensures outcome == Ok <==> |ImageOf(lib, magic, Walk(source, None, None))| <= 4 * 1024 * 1024
    ensures outcome == Ok ==> (found <==> exists data :: InTree(source, path, data))
    ensures outcome == Ok ==>
      forall data :: InTree(source, path, data) ==> Served(lib, data, acceptEncoding, chunks, deflated)
  {
    hide Walk, ImageOf, Describes, Served, InTree, WellFormed;
    BufferIsHarmless(source, None, PATH_LIMIT);
    var image;
    outcome, image := Generate(lib, magic, source);
    found, chunks, deflated := false, [], false;
    if outcome == Ok {
      ghost var files := Walk(source, None, None);
      ImageDescribes(lib, magic, files);
      WalkCStrings(source, None, None);
      forall data
        ensures InTree(source, path, data) <==>
          FirstWith(files, path, 0).Some? && files[FirstWith(files, path, 0).value].data == data
      {
        FirstIsInTree(source, path, data);
      }
      found, chunks, deflated := HttpFileHandler(lib, image, files, path, acceptEncoding);
      assert found ==> InTree(source, path, files[FirstWith(files, path, 0).value].data);
    }
  }

  // "deflate-x"
  const DEFLATE_X: seq<byte> := DEFLATE + [45, 120]

  lemma OneFileTree(name: Path, data: seq<byte>)
    requires ProperName(name) && name != [46] && name != [46, 46]
    ensures var source := [File(name, data)];
      && WellFormed(source) && Walk(source, None, None) == [Stored(name, data)] && InTree(source, name, data)
  {
    var source := [File(name, data)];
    var none: seq<Node> := [];
    assert source[..0] == none && Walk(none, None, None) == [];
    assert Walk(source, None, None) == Walk(source[..0], None, None) + WalkNode(source[0], None, None);
    assert Holds(source, [name], data) by {
      assert source[0].name == name && HoldsNode(source[0], [name], data);
    }
    assert PathOf(None, [name]) == name;
  }

  /** A file of 40000 bytes reaches a client that sends "deflate-x" without its last 7232 bytes. */
  method ServedShort() returns (data: seq<byte>, chunks: Chunks)
    ensures |data| == 40000 && |Received(chunks)| == 32768 && Received(chunks) == data[..32768]
  {
    data := seq(40000, _ => 7);
    var name, magic: seq<byte> := [102], seq(COUNT_AT, _ => 0);
    AssumptionsAreConsistent();
    OneFileTree(name, data);
    OneFileImage(STORED, magic, Stored(name, data));
    DeflateX();
    hide WellFormed, Walk, InTree, ImageOf, WantsInflated, Bounded, Received;
    var outcome, found, deflated;
    outcome, found, chunks, deflated := PackAndServe(STORED, magic, [File(name, data)], name, Some(DEFLATE_X));
    assert outcome == Ok;
    assert Served(STORED, data, Some(DEFLATE_X), chunks, deflated);
  }

  lemma DeflateX()
    ensures WantsInflated(Some(DEFLATE_X))
  {
    InflatesExactly(Some(DEFLATE_X));
    assert DEFLATE_X[..|DEFLATE|] == DEFLATE && DEFLATE_X[|DEFLATE|..] == [45, 120];
  }
}
