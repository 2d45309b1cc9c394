/** A reader of the finished image: pages, entries, blobs. It sees only bytes; it is what the
    writers of nvs_partition_gen.py are proved against. */
module NvsReader {
  import opened Buffers
  import opened Octets
  import opened NvsFormat

  // ---------- entries ----------

  /** Kinds whose header is followed by data; their field is its length, two blank bytes and its
      checksum. */
  predicate VarLen(kind: byte) { kind in {SZ, BLOB, BLOB_DATA} }

  ghost predicate Sound(crc: Crc, i: Item) {
    && ItemOk(i)
    && if VarLen(i.kind) then
         |i.payload| < 65536 && i.field[..2] == LE(|i.payload|, 2) && i.field[4..] == LE(crc(i.payload), 4)
       else i.payload == []
  }

  ghost predicate AllSound(crc: Crc, items: seq<Item>) { forall k :: 0 <= k < |items| ==> Sound(crc, items[k]) }

  function Min(a: nat, b: nat): nat { if a < b then a else b }

  /** The entry that starts at the front of rest. */
  function Decode(rest: seq<byte>): Item
    requires |rest| >= 32
  {
    var field := rest[24..32];
    var len := if VarLen(rest[1]) then FromLE(field[..2]) else 0;
    Item(rest[0], rest[1], rest[3], rest[8..24], field, rest[32..Min(32 + len, |rest|)])
  }

  /** The checksums of the entry at the front of rest: over the header but the checksum itself, and
      over the data. */
  predicate Checked(crc: Crc, rest: seq<byte>)
    requires |rest| >= 32
  {
    && FromLE(rest[4..8]) == crc(rest[..4] + rest[8..32]) % 0x1_0000_0000
    && (VarLen(rest[1]) ==> FromLE(rest[28..32]) == crc(Decode(rest).payload) % 0x1_0000_0000)
  }

  /** The entries of a page from entry pos on: the bitmap says where they end, the spans how far
      apart they are, and an entry with a wrong checksum ends the reading. */
  function ReadFrom(crc: Crc, page: seq<byte>, pos: nat): seq<Item>
    requires |page| == PAGE_SIZE
    decreases MAX_ENTRIES - pos
  {
    if pos >= MAX_ENTRIES || !Marked(page[32..64], pos) then []
    else
      var o := FIRST_ENTRY + 32 * pos;
      var span: nat := page[o + 2];
      if !Checked(crc, page[o..]) then []
      else [Decode(page[o..])] + ReadFrom(crc, page, pos + if span == 0 then 1 else span)
  }

  /** The entries of an image, page after page. */
  function ReadImage(crc: Crc, image: seq<byte>): seq<Item> {
    if |image| < PAGE_SIZE then []
    else ReadImage(crc, image[..|image| - PAGE_SIZE]) + ReadFrom(crc, image[|image| - PAGE_SIZE..], 0)
  }

  lemma CheckItem(crc: Crc, i: Item, tail: seq<byte>)
    requires Sound(crc, i)
    ensures Checked(crc, Bytes(crc, i) + tail)
  {
    hide Decode, LE, FromLE;
    DecodeItem(crc, i, tail);
    var rest, front := Bytes(crc, i) + tail, [i.ns, i.kind, Slots(i), i.chunk];
    var sum := LE(crc(front + i.key + i.field), 4);
    var pad := Fill(32 * Rows(|i.payload|) - |i.payload|);
    HeaderSlices(front, sum, i.key, i.field, i.payload + pad + tail);
    assert rest == front + sum + i.key + i.field + (i.payload + pad + tail);
    LEMod(crc(front + i.key + i.field), 4);
    LEMod(crc(i.payload), 4);
    assert Pow256(4) == 0x1_0000_0000 by { assert Pow256(3) == 16777216 && Pow256(2) == 65536; }
  }

  lemma HeaderSlices(front: seq<byte>, sum: seq<byte>, key: seq<byte>, field: seq<byte>, more: seq<byte>)
    requires |front| == |sum| == 4 && |key| == 16 && |field| == 8
    ensures var rest := front + sum + key + field + more;
      && rest[..4] == front && rest[4..8] == sum && rest[8..32] == key + field && rest[28..32] == field[4..]
      && rest[..4] + rest[8..32] == front + key + field && rest[1] == front[1]
  {
    var rest := front + sum + key + field + more;
    assert rest[24..32] == field && rest[28..32] == rest[24..32][4..];
  }

  lemma DecodeItem(crc: Crc, i: Item, tail: seq<byte>)
    requires Sound(crc, i)
    ensures Decode(Bytes(crc, i) + tail) == i
  {
    var rest := Bytes(crc, i) + tail;
    var pad := Fill(32 * Rows(|i.payload|) - |i.payload|);
    assert rest == Header(crc, i) + i.payload + (pad + tail);
    HeaderParts(crc, i);
    assert rest[..32] == Header(crc, i);
    assert rest[8..24] == rest[..32][8..24] && rest[24..32] == rest[..32][24..32];
    if VarLen(i.kind) {
      LEReads(|i.payload|, 2);
      assert Pow256(2) == 65536 by { assert Pow256(1) == 256; }
    }
    assert rest[32..32 + |i.payload|] == i.payload;
  }

  lemma HeaderParts(crc: Crc, i: Item)
    requires ItemOk(i)
    ensures var h := Header(crc, i);
      h[0] == i.ns && h[1] == i.kind && h[3] == i.chunk && h[8..24] == i.key && h[24..32] == i.field
  {}

  // What follows the place of entry k in a page begins with the bytes of entry k.
  lemma TailAt(crc: Crc, num: nat, version: byte, items: seq<Item>, k: nat) returns (tail: seq<byte>)
    requires AllOk(items) && Total(items) <= MAX_ENTRIES && k < |items|
    ensures Total(items[..k]) < MAX_ENTRIES && ItemOk(items[k])
    ensures Layout(crc, num, version, items)[FIRST_ENTRY + 32 * Total(items[..k])..] == Bytes(crc, items[k]) + tail
  {
    hide Image, Bytes, Total, Header, AllOk, Fill, PageHeader, Bitmap;
    ImagePrefix(crc, items, k);
    TotalSplit(items, k);
    TotalSplit(items, k + 1);
    var p, n := 32 * Total(items[..k]), 32 * Slots(items[k]);
    var image, fill := Image(crc, items), Fill(32 * (MAX_ENTRIES - Total(items)));
    tail := image[p + n..] + fill;
    SplitTail(PageHeader(crc, num, version) + Bitmap(Total(items)), image, fill, p, n);
  }

  lemma SplitTail(front: seq<byte>, image: seq<byte>, fill: seq<byte>, p: nat, n: nat)
    requires p + n <= |image|
    ensures (front + image + fill)[|front| + p..] == image[p..p + n] + (image[p + n..] + fill)
  {}

  lemma BitmapAt(crc: Crc, num: nat, version: byte, items: seq<Item>)
    requires AllOk(items) && Total(items) <= MAX_ENTRIES
    ensures Layout(crc, num, version, items)[32..64] == Bitmap(Total(items))
  {
    hide Image, Bitmap, PageHeader;
  }

  /** Reading a page gives back the entries put into it, in order, with their data. */
  lemma {:induction false} PageReadsBack(crc: Crc, num: nat, version: byte, items: seq<Item>, k: nat)
    requires AllOk(items) && AllSound(crc, items) && Total(items) <= MAX_ENTRIES && k <= |items|
    ensures ReadFrom(crc, Layout(crc, num, version, items), Total(items[..k])) == items[k..]
    decreases |items| - k
  {
    hide Layout, Bytes, Total, Decode, Checked, Bitmap, AllOk, Marked, Sound;
    var page := Layout(crc, num, version, items);
    BitmapAt(crc, num, version, items);
    TotalSplit(items, k);
    var pos := Total(items[..k]);
    if pos < MAX_ENTRIES { BitmapMarks(Total(items), pos); }
    if k < |items| {
      TotalSplit(items, k + 1);
      SpanByte(crc, num, version, items, k);
      var tail := TailAt(crc, num, version, items, k);
      DecodeItem(crc, items[k], tail);
      CheckItem(crc, items[k], tail);
      PageReadsBack(crc, num, version, items, k + 1);
      assert items[k..] == [items[k]] + items[k + 1..];
    } else {
      assert items[..k] == items;
    }
  }

  /** A blank page holds no entries. */
  lemma BlankReadsNothing(crc: Crc)
    ensures ReadFrom(crc, Fill(PAGE_SIZE), 0) == []
  {
    assert Fill(PAGE_SIZE)[32..64][0] == 255;
  }

  lemma ReadImageSnoc(crc: Crc, image: seq<byte>, page: seq<byte>)
    requires |page| == PAGE_SIZE
    ensures ReadImage(crc, image + page) == ReadImage(crc, image) + ReadFrom(crc, page, 0)
  {
    hide ReadFrom;
    assert (image + page)[..|image|] == image && (image + page)[|image|..] == page;
  }

  // ---------- blobs ----------

  /** The first entry of that namespace, kind and key; of chunks, with that chunk index. */
  function Find(items: seq<Item>, ns: byte, kind: byte, key: seq<byte>, chunk: byte): Option<Item> {
    if items == [] then None
    else if items[0].ns == ns && items[0].kind == kind && items[0].key == key && items[0].chunk == chunk then
      Some(items[0])
    else Find(items[1..], ns, kind, key, chunk)
  }

  /** The data of chunks 0 to count - 1, joined. */
  function Collect(items: seq<Item>, ns: byte, key: seq<byte>, count: byte): Option<seq<byte>> {
    if count == 0 then Some([])
    else
      match Collect(items, ns, key, count - 1)
      case None => None
      case Some(front) =>
        match Find(items, ns, BLOB_DATA, key, count - 1)
        case None => None
        case Some(i) => Some(front + i.payload)
  }

  /** A blob by its index entry: as many chunks as that says, and only if they have the size it
      says. */
  function ReadBlob(items: seq<Item>, ns: byte, key: seq<byte>): Option<seq<byte>> {
    match Find(items, ns, BLOB_IDX, key, CHUNK_ANY)
    case None => None
    case Some(i) =>
      if |i.field| != 8 then None
      else
        match Collect(items, ns, key, i.field[4])
        case None => None
        case Some(data) => if |data| == FromLE(i.field[..4]) then Some(data) else None
  }

  /** The BLOB_DATA entry of one chunk. */
  function ChunkItem(crc: Crc, ns: byte, key: seq<byte>, data: seq<byte>, chunk: byte): Item {
    Item(ns, BLOB_DATA, chunk, key, LE(|data|, 2) + Fill(2) + LE(crc(data), 4), data)
  }

  ghost function ChunkItems(crc: Crc, ns: byte, key: seq<byte>, chunks: seq<seq<byte>>): (r: seq<Item>)
    requires |chunks| <= 256
    ensures |r| == |chunks|
  {
    seq(|chunks|, k requires 0 <= k < |chunks| => ChunkItem(crc, ns, key, chunks[k], k))
  }

  /** The BLOB_IDX entry. */
  function IndexItem(ns: byte, key: seq<byte>, size: nat, count: byte): Item {
    Item(ns, BLOB_IDX, CHUNK_ANY, key, LE(size, 4) + [count, 0] + Fill(2), [])
  }

  /** No entry of a blob of that namespace and key. */
  ghost predicate Unused(items: seq<Item>, ns: byte, key: seq<byte>) {
    forall k ::
      0 <= k < |items| ==> !(items[k].ns == ns && items[k].kind in {BLOB_DATA, BLOB_IDX} && items[k].key == key)
  }

  lemma {:induction false} FindPast(a: seq<Item>, b: seq<Item>, ns: byte, kind: byte, key: seq<byte>, chunk: byte)
    requires forall k ::
      0 <= k < |a| ==> !(a[k].ns == ns && a[k].kind == kind && a[k].key == key && a[k].chunk == chunk)
    ensures Find(a + b, ns, kind, key, chunk) == Find(b, ns, kind, key, chunk)
  {
    if a == [] {
      assert a + b == b;
    } else {
      assert (a + b)[1..] == a[1..] + b;
      FindPast(a[1..], b, ns, kind, key, chunk);
    }
  }

  lemma FindChunk(crc: Crc, before: seq<Item>, after: seq<Item>, ns: byte, key: seq<byte>, chunks: seq<seq<byte>>,
                  k: nat)
    requires Unused(before, ns, key) && k < |chunks| <= 255
    ensures Find(before + ChunkItems(crc, ns, key, chunks) + after, ns, BLOB_DATA, key, k) ==
      Some(ChunkItem(crc, ns, key, chunks[k], k))
  {
    var mine := ChunkItems(crc, ns, key, chunks);
    assert before + mine + after == (before + mine[..k]) + (mine[k..] + after);
    FindPast(before + mine[..k], mine[k..] + after, ns, BLOB_DATA, key, k);
    assert (mine[k..] + after)[0] == mine[k];
  }

  lemma {:induction false} CollectAll(crc: Crc, before: seq<Item>, after: seq<Item>, ns: byte, key: seq<byte>,
                                      chunks: seq<seq<byte>>, k: nat)
    requires Unused(before, ns, key) && k <= |chunks| <= 255
    ensures Collect(before + ChunkItems(crc, ns, key, chunks) + after, ns, key, k) == Some(Concat(chunks[..k]))
  {
    hide Find;
    if k > 0 {
      CollectAll(crc, before, after, ns, key, chunks, k - 1);
      FindChunk(crc, before, after, ns, key, chunks, k - 1);
      assert chunks[..k][..k - 1] == chunks[..k - 1];
    }
  }

  /** A blob written as chunks and an index entry behind entries that do not use its key reads back
      whole, whatever was written after it. */
  lemma BlobReadsBack(crc: Crc, before: seq<Item>, after: seq<Item>, ns: byte, key: seq<byte>, data: seq<byte>,
                      chunks: seq<seq<byte>>)
    requires Unused(before, ns, key) && |chunks| <= 255 && Concat(chunks) == data && |data| < Pow256(4)
    ensures var items := before + ChunkItems(crc, ns, key, chunks) + [IndexItem(ns, key, |data|, |chunks|)] + after;
      ReadBlob(items, ns, key) == Some(data)
  {
    hide Find, Collect, Pow256;
    var mine, index := ChunkItems(crc, ns, key, chunks), IndexItem(ns, key, |data|, |chunks|);
    var all := before + mine + [index] + after;
    assert all == before + mine + ([index] + after);
    CollectAll(crc, before, [index] + after, ns, key, chunks, |chunks|);
    assert chunks[..|chunks|] == chunks;
    assert Find(all, ns, BLOB_IDX, key, CHUNK_ANY) == Some(index) by {
      FindPast(before + mine, [index] + after, ns, BLOB_IDX, key, CHUNK_ANY);
      IndexFirst(index, after);
    }
    LEReads(|data|, 4);
    assert index.field[..4] == LE(|data|, 4);
  }

  lemma IndexFirst(i: Item, after: seq<Item>)
    ensures Find([i] + after, i.ns, i.kind, i.key, i.chunk) == Some(i)
  {}
}
