/** The NVS object of nvs_partition_gen.py: it turns keys and values into entries, moves to a new page
    when one is full, cuts blobs over as many pages as they need, and closes the partition. */
module NvsGenerator {
  import opened Buffers
  import opened Octets
  import opened NvsFormat
  import opened NvsReader
  import opened NvsPartition

  const MAX_OLD_BLOB := 1984
  const MAX_NEW_BLOB := 4000

  /** How a call ends: normally, or by the exception of that name. */
  datatype Outcome = DONE | PAGE_FULL | INPUT_ERROR | INSUFFICIENT_SIZE | PAGE_OVERFLOW | VALUE_ERROR | EXIT

  datatype Encoding = U8 | I8 | U16 | U32 | I32

  /** What one row of the input holds, decoded: text with its terminating zero, bytes, or a number. */
  datatype Value = Text(bytes: seq<byte>) | Binary(bytes: seq<byte>) | Number(encoding: Encoding, n: int)

  function Code(e: Encoding): byte {
    match e case U8 => 0x01 case I8 => 0x11 case U16 => 0x02 case U32 => 0x04 case I32 => 0x14
  }

  function Width(e: Encoding): nat {
    match e case U8 => 1 case I8 => 1 case U16 => 2 case U32 => 4 case I32 => 4
  }

  function Lowest(e: Encoding): int {
    match e case I8 => -128 case I32 => -0x8000_0000 case _ => 0
  }

  /** struct.pack_into: the values an encoding takes. */
  predicate Packs(e: Encoding, n: int) { Lowest(e) <= n < Lowest(e) + Pow256(Width(e)) }

  function Pad(key: seq<byte>): (r: seq<byte>)
    requires |key| <= 16
    ensures |r| == 16
  {
    key + seq(16 - |key|, _ => 0)
  }

  function NumberItem(ns: byte, key: seq<byte>, e: Encoding, n: int): Item
    requires |key| <= 16
  {
    Item(ns, Code(e), CHUNK_ANY, Pad(key), LE(n % Pow256(Width(e)), Width(e)) + Fill(8 - Width(e)), [])
  }

  /** A value kept on one page behind its header. */
  function SingleItem(crc: Crc, ns: byte, kind: byte, key: seq<byte>, data: seq<byte>): Item
    requires |key| <= 16
  {
    Item(ns, kind, CHUNK_ANY, Pad(key), LE(|data|, 2) + Fill(2) + LE(crc(data), 4), data)
  }

  /** The number a reader finds by the kind of the entry: its low digit is the width in bytes, its high
      digit one for two's complement. */
  function ReadNumber(i: Item): int
    requires |i.field| == 8 && i.kind % 16 <= 8
  {
    var u, width := FromLE(i.field[..i.kind % 16]), i.kind % 16;
    if i.kind / 16 == 1 && 2 * u >= Pow256(width) then u - Pow256(width) else u
  }

  lemma NumberReadsBack(ns: byte, key: seq<byte>, e: Encoding, n: int)
    requires |key| <= 16 && Packs(e, n)
    ensures var i := NumberItem(ns, key, e, n);
      && |i.field| == 8 && i.kind % 16 <= 8 && ReadNumber(i) == n
      && i.ns == ns && i.key[..|key|] == key && forall j :: |key| <= j < 16 ==> i.key[j] == 0
  {
    Powers256();
    var i, p := NumberItem(ns, key, e, n), Pow256(Width(e));
    LEReads(n % p, Width(e));
    assert i.field[..Width(e)] == LE(n % p, Width(e));
    assert n % p == if n < 0 then n + p else n;
  }

  lemma Powers256()
    ensures Pow256(1) == 256 && Pow256(2) == 65536 && Pow256(4) == 0x1_0000_0000
  {
    assert Pow256(3) == 16777216;
  }

  // ---------- blobs over pages ----------

  function CeilDiv(a: int, b: nat): nat
    requires b > 0
  {
    if a <= 0 then 0 else (a + b - 1) / b
  }

  /** How many new pages a blob of n bytes opens when it starts behind e entries: its chunks and its
      index entry must fit. */
  function NewPages(e: nat, n: nat): nat { CeilDiv(n - (124 - e) * 32, 4000) }

  /** How many chunks it is cut into. */
  function Chunks(e: nat, n: nat): nat { 1 + CeilDiv(n - (125 - e) * 32, 4000) }

  lemma NextPage(e: nat, n: nat)
    requires e <= 125 && n > (125 - e) * 32
    ensures NewPages(e, n) == 1 + NewPages(0, n - (125 - e) * 32)
    ensures Chunks(e, n) == 1 + Chunks(0, n - (125 - e) * 32)
  {
    hide CeilDiv;
    CeilStep(n - (124 - e) * 32);
    CeilStep(n - (125 - e) * 32);
  }

  lemma CeilStep(a: int)
    requires a > 0
    ensures CeilDiv(a, 4000) == 1 + CeilDiv(a - 4000, 4000)
  {}

  // ---------- what is written, and when ----------

  /** The entries a value becomes; a blob of version 2 as the chunks it was cut into. */
  ghost function ItemsOf(crc: Crc, version: byte, ns: byte, key: seq<byte>, value: Value,
                         chunks: seq<seq<byte>>): seq<Item>
    requires |key| <= 16 && |chunks| <= 255
  {
    match value
    case Number(e, n) => [NumberItem(ns, key, e, n)]
    case Text(bytes) => [SingleItem(crc, ns, SZ, key, bytes)]
    case Binary(bytes) =>
      if version == VERSION2 then ChunkItems(crc, ns, Pad(key), chunks) + [IndexItem(ns, Pad(key), |bytes|, |chunks|)]
      else [SingleItem(crc, ns, BLOB, key, bytes)]
  }

  predicate MultiPage(version: byte, value: Value) { version == VERSION2 && value.Binary? }

  function Limit(version: byte): nat { if version == VERSION2 then MAX_NEW_BLOB else MAX_OLD_BLOB }

  /** Exactly when a value is stored: ns the namespace, e the entries of the current page, size the
      bytes left for new pages. */
  predicate Accepts(version: byte, ns: nat, e: nat, size: nat, value: Value) {
    && ns <= 255
    && match value
       case Number(enc, n) => Packs(enc, n) && (e < MAX_ENTRIES || size > 0)
       case Text(b) => AcceptsSingle(version, e, size, |b|)
       case Binary(b) =>
         if version == VERSION2 then e < MAX_ENTRIES && PAGE_SIZE * NewPages(e, |b|) <= size && Chunks(e, |b|) <= 255
         else AcceptsSingle(version, e, size, |b|)
  }

  predicate AcceptsSingle(version: byte, e: nat, size: nat, n: nat) {
    n <= Limit(version) && Rows(n) <= 124 && (e + 1 + Rows(n) < MAX_ENTRIES || size > 0)
  }

  /** Where the next entry goes: the entries of the current page, and the bytes left for new pages. */
  datatype Place = Place(entry: nat, size: nat)

  function Less(size: nat, n: nat): nat { if n <= size then size - n else 0 }

  /** Behind an entry of so many slots, on the current page or on a new one. */
  function Put(at: Place, slots: nat, here: bool): Place {
    if here then Place(at.entry + slots, at.size) else Place(slots, Less(at.size, PAGE_SIZE))
  }

  /** The entries of the page a blob of n bytes ends on, its index entry the last, when it starts
      behind e entries. */
  function BlobEnd(e: nat, n: nat): nat
    decreases n, e
  {
    if e > 125 then 0
    else if n > (125 - e) * 32 then BlobEnd(0, n - (125 - e) * 32)
    else if n > (124 - e) * 32 then 1
    else e + 2 + Rows(n)
  }

  /** The place behind a value that is stored. */
  function Behind(version: byte, at: Place, value: Value): Place {
    if value.Number? then Put(at, 1, at.entry < MAX_ENTRIES)
    else if MultiPage(version, value) then
      Place(BlobEnd(at.entry, |value.bytes|), Less(at.size, PAGE_SIZE * NewPages(at.entry, |value.bytes|)))
    else Put(at, 1 + Rows(|value.bytes|), at.entry + 1 + Rows(|value.bytes|) < MAX_ENTRIES)
  }

  /** With room for another page, text is stored exactly up to 3968 bytes with its zero: the limit of
      4000 that is checked first lets through texts no page can ever take. In version 1 the limit is
      1984 bytes. */
  lemma LongTextNeverFits(ns: nat, e: nat, size: nat, b: seq<byte>)
    requires ns <= 255 && size > 0
    ensures Accepts(VERSION2, ns, e, size, Text(b)) <==> |b| <= 3968
    ensures Accepts(VERSION1, ns, e, size, Text(b)) <==> |b| <= 1984
    ensures Accepts(VERSION1, ns, e, size, Binary(b)) <==> |b| <= 1984
  {}

  /** A number goes on the current page while one of its 126 entries is free; a value of several entries
      only if one more would be, so the last entry of a page never ends one. */
  lemma StaysExactly(version: byte, at: Place, value: Value)
    requires !MultiPage(version, value)
    ensures var n, left := if value.Number? then 0 else |value.bytes|, if at.size >= 4096 then at.size - 4096 else 0;
      Behind(version, at, value) ==
        if value.Number? && at.entry < 126 then Place(at.entry + 1, at.size)
        else if !value.Number? && n <= 32 * (124 - at.entry) then Place(at.entry + 1 + (n + 31) / 32, at.size)
        else Place(1 + (n + 31) / 32, left)
  {}

  /** On a page whose 126 entries are all taken a blob of version 2 is refused however much space is
      left, where the same bytes in version 1, or a number, move on to a new page. */
  lemma FullPageStopsBlobs(ns: nat, size: nat, b: seq<byte>)
    requires ns <= 255 && size > 0 && |b| <= MAX_OLD_BLOB
    ensures !Accepts(VERSION2, ns, MAX_ENTRIES, size, Binary(b)) && Accepts(VERSION1, ns, MAX_ENTRIES, size, Binary(b))
    ensures Accepts(VERSION2, ns, MAX_ENTRIES, size, Number(U8, ns))
  {
    Powers256();
  }

  // ---------- pages and their contents ----------

  lemma ConcatPut(log: seq<seq<Item>>, i: Item)
    requires |log| > 0
    ensures Concat(log[|log| - 1 := log[|log| - 1] + [i]]) == Concat(log) + [i]
  {
    var log' := log[|log| - 1 := log[|log| - 1] + [i]];
    assert log'[..|log| - 1] == log[..|log| - 1];
  }

  lemma ConcatNew(log: seq<seq<Item>>)
    ensures Concat(log + [[]]) == Concat(log)
  {
    assert (log + [[]])[..|log|] == log;
  }

  /** A data page with that number and these entries. */
  ghost predicate Holds(p: Page, crc: Crc, num: nat, version: byte, items: seq<Item>)
    reads p
  {
    && p.Valid() && !p.reserved && p.num == num && p.crc == crc && p.version == version
    && p.items == items && AllSound(crc, items)
  }

  lemma AllSoundSnoc(crc: Crc, items: seq<Item>, i: Item)
    requires AllSound(crc, items) && Sound(crc, i)
    ensures AllSound(crc, items + [i])
  {}

  class Nvs {
    const crc: Crc
    const version: byte
    const capacity: nat
    var size: nat
    var namespaceIdx: nat
    var pageNum: int
    var pages: seq<Page>
    var curPage: Page
    ghost var log: seq<seq<Item>>

    ghost predicate Valid()
      reads this, pages
    {
      && 0 < |pages| == |log| && curPage == pages[|pages| - 1] && pageNum == |pages| - 1
      && (forall i, j :: 0 <= i < j < |pages| ==> pages[i] != pages[j])
      && (forall k :: 0 <= k < |pages| ==> Holds(pages[k], crc, k, version, log[k]))
      && size + PAGE_SIZE * |pages| == capacity && capacity % PAGE_SIZE == 0
    }

    constructor (c: Crc, inputSize: nat, v: byte)
      requires inputSize % PAGE_SIZE == 0 && inputSize >= 2 * PAGE_SIZE && v in {VERSION1, VERSION2}
      ensures Valid() && capacity == inputSize && Concat(log) == [] && crc == c && version == v && namespaceIdx == 0
      ensures |pages| == 1 && fresh(curPage) && curPage.entryNum == 0 && size == inputSize - PAGE_SIZE
    {
      crc, version, capacity := c, v, inputSize;
      size, namespaceIdx, pageNum := inputSize - PAGE_SIZE, 0, 0;
      var page := new Page(c, 0, v, false);
      pages, curPage, log := [page], page, [[]];
      new;
      ConcatNew([]);
      assert [] + [[]] == log;
    }

    /** create_new_page for data: refused when the size is used up. */
    method CreateNewPage() returns (o: Outcome)
      requires Valid()
      modifies this`size, this`pageNum, this`pages, this`curPage, this`log
      ensures Valid() && Concat(log) == old(Concat(log)) && o == (if old(size) > 0 then DONE else INSUFFICIENT_SIZE)
      ensures o == DONE ==>
        fresh(curPage) && curPage.entryNum == 0 && size == old(size) - PAGE_SIZE && pages == old(pages) + [curPage]
      ensures o != DONE ==> size == old(size) && pages == old(pages) && curPage == old(curPage) && log == old(log)
    {
      hide Concat, Holds;
      if size == 0 { return INSUFFICIENT_SIZE; }
      SizeWhole(size, |pages|, capacity);
      var page := NewPage(crc, pageNum + 1, version);
      ConcatNew(log);
      size, pageNum := size - PAGE_SIZE, pageNum + 1;
      pages, curPage, log := pages + [page], page, log + [[]];
      return DONE;
    }

    // An entry put on the current page is the next of all entries.
    method Append(item: Item)
      requires Valid() && Sound(crc, item) && curPage.entryNum + Slots(item) <= MAX_ENTRIES
      modifies this`log, curPage
      ensures Valid() && Concat(log) == old(Concat(log)) + [item]
      ensures curPage.entryNum == old(curPage.entryNum) + Slots(item)
    {
      hide Concat, Holds, Sound, ItemOk, Slots;
      ConcatPut(log, item);
      PutOn(curPage, item, crc, pageNum, version, log[|log| - 1]);
      log := log[|log| - 1 := log[|log| - 1] + [item]];
    }

    lemma Entries()
      requires Valid()
      ensures curPage.entryNum <= MAX_ENTRIES
    {}

    // One round of write_varlen_binary_data: a chunk, and a new page if more is to come or the index
    // entry would not fit. The checks on the tail room and on the chunk index are the caller's.
    method PutChunk(ns: byte, key: seq<byte>, piece: seq<byte>, chunk: byte, more: bool) returns (o: Outcome)
      requires Valid() && |key| == 16 && curPage.entryNum <= 125
      requires |piece| <= 32 * (125 - curPage.entryNum) && (more ==> |piece| == 32 * (125 - curPage.entryNum))
      modifies this`size, this`pageNum, this`pages, this`curPage, this`log, curPage
      ensures Valid() && Concat(log) == old(Concat(log)) + [ChunkItem(crc, ns, key, piece, chunk)]
      ensures (curPage == old(curPage) || fresh(curPage)) && o in {DONE, INSUFFICIENT_SIZE}
      ensures more || |piece| > 32 * (124 - old(curPage.entryNum)) ==>
        o == if old(size) > 0 then DONE else INSUFFICIENT_SIZE
      ensures more || |piece| > 32 * (124 - old(curPage.entryNum)) ==>
        o == DONE ==> fresh(curPage) && curPage.entryNum == 0 && size == old(size) - PAGE_SIZE
      ensures !more && |piece| <= 32 * (124 - old(curPage.entryNum)) ==>
        && o == DONE && curPage == old(curPage) && curPage.entryNum == old(curPage.entryNum) + 1 + Rows(|piece|) <= 125
        && size == old(size)
    {
      hide Concat, Holds, Sound, ChunkItem;
      var tailroom := (MAX_ENTRIES - curPage.entryNum - 1) * ENTRY_SIZE;
      ChunkSound(crc, ns, key, piece, chunk);
      Append(ChunkItem(crc, ns, key, piece, chunk));
      if more || tailroom - |piece| < ENTRY_SIZE {
        o := CreateNewPage();
      } else {
        o := DONE;
      }
    }

    /** write_varlen_binary_data. */
    method WriteBlob(ns: byte, key: seq<byte>, data: seq<byte>) returns (o: Outcome, ghost chunks: seq<seq<byte>>)
      requires Valid() && |key| == 16
      modifies this`size, this`pageNum, this`pages, this`curPage, this`log, curPage
      ensures Valid() && |chunks| <= 256
      ensures (curPage == old(curPage) || fresh(curPage)) && o != EXIT
      ensures o == DONE <==>
        && old(curPage.entryNum) < MAX_ENTRIES && PAGE_SIZE * NewPages(old(curPage.entryNum), |data|) <= old(size)
        && Chunks(old(curPage.entryNum), |data|) <= 255
      ensures o == DONE ==> Concat(chunks) == data && |chunks| == Chunks(old(curPage.entryNum), |data|)
      ensures o == DONE ==>
        Concat(log) == old(Concat(log)) + ChunkItems(crc, ns, key, chunks) + [IndexItem(ns, key, |data|, |chunks|)]
      ensures o == DONE ==> size == old(size) - PAGE_SIZE * NewPages(old(curPage.entryNum), |data|)
      ensures o == DONE ==> curPage.entryNum == BlobEnd(old(curPage.entryNum), |data|)
      ensures (o == PAGE_OVERFLOW <==> old(curPage.entryNum) == MAX_ENTRIES) && o != PAGE_FULL
    {
      hide Holds, NewPages, Chunks, BlobEnd, Concat, ChunkItem, ChunkItems, IndexItem;
      Entries();
      ghost var e0, n, items := curPage.entryNum, |data|, Concat(log);
      var offset: nat, count: nat, remaining: int := 0, 0, |data|;
      chunks := [];
      NoChunks(crc, ns, key, items);
      while true
        invariant Valid() && 0 <= remaining && offset + remaining == |data| && |chunks| == count <= 256
        invariant Concat(chunks) == data[..offset]
        invariant Concat(log) == items + ChunkItems(crc, ns, key, chunks)
        invariant curPage == old(curPage) || fresh(curPage)
        invariant if count == 0 then curPage.entryNum == e0 && remaining == |data|
          else curPage.entryNum == 0 && remaining > 0 && e0 < MAX_ENTRIES
        invariant NewPages(e0, n) == count + NewPages(curPage.entryNum, remaining)
        invariant Chunks(e0, n) == count + Chunks(curPage.entryNum, remaining)
        invariant e0 < MAX_ENTRIES ==> BlobEnd(e0, n) == BlobEnd(curPage.entryNum, remaining)
        invariant size + PAGE_SIZE * count == old(size)
        decreases remaining, if count == 0 then 1 else 0
      {
        ghost var e, left := curPage.entryNum, remaining;
        if MAX_ENTRIES - curPage.entryNum - 1 < 0 { return PAGE_OVERFLOW, chunks; }
        var tailroom := (MAX_ENTRIES - curPage.entryNum - 1) * ENTRY_SIZE;
        var chunkSize := if tailroom < remaining then tailroom else remaining;
        PageNeeds(e, left);
        if count > 255 { return VALUE_ERROR, chunks; }
        remaining := remaining - chunkSize;
        var piece := data[offset..offset + chunkSize];
        PieceNext(crc, ns, key, data, chunks, offset, piece, items);
        o := PutChunk(ns, key, piece, count, remaining > 0);
        chunks, count, offset := chunks + [piece], count + 1, offset + chunkSize;
        if o != DONE { return; }
        if remaining == 0 {
          if count > 255 { return VALUE_ERROR, chunks; }
          IndexSound(crc, ns, key, |data|, count);
          Append(IndexItem(ns, key, |data|, count));
          assert data[..offset] == data;
          return DONE, chunks;
        }
      }
    }

    /** write_varlen_data on the current page. */
    method WriteVarlen(key: seq<byte>, value: Value) returns (o: Outcome, ghost chunks: seq<seq<byte>>)
      requires Valid() && |key| <= 16 && !value.Number?
      modifies this`size, this`pageNum, this`pages, this`curPage, this`log, curPage
      ensures Valid() && |chunks| <= 256
      ensures (curPage == old(curPage) || fresh(curPage)) && o != EXIT
      ensures var n, e := |value.bytes|, old(curPage.entryNum);
        !MultiPage(version, value) ==>
          o ==
            if n > Limit(version) then INPUT_ERROR
            else if e + 1 + Rows(n) >= MAX_ENTRIES then PAGE_FULL else if namespaceIdx > 255 then VALUE_ERROR else DONE
      ensures MultiPage(version, value) ==>
        (o == DONE <==> Accepts(version, namespaceIdx, old(curPage.entryNum), old(size), value)) && o != PAGE_FULL
      ensures o == DONE ==>
        && |chunks| <= 255 && namespaceIdx <= 255
        && Concat(log) == old(Concat(log)) + ItemsOf(crc, version, namespaceIdx, key, value, chunks)
      ensures o == DONE && MultiPage(version, value) ==> Concat(chunks) == value.bytes
      ensures o == DONE ==> if MultiPage(version, value)
        then Place(curPage.entryNum, size) == Behind(version, Place(old(curPage.entryNum), old(size)), value)
        else curPage.entryNum == old(curPage.entryNum) + 1 + Rows(|value.bytes|) && size == old(size)
      ensures o == PAGE_FULL ==> size == old(size) && curPage == old(curPage) && Concat(log) == old(Concat(log))
    {
      hide Holds, NewPages, Chunks, BlobEnd, Concat, ChunkItem, ChunkItems, IndexItem;
      var data := value.bytes;
      chunks := [];
      if !MultiPage(version, value) {
        if |data| > Limit(version) { return INPUT_ERROR, []; }
        if curPage.entryNum + Rows(|data|) + 1 >= MAX_ENTRIES { return PAGE_FULL, []; }
      }
      if namespaceIdx > 255 { return VALUE_ERROR, []; }
      if MultiPage(version, value) {
        o, chunks := WriteBlob(namespaceIdx, Pad(key), data);
        Associate(old(Concat(log)), ChunkItems(crc, namespaceIdx, Pad(key), chunks),
                  [IndexItem(namespaceIdx, Pad(key), |data|, |chunks| % 256)]);
      } else {
        var kind := if value.Text? then SZ else BLOB;
        SingleSound(crc, namespaceIdx, kind, key, data);
        Append(SingleItem(crc, namespaceIdx, kind, key, data));
        o := DONE;
      }
    }

    /** write_primitive_data on the current page. */
    method WritePrimitive(key: seq<byte>, ns: nat, e: Encoding, n: int) returns (o: Outcome)
      requires Valid() && |key| <= 16
      modifies this`log, curPage
      ensures Valid()
      ensures o ==
        if old(curPage.entryNum) >= MAX_ENTRIES then PAGE_FULL
        else if ns > 255 || !Packs(e, n) then VALUE_ERROR else DONE
      ensures o == DONE ==> ns <= 255 && Concat(log) == old(Concat(log)) + [NumberItem(ns, key, e, n)]
      ensures o == DONE ==> curPage.entryNum == old(curPage.entryNum) + 1
      ensures o == PAGE_FULL ==> Concat(log) == old(Concat(log))
    {
      hide Concat, Holds, NumberItem, Packs, Sound;
      if curPage.entryNum >= MAX_ENTRIES { return PAGE_FULL; }
      if ns > 255 || !Packs(e, n) { return VALUE_ERROR; }
      NumberSound(crc, ns, key, e, n);
      Append(NumberItem(ns, key, e, n));
      return DONE;
    }

    /** write_namespace: every following entry is in this new namespace. */
    method WriteNamespace(key: seq<byte>) returns (o: Outcome)
      requires Valid() && |key| <= 16
      modifies this, curPage
      ensures Valid() && namespaceIdx == old(namespaceIdx) + 1
      ensures (curPage == old(curPage) || fresh(curPage)) && o != EXIT
      ensures o == DONE <==> Accepts(version, 0, old(curPage.entryNum), old(size), Number(U8, namespaceIdx))
      ensures o == DONE ==> Concat(log) == old(Concat(log)) + [NumberItem(0, key, U8, namespaceIdx)]
      ensures o == DONE ==>
        Place(curPage.entryNum, size) ==
          Behind(version, Place(old(curPage.entryNum), old(size)), Number(U8, namespaceIdx))
    {
      hide Concat, Holds, NumberItem, Packs;
      namespaceIdx := namespaceIdx + 1;
      o := WritePrimitive(key, 0, U8, namespaceIdx);
      if o == PAGE_FULL {
        o := CreateNewPage();
        if o == DONE { o := WritePrimitive(key, 0, U8, namespaceIdx); }
      }
    }

    /** write_entry: on the current page, and once more on a new one if that raises the page-full
        exception. */
    method WriteEntry(key: seq<byte>, value: Value) returns (o: Outcome, ghost chunks: seq<seq<byte>>)
      requires Valid() && |key| <= 16
      modifies this`size, this`pageNum, this`pages, this`curPage, this`log, curPage
      ensures Valid() && |chunks| <= 256
      ensures (curPage == old(curPage) || fresh(curPage)) && o != EXIT
      ensures o == DONE <==> Accepts(version, namespaceIdx, old(curPage.entryNum), old(size), value)
      ensures o == DONE ==>
        && |chunks| <= 255 && namespaceIdx <= 255
        && Concat(log) == old(Concat(log)) + ItemsOf(crc, version, namespaceIdx, key, value, chunks)
      ensures o == DONE && MultiPage(version, value) ==> Concat(chunks) == value.bytes
      ensures o == DONE ==>
        Place(curPage.entryNum, size) == Behind(version, Place(old(curPage.entryNum), old(size)), value)
    {
      hide Holds, NumberItem, SingleItem, Packs, NewPages, Chunks, BlobEnd, Concat, ChunkItems, IndexItem, Valid;
      Entries();
      chunks := [];
      if value.Number? {
        o := WritePrimitive(key, namespaceIdx, value.encoding, value.n);
        if o == PAGE_FULL {
          o := CreateNewPage();
          if o == DONE { o := WritePrimitive(key, namespaceIdx, value.encoding, value.n); }
        }
      } else {
        o, chunks := WriteVarlen(key, value);
        if o == PAGE_FULL {
          o := CreateNewPage();
          if o == DONE { o, chunks := WriteVarlen(key, value); }
        }
      }
    }

    /** __exit__ without an exception: blank data pages for the rest of the size, the reserved page,
        and all of it in one image. */
    method Finish() returns (image: seq<byte>)
      requires Valid()
      modifies this
      ensures |image| == capacity + PAGE_SIZE && ReadImage(crc, image) == old(Concat(log))
      ensures capacity % PAGE_SIZE == 0 && AllFronts(crc, version, capacity / PAGE_SIZE, image)
      ensures image[capacity..] == Fill(PAGE_SIZE)
    {
      hide Concat, Holds, FrontOk, ReadFrom, ReadImage;
      var o := CreateNewPage();
      while o == DONE
        invariant Valid() && Concat(log) == old(Concat(log)) && o in {DONE, INSUFFICIENT_SIZE}
        invariant o != DONE ==> size == 0
        decreases size, if o == DONE then 1 else 0
      {
        o := CreateNewPage();
      }
      ghost var contents := log + [[]];
      ConcatNew(log);
      AllReadAs();
      BlankReadsNothing(crc);
      pageNum := pageNum + 1;
      var reserve := new Page(crc, pageNum, version, true);
      pages, curPage := pages + [reserve], reserve;
      image := BinaryData(contents);
    }

    lemma AllReadAs()
      requires Valid()
      ensures forall k :: 0 <= k < |pages| ==> ReadsAs(crc, pages[k], log[k])
      ensures forall k :: 0 <= k < |pages| ==> FrontOk(crc, version, k, pages[k].buf)
    {
      hide Holds, FrontOk, ReadFrom;
      forall k | 0 <= k < |pages| ensures ReadsAs(crc, pages[k], log[k]) && FrontOk(crc, version, k, pages[k].buf) {
        PageBack(pages[k], crc, k, version, log[k]);
      }
    }

    /** get_binary_data. */
    method BinaryData(ghost contents: seq<seq<Item>>) returns (data: seq<byte>)
      requires |contents| == |pages| > 0 && forall k :: 0 <= k < |pages| ==> ReadsAs(crc, pages[k], contents[k])
      requires forall k :: 0 <= k < |pages| - 1 ==>
        |pages[k].buf| == PAGE_SIZE && FrontOk(crc, version, k, pages[k].buf)
      ensures |data| == PAGE_SIZE * |pages| && ReadImage(crc, data) == Concat(contents)
      ensures AllFronts(crc, version, |pages| - 1, data) && data[|data| - PAGE_SIZE..] == pages[|pages| - 1].buf
    {
      hide ReadFrom, FrontOk;
      data := [];
      for i := 0 to |pages|
        invariant |data| == PAGE_SIZE * i && ReadImage(crc, data) == Concat(contents[..i])
        invariant AllFronts(crc, version, if i < |pages| then i else i - 1, data)
        invariant i > 0 ==> data[|data| - PAGE_SIZE..] == pages[i - 1].buf
      {
        assert ReadsAs(crc, pages[i], contents[i]);
        ReadImageSnoc(crc, data, pages[i].buf);
        assert contents[..i + 1][..i] == contents[..i];
        FrontsNext(crc, version, if i < |pages| - 1 then i + 1 else i, i, data, pages[i].buf);
        data := data + pages[i].buf;
      }
      assert contents[..|pages|] == contents;
    }
  }

  /** The headers of the first n pages of an image. */
  ghost predicate AllFronts(crc: Crc, version: byte, n: nat, image: seq<byte>) {
    forall k: nat :: k < n ==>
      PAGE_SIZE * k + PAGE_SIZE <= |image| && FrontOk(crc, version, k, image[PAGE_SIZE * k..PAGE_SIZE * k + PAGE_SIZE])
  }

  lemma FrontsNext(crc: Crc, version: byte, n: nat, i: nat, image: seq<byte>, page: seq<byte>)
    requires |image| == PAGE_SIZE * i && |page| == PAGE_SIZE && i <= n <= i + 1 && AllFronts(crc, version, i, image)
    requires n == i + 1 ==> FrontOk(crc, version, i, page)
    ensures AllFronts(crc, version, n, image + page)
  {
    hide FrontOk;
    forall k: nat | k < n
      ensures FrontOk(crc, version, k, (image + page)[PAGE_SIZE * k..PAGE_SIZE * k + PAGE_SIZE])
    {
      if k < i {
        assert (image + page)[PAGE_SIZE * k..PAGE_SIZE * k + PAGE_SIZE]
          == image[PAGE_SIZE * k..PAGE_SIZE * k + PAGE_SIZE];
      } else {
        assert (image + page)[PAGE_SIZE * k..PAGE_SIZE * k + PAGE_SIZE] == page;
      }
    }
  }

  /** A page whose bytes a reader takes for these entries. */
  ghost predicate ReadsAs(crc: Crc, p: Page, items: seq<Item>)
    reads p
  {
    |p.buf| == PAGE_SIZE && ReadFrom(crc, p.buf, 0) == items
  }

  // Page.Put on a page that belongs to an image.
  method PutOn(p: Page, item: Item, crc: Crc, num: nat, version: byte, ghost items: seq<Item>)
    requires Holds(p, crc, num, version, items) && Sound(crc, item) && p.entryNum + Slots(item) <= MAX_ENTRIES
    modifies p
    ensures Holds(p, crc, num, version, items + [item]) && p.entryNum == old(p.entryNum) + Slots(item)
  {
    hide AllSound, Slots;
    AllSoundSnoc(crc, items, item);
    p.Put(item);
  }

  method NewPage(crc: Crc, num: nat, version: byte) returns (p: Page)
    ensures Holds(p, crc, num, version, []) && fresh(p) && p.entryNum == 0
  {
    p := new Page(crc, num, version, false);
  }

  lemma SizeWhole(size: nat, n: nat, capacity: nat)
    requires size > 0 && size + PAGE_SIZE * n == capacity && capacity % PAGE_SIZE == 0
    ensures size >= PAGE_SIZE
  {}

  lemma ChunkSound(crc: Crc, ns: byte, key: seq<byte>, piece: seq<byte>, chunk: byte)
    requires |key| == 16 && |piece| <= 4000
    ensures Sound(crc, ChunkItem(crc, ns, key, piece, chunk))
    ensures Slots(ChunkItem(crc, ns, key, piece, chunk)) == 1 + Rows(|piece|)
  {
    hide LE, Fill;
    var size, crcs := LE(|piece|, 2), LE(crc(piece), 4);
    assert (size + Fill(2) + crcs)[..2] == size;
  }

  lemma SingleSound(crc: Crc, ns: byte, kind: byte, key: seq<byte>, data: seq<byte>)
    requires |key| <= 16 && |data| <= 4000 && kind in {SZ, BLOB}
    ensures Sound(crc, SingleItem(crc, ns, kind, key, data))
    ensures Slots(SingleItem(crc, ns, kind, key, data)) == 1 + Rows(|data|)
  {
    hide LE, Fill, Pad;
    var size, crcs := LE(|data|, 2), LE(crc(data), 4);
    assert (size + Fill(2) + crcs)[..2] == size;
  }

  lemma IndexSound(crc: Crc, ns: byte, key: seq<byte>, size: nat, count: byte)
    requires |key| == 16
    ensures Sound(crc, IndexItem(ns, key, size, count)) && Slots(IndexItem(ns, key, size, count)) == 1
  {}

  // What is known of the pages and chunks still to come at the head of a round.
  lemma PageNeeds(e: nat, left: nat)
    requires e <= 125
    ensures left > (125 - e) * 32 ==>
      && NewPages(e, left) == 1 + NewPages(0, left - (125 - e) * 32)
      && Chunks(e, left) == 1 + Chunks(0, left - (125 - e) * 32)
    ensures left <= (125 - e) * 32 ==>
      Chunks(e, left) == 1 && NewPages(e, left) == if left > (124 - e) * 32 then 1 else 0
    ensures left > (125 - e) * 32 ==> NewPages(e, left) > 0 && Chunks(e, left) > 1
    ensures BlobEnd(e, left) ==
      if left > (125 - e) * 32 then BlobEnd(0, left - (125 - e) * 32)
      else if left > (124 - e) * 32 then 1 else e + 2 + Rows(left)
  {
    if left > (125 - e) * 32 { NextPage(e, left); }
  }

  // The chunks grow by one piece, and the entries by its entry.
  lemma PieceNext(crc: Crc, ns: byte, key: seq<byte>, data: seq<byte>, chunks: seq<seq<byte>>, offset: nat,
                  piece: seq<byte>, items: seq<Item>)
    requires |chunks| <= 255 && offset + |piece| <= |data| && piece == data[offset..offset + |piece|]
    requires Concat(chunks) == data[..offset]
    ensures Concat(chunks + [piece]) == data[..offset + |piece|]
    ensures items + ChunkItems(crc, ns, key, chunks) + [ChunkItem(crc, ns, key, piece, |chunks|)] ==
      items + ChunkItems(crc, ns, key, chunks + [piece])
  {
    hide ChunkItem;
    assert (chunks + [piece])[..|chunks|] == chunks;
    assert data[..offset] + piece == data[..offset + |piece|];
    Associate(items, ChunkItems(crc, ns, key, chunks), [ChunkItem(crc, ns, key, piece, |chunks|)]);
    ChunksNext(crc, ns, key, chunks, piece);
  }

  lemma NoChunks(crc: Crc, ns: byte, key: seq<byte>, items: seq<Item>)
    ensures items + ChunkItems(crc, ns, key, []) == items && Concat<byte>([]) == []
  {}

  lemma ChunksNext(crc: Crc, ns: byte, key: seq<byte>, chunks: seq<seq<byte>>, piece: seq<byte>)
    requires |chunks| <= 255
    ensures ChunkItems(crc, ns, key, chunks + [piece]) ==
      ChunkItems(crc, ns, key, chunks) + [ChunkItem(crc, ns, key, piece, |chunks|)]
  {
    hide ChunkItem;
    assert ChunkItems(crc, ns, key, chunks + [piece])
        == ChunkItems(crc, ns, key, chunks) + [ChunkItem(crc, ns, key, piece, |chunks|)];
  }

  lemma NumberSound(crc: Crc, ns: byte, key: seq<byte>, e: Encoding, n: int)
    requires |key| <= 16
    ensures Sound(crc, NumberItem(ns, key, e, n)) && Slots(NumberItem(ns, key, e, n)) == 1
  {}

  lemma PageBack(p: Page, crc: Crc, num: nat, version: byte, items: seq<Item>)
    requires Holds(p, crc, num, version, items)
    ensures ReadsAs(crc, p, items) && FrontOk(crc, version, num, p.buf)
  {
    hide ReadFrom, Layout, FrontOk;
    PageReadsBack(crc, num, version, items, 0);
    LayoutFront(crc, num, version, items);
  }
}
