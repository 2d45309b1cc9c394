/** The page format of nvs_partition_gen.py on values: entries, their bytes, the entry bitmap, and
    what a reader that walks the spans or collects the chunks of a blob finds. */
module NvsFormat {
  import opened Buffers
  import opened Octets

  const PAGE_SIZE := 4096
  const MAX_ENTRIES := 126
  const ENTRY_SIZE := 32
  const FIRST_ENTRY := 64
  const CHUNK_ANY: byte := 0xFF

  const SZ: byte := 0x21
  const BLOB: byte := 0x41
  const BLOB_DATA: byte := 0x42
  const BLOB_IDX: byte := 0x48

  type Crc = seq<byte> -> nat

  /** An entry: the fields of its header, and the data behind it. */
  datatype Item = Item(ns: byte, kind: byte, chunk: byte, key: seq<byte>, field: seq<byte>, payload: seq<byte>)

  predicate ItemOk(i: Item) { |i.key| == 16 && |i.field| == 8 && Slots(i) <= MAX_ENTRIES }

  /** How many 32-byte entries n bytes take. */
  function Rows(n: nat): nat { (n + 31) / 32 }

  /** The span of an entry: its header and its data. */
  function Slots(i: Item): nat { 1 + Rows(|i.payload|) }

  function Fill(n: nat): (r: seq<byte>)
    ensures |r| == n
  {
    seq(n, _ => 0xFF)
  }

  /** The 32 header bytes; the checksum covers all of them but itself. */
  function Header(crc: Crc, i: Item): (h: seq<byte>)
    requires ItemOk(i)
    ensures |h| == 32
  {
    var front := [i.ns, i.kind, Slots(i), i.chunk];
    front + LE(crc(front + i.key + i.field), 4) + i.key + i.field
  }

  /** Header, data, and 0xFF up to the next entry. */
  function Bytes(crc: Crc, i: Item): (b: seq<byte>)
    requires ItemOk(i)
    ensures |b| == 32 * Slots(i)
  {
    Header(crc, i) + i.payload + Fill(32 * Rows(|i.payload|) - |i.payload|)
  }

  ghost predicate AllOk(items: seq<Item>) { forall k :: 0 <= k < |items| ==> ItemOk(items[k]) }

  function Total(items: seq<Item>): nat {
    if items == [] then 0 else Total(items[..|items| - 1]) + Slots(items[|items| - 1])
  }

  ghost function Image(crc: Crc, items: seq<Item>): (b: seq<byte>)
    requires AllOk(items)
    ensures |b| == 32 * Total(items)
  {
    if items == [] then [] else Image(crc, items[..|items| - 1]) + Bytes(crc, items[|items| - 1])
  }

  // ---------- the bitmap ----------

  /** A byte of the bitmap when k of the four entries it covers are written: two bits an entry, the
      lower one cleared. */
  function BitByte(k: int): byte {
    if k <= 0 then 0xFF else if k == 1 then 0xFE else if k == 2 then 0xFA else if k == 3 then 0xEA else 0xAA
  }

  function Bitmap(n: nat): (b: seq<byte>)
    ensures |b| == 32
  {
    seq(32, j requires 0 <= j < 32 => BitByte(n - 4 * j))
  }

  function Pow2(o: nat): (p: nat)
    ensures p >= 1
  {
    if o == 0 then 1 else 2 * Pow2(o - 1)
  }

  /** b & ~(1 << o). */
  function ClearBit(b: byte, o: nat): byte
    requires o < 8
  {
    if b / Pow2(o) % 2 == 1 then b - Pow2(o) else b
  }

  predicate Marked(bitmap: seq<byte>, e: nat)
    requires |bitmap| == 32 && e < 128
  {
    bitmap[e / 4] / Pow2(e % 4 * 2) % 2 == 0
  }

  lemma Powers()
    ensures Pow2(0) == 1 && Pow2(2) == 4 && Pow2(4) == 16 && Pow2(6) == 64
  {
    assert Pow2(1) == 2 && Pow2(3) == 8 && Pow2(5) == 32;
  }

  /** The bitmap marks exactly the entries below n. */
  lemma BitmapMarks(n: nat, e: nat)
    requires e < 128
    ensures Marked(Bitmap(n), e) <==> e < n
  {
    Powers();
    var r := e % 4;
    if r == 0 {} else if r == 1 {} else if r == 2 {} else {}
  }

  /** write_bitmaparray turns the bitmap of n entries into that of n + 1. */
  lemma BitmapNext(n: nat)
    requires n < 128
    ensures Bitmap(n)[n / 4 := ClearBit(Bitmap(n)[n / 4], n % 4 * 2)] == Bitmap(n + 1)
  {
    Powers();
    var j, r := n / 4, n % 4;
    assert Bitmap(n)[j] == BitByte(r);
    assert ClearBit(BitByte(r), r * 2) == BitByte(r + 1) by {
      if r == 0 {} else if r == 1 {} else if r == 2 {} else {}
    }
  }

  // ---------- whole pages ----------

  /** set_header: active, the sequence number, the version, and a checksum of these. */
  function PageHeader(crc: Crc, num: nat, version: byte): (h: seq<byte>)
    ensures |h| == 32
  {
    var mid := LE(num, 4) + [version] + Fill(19);
    LE(0xFFFFFFFE, 4) + mid + LE(crc(mid), 4)
  }

  ghost function Layout(crc: Crc, num: nat, version: byte, items: seq<Item>): (b: seq<byte>)
    requires AllOk(items) && Total(items) <= MAX_ENTRIES
    ensures |b| == PAGE_SIZE
  {
    PageHeader(crc, num, version) + Bitmap(Total(items)) + Image(crc, items) + Fill(32 * (MAX_ENTRIES - Total(items)))
  }

  /** What the header of data page num says: the page is active, the number and the version, and the
      checksum of both is right. A page that has become full still says that it is active. */
  ghost predicate FrontOk(crc: Crc, version: byte, num: nat, page: seq<byte>)
    requires |page| == PAGE_SIZE
  {
    && FromLE(page[..4]) == 0xFFFFFFFE
    && FromLE(page[4..8]) == num % 0x1_0000_0000
    && page[8] == version
    && FromLE(page[28..32]) == crc(page[4..28]) % 0x1_0000_0000
  }

  lemma LayoutFront(crc: Crc, num: nat, version: byte, items: seq<Item>)
    requires AllOk(items) && Total(items) <= MAX_ENTRIES
    ensures FrontOk(crc, version, num, Layout(crc, num, version, items))
  {
    hide Image, Bitmap, Fill, LE, FromLE, Total, AllOk;
    var mid := LE(num, 4) + [version] + Fill(19);
    var rest := Bitmap(Total(items)) + Image(crc, items) + Fill(32 * (MAX_ENTRIES - Total(items)));
    var sum := LE(crc(mid), 4);
    assert Layout(crc, num, version, items) == LE(0xFFFFFFFE, 4) + mid + sum + rest;
    FrontSlices(LE(0xFFFFFFFE, 4), LE(num, 4), version, Fill(19), sum, rest);
    LEMod(0xFFFFFFFE, 4);
    LEMod(num, 4);
    LEMod(crc(mid), 4);
    assert Pow256(4) == 0x1_0000_0000 by { assert Pow256(3) == 16777216 && Pow256(2) == 65536; }
  }

  lemma FrontSlices(state: seq<byte>, num: seq<byte>, version: byte, fill: seq<byte>, sum: seq<byte>, rest: seq<byte>)
    requires |state| == |num| == |sum| == 4 && |fill| == 19
    ensures var mid := num + [version] + fill;
      var page := state + mid + sum + rest;
      && page[..4] == state && page[4..8] == num && page[8] == version && page[4..28] == mid && page[28..32] == sum
  {}

  lemma TotalSnoc(items: seq<Item>, i: Item)
    ensures Total(items + [i]) == Total(items) + Slots(i)
  {
    assert (items + [i])[..|items|] == items;
  }

  lemma ImageSnoc(crc: Crc, items: seq<Item>, i: Item)
    requires AllOk(items) && ItemOk(i)
    ensures AllOk(items + [i]) && Image(crc, items + [i]) == Image(crc, items) + Bytes(crc, i)
  {
    assert (items + [i])[..|items|] == items;
  }

  // ---------- reading ----------

  /** Where a reader that starts at entry pos and goes from header to header by the span bytes is
      after n headers. */
  function Walk(page: seq<byte>, pos: nat, n: nat): nat
    requires |page| == PAGE_SIZE
    decreases n
  {
    if n == 0 || pos >= MAX_ENTRIES then pos else Walk(page, pos + page[FIRST_ENTRY + 32 * pos + 2], n - 1)
  }

  lemma {:induction false} ImagePrefix(crc: Crc, items: seq<Item>, k: nat)
    requires AllOk(items) && k < |items|
    ensures AllOk(items[..k]) && ItemOk(items[k]) && 32 * (Total(items[..k]) + Slots(items[k])) <= |Image(crc, items)|
    ensures Image(crc, items)[32 * Total(items[..k])..32 * (Total(items[..k]) + Slots(items[k]))] ==
      Bytes(crc, items[k])
    decreases |items|
  {
    hide Bytes, Header, Slots;
    var front := items[..|items| - 1];
    if k < |items| - 1 {
      ImagePrefix(crc, front, k);
      assert front[..k] == items[..k] && front[k] == items[k];
    }
  }

  lemma {:induction false} TotalSplit(items: seq<Item>, k: nat)
    requires k <= |items|
    ensures Total(items[..k]) <= Total(items)
    ensures k < |items| ==> Total(items[..k + 1]) == Total(items[..k]) + Slots(items[k])
    decreases |items| - k
  {
    if k < |items| {
      TotalSplit(items, k + 1);
      assert items[..k + 1][..k] == items[..k];
    } else {
      assert items[..k] == items;
    }
  }

  lemma LayoutAt(crc: Crc, num: nat, version: byte, items: seq<Item>, q: nat)
    requires AllOk(items) && Total(items) <= MAX_ENTRIES && q < |Image(crc, items)|
    ensures Layout(crc, num, version, items)[FIRST_ENTRY + q] == Image(crc, items)[q]
  {
    hide Image, PageHeader, Bitmap;
  }

  lemma SpanInHeader(crc: Crc, i: Item)
    requires ItemOk(i)
    ensures Bytes(crc, i)[2] == Header(crc, i)[2] == Slots(i)
  {}

  lemma SpanByte(crc: Crc, num: nat, version: byte, items: seq<Item>, k: nat)
    requires AllOk(items) && Total(items) <= MAX_ENTRIES && k < |items|
    ensures Total(items[..k]) < MAX_ENTRIES
    ensures Layout(crc, num, version, items)[FIRST_ENTRY + 32 * Total(items[..k]) + 2] == Slots(items[k])
  {
    hide Image, Layout, Bytes, Total, Header, AllOk;
    assert ItemOk(items[k]) by { ImagePrefix(crc, items, k); }
    ImagePrefix(crc, items, k);
    TotalSplit(items, k);
    TotalSplit(items, k + 1);
    SpanInHeader(crc, items[k]);
    var p := 32 * Total(items[..k]);
    SliceAt(Image(crc, items), p, 32 * Slots(items[k]), 2);
    LayoutAt(crc, num, version, items, p + 2);
  }

  lemma SliceAt(s: seq<byte>, a: nat, n: nat, j: nat)
    requires j < n && a + n <= |s|
    ensures s[a..a + n][j] == s[a + j]
  {}

  /** Walking the spans visits every entry and lands exactly on the number of entries written. */
  lemma {:induction false} WalkLands(crc: Crc, num: nat, version: byte, items: seq<Item>, k: nat)
    requires AllOk(items) && Total(items) <= MAX_ENTRIES && k <= |items|
    ensures Walk(Layout(crc, num, version, items), Total(items[..k]), |items| - k) == Total(items)
    decreases |items| - k
  {
    hide Layout;
    if k < |items| {
      SpanByte(crc, num, version, items, k);
      TotalSplit(items, k);
      WalkLands(crc, num, version, items, k + 1);
    } else {
      assert items[..k] == items;
    }
  }
}
