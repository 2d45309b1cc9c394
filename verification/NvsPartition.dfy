/** The partition generator of nvs_partition_gen.py: pages, the entries written to them, blobs cut
    into chunks over several pages, and the finished image. */
module NvsPartition {
  import opened Buffers
  import opened Octets
  import opened NvsFormat

  const VERSION1: byte := 0xFF
  const VERSION2: byte := 0xFE

  // Data written where a page is still blank.
  lemma WrittenFill(pre: seq<byte>, room: nat, data: seq<byte>)
    requires |data| <= room
    ensures Written(pre + Fill(room), |pre|, data) == pre + data + Fill(room - |data|)
  {}

  class Page {
    const crc: Crc
    const num: nat
    const version: byte
    const reserved: bool
    var entryNum: nat
    var bitmap: seq<byte>
    var buf: seq<byte>
    ghost var items: seq<Item>

    ghost predicate Valid()
      reads this
    {
      if reserved then buf == Fill(PAGE_SIZE) && items == [] && entryNum == 0
      else
        && AllOk(items) && entryNum == Total(items) <= MAX_ENTRIES
        && bitmap == Bitmap(entryNum) && buf == Layout(crc, num, version, items)
    }

    constructor (c: Crc, pageNum: nat, v: byte, isReserved: bool)
      ensures Valid() && items == [] && crc == c && num == pageNum && version == v && reserved == isReserved
    {
      crc, num, version, reserved := c, pageNum, v, isReserved;
      entryNum, bitmap, buf, items := 0, [], Fill(PAGE_SIZE), [];
      if !isReserved {
        bitmap := Fill(32);
        buf := PageHeader(c, pageNum, v) + Fill(PAGE_SIZE)[32..];
      }
      new;
      if !reserved {
        assert Fill(32) == Bitmap(0);
        assert buf == Layout(crc, num, version, []);
      }
    }

    /** write_bitmaparray. */
    method WriteBitmap(ghost hdr: seq<byte>, ghost body: seq<byte>)
      requires |hdr| == 32 && |body| == 4032 && entryNum < MAX_ENTRIES
      requires bitmap == Bitmap(entryNum) && |buf| == PAGE_SIZE && buf[..32] == hdr && buf[64..] == body
      modifies this`bitmap, this`buf
      ensures bitmap == Bitmap(entryNum + 1) && buf == hdr + bitmap + body
    {
      var bitnum := entryNum * 2;
      var byteIdx, bitOffset := bitnum / 8, bitnum % 8;
      BitmapNext(entryNum);
      bitmap := bitmap[byteIdx := ClearBit(bitmap[byteIdx], bitOffset)];
      buf := buf[..32] + bitmap + buf[64..];
    }

    /** write_entry_to_buf, without encryption: the data, then one bit of the bitmap for each entry. */
    method WriteEntryToBuf(data: seq<byte>, count: nat, ghost hdr: seq<byte>, ghost body: seq<byte>)
      requires |hdr| == 32 && |body| == 4032 && entryNum + count <= MAX_ENTRIES && |data| <= 32 * count
      requires bitmap == Bitmap(entryNum) && buf == hdr + bitmap + body
      modifies this`entryNum, this`bitmap, this`buf
      ensures entryNum == old(entryNum) + count && bitmap == Bitmap(entryNum)
      ensures buf == hdr + bitmap + Written(body, 32 * old(entryNum), data)
    {
      var start := FIRST_ENTRY + ENTRY_SIZE * entryNum;
      ghost var body' := Written(body, 32 * entryNum, data);
      buf := buf[..start] + data + buf[start + |data|..];
      assert buf == hdr + bitmap + body';
      for i := 0 to count
        invariant entryNum == old(entryNum) + i && bitmap == Bitmap(entryNum) && buf == hdr + bitmap + body'
      {
        assert buf[..32] == hdr && buf[64..] == body';
        WriteBitmap(hdr, body');
        entryNum := entryNum + 1;
      }
    }

    /** The header of an entry and its data, as the write functions put them. */
    method Put(item: Item)
      requires Valid() && !reserved && ItemOk(item) && entryNum + Slots(item) <= MAX_ENTRIES
      modifies this
      ensures Valid() && items == old(items) + [item] && entryNum == old(entryNum) + Slots(item)
    {
      hide Bitmap, BitByte, Image, Layout, Header, PageHeader, Total, Fill, Written, AllOk;
      ghost var hdr := PageHeader(crc, num, version);
      ghost var body := Rest(crc, items);
      LayoutParts(crc, num, version, items);
      var head, rows := Header(crc, item), Rows(|item.payload|);
      WriteEntryToBuf(head, 1, hdr, body);
      ghost var mid := Written(body, 32 * old(entryNum), head);
      WriteEntryToBuf(item.payload, rows, hdr, mid);
      TotalSnoc(items, item);
      RestNext(crc, items, item);
      LayoutParts(crc, num, version, items + [item]);
      items := items + [item];
    }
  }

  // What a page holds behind its bitmap.
  ghost function Rest(crc: Crc, items: seq<Item>): (r: seq<byte>)
    requires AllOk(items) && Total(items) <= MAX_ENTRIES
    ensures |r| == 4032
  {
    Image(crc, items) + Fill(32 * (MAX_ENTRIES - Total(items)))
  }

  lemma LayoutParts(crc: Crc, num: nat, version: byte, items: seq<Item>)
    requires AllOk(items) && Total(items) <= MAX_ENTRIES
    ensures Layout(crc, num, version, items) == PageHeader(crc, num, version) + Bitmap(Total(items)) + Rest(crc, items)
  {
    hide Image, PageHeader, Bitmap, Fill, Total, AllOk;
    var a, b := PageHeader(crc, num, version), Bitmap(Total(items));
    Associate(a + b, Image(crc, items), Fill(32 * (MAX_ENTRIES - Total(items))));
  }

  // Header and data written behind the entries there are make the page of one entry more.
  lemma RestNext(crc: Crc, items: seq<Item>, item: Item)
    requires AllOk(items) && ItemOk(item) && Total(items) + Slots(item) <= MAX_ENTRIES
    ensures AllOk(items + [item]) && Total(items + [item]) == Total(items) + Slots(item)
    ensures var mid := Written(Rest(crc, items), 32 * Total(items), Header(crc, item));
      Written(mid, 32 * (Total(items) + 1), item.payload) == Rest(crc, items + [item])
  {
    hide Image, Header, Total, AllOk;
    var image, head, room := Image(crc, items), Header(crc, item), 32 * (MAX_ENTRIES - Total(items));
    TotalSnoc(items, item);
    ImageSnoc(crc, items, item);
    WrittenFill(image, room, head);
    WrittenFill(image + head, room - 32, item.payload);
    FillParts(image, head, item.payload, room, 32 * Rows(|item.payload|));
  }

  // The blank rest of a page after an entry is the entry's own padding and the rest.
  lemma FillParts(image: seq<byte>, head: seq<byte>, data: seq<byte>, room: nat, rows: nat)
    requires |head| == 32 && |data| <= rows && 32 + rows <= room
    ensures image + head + data + Fill(room - 32 - |data|)
         == image + (head + data + Fill(rows - |data|)) + Fill(room - 32 - rows)
  {}
}
