/** nvs_part_gen: rows in, a whole partition out. What a reader finds in the finished file. */
module NvsFile {
  import opened Buffers
  import opened Octets
  import opened NvsFormat
  import opened NvsReader
  import opened NvsPartition
  import opened NvsGenerator

  datatype Row = Namespace(key: seq<byte>) | Entry(key: seq<byte>, value: Value)

  /** How many namespaces the rows open: the index of the last one. */
  function Spaces(rows: seq<Row>): nat {
    if rows == [] then 0 else Spaces(rows[..|rows| - 1]) + if rows[|rows| - 1].Namespace? then 1 else 0
  }

  /** The entries one row became. */
  ghost predicate Wrote(crc: Crc, version: byte, ns: nat, row: Row, items: seq<Item>, chunks: seq<seq<byte>>)
    requires |row.key| <= 16
  {
    && ns <= 255
    && match row
       case Namespace(key) => items == [NumberItem(0, key, U8, ns)]
       case Entry(key, value) =>
         && |chunks| <= 255 && items == ItemsOf(crc, version, ns, key, value, chunks)
         && (MultiPage(version, value) ==> Concat(chunks) == value.bytes && |value.bytes| < Pow256(4))
         && (value.Number? ==> Packs(value.encoding, value.n))
  }

  /** Row by row what was written: groups[k] holds the entries of row k, cuts[k] its chunks. */
  ghost predicate Record(crc: Crc, version: byte, rows: seq<Row>, groups: seq<seq<Item>>, cuts: seq<seq<seq<byte>>>)
    requires forall k :: 0 <= k < |rows| ==> |rows[k].key| <= 16
  {
    && |groups| == |cuts| == |rows|
    && forall k :: 0 <= k < |rows| ==> Wrote(crc, version, Spaces(rows[..k + 1]), rows[k], groups[k], cuts[k])
  }

  /** No row before k stores a blob under the namespace and key of row k. */
  ghost predicate FirstUse(rows: seq<Row>, k: nat)
    requires k < |rows| && forall j :: 0 <= j < |rows| ==> |rows[j].key| <= 16
  {
    forall j ::
      0 <= j < k && rows[j].Entry? && rows[j].value.Binary? ==>
        Spaces(rows[..j + 1]) != Spaces(rows[..k + 1]) || Pad(rows[j].key) != Pad(rows[k].key)
  }

  lemma WroteUnused(crc: Crc, version: byte, ns: nat, row: Row, items: seq<Item>, chunks: seq<seq<byte>>, ns': byte,
                    key': seq<byte>)
    requires |row.key| <= 16 && Wrote(crc, version, ns, row, items, chunks)
    requires !(row.Entry? && row.value.Binary? && ns == ns' && Pad(row.key) == key')
    ensures Unused(items, ns', key')
  {
    hide Concat, LE, Pad, Fill;
  }

  lemma {:induction false} GroupsUnused(groups: seq<seq<Item>>, ns: byte, key: seq<byte>)
    requires forall j :: 0 <= j < |groups| ==> Unused(groups[j], ns, key)
    ensures Unused(Concat(groups), ns, key)
  {
    if groups != [] {
      GroupsUnused(groups[..|groups| - 1], ns, key);
    }
  }

  lemma {:induction false} ConcatAt(groups: seq<seq<Item>>, k: nat) returns (after: seq<Item>)
    requires k < |groups|
    ensures Concat(groups) == Concat(groups[..k]) + groups[k] + after
    decreases |groups|
  {
    var front, last := groups[..|groups| - 1], groups[|groups| - 1];
    if k < |groups| - 1 {
      var mid := ConcatAt(front, k);
      after := mid + last;
      assert front[..k] == groups[..k];
      Associate(Concat(groups[..k]) + groups[k], mid, last);
    } else {
      after := [];
      AddNothing(Concat(groups[..k]) + groups[k]);
    }
  }

  /** Every blob of a finished partition can be read back whole. */
  lemma BlobInFile(crc: Crc, version: byte, rows: seq<Row>, groups: seq<seq<Item>>, cuts: seq<seq<seq<byte>>>, k: nat)
    requires forall j :: 0 <= j < |rows| ==> |rows[j].key| <= 16
    requires Record(crc, version, rows, groups, cuts) && k < |rows| && FirstUse(rows, k)
    requires rows[k].Entry? && MultiPage(version, rows[k].value)
    ensures Spaces(rows[..k + 1]) <= 255
    ensures ReadBlob(Concat(groups), Spaces(rows[..k + 1]), Pad(rows[k].key)) == Some(rows[k].value.bytes)
  {
    hide Spaces, ReadBlob, Pad, Concat, Unused, ChunkItems, IndexItem, Pow256;
    assert Wrote(crc, version, Spaces(rows[..k + 1]), rows[k], groups[k], cuts[k]);
    var ns, key, data := Spaces(rows[..k + 1]), Pad(rows[k].key), rows[k].value.bytes;
    forall j | 0 <= j < k ensures Unused(groups[..k][j], ns, key) {
      WroteUnused(crc, version, Spaces(rows[..j + 1]), rows[j], groups[j], cuts[j], ns, key);
    }
    GroupsUnused(groups[..k], ns, key);
    var after := ConcatAt(groups, k);
    Associate(Concat(groups[..k]), ChunkItems(crc, ns, key, cuts[k]), [IndexItem(ns, key, |data|, |cuts[k]|)]);
    BlobReadsBack(crc, Concat(groups[..k]), after, ns, key, data, cuts[k]);
  }

  /** What the entry of a row is to a reader: its namespace, its key, and the value that its kind says;
      a namespace row is an entry of namespace 0 whose value is the index of the new namespace. */
  ghost predicate Shows(i: Item, version: byte, ns: nat, row: Row)
    requires |row.key| <= 16
  {
    && |i.key| == 16 && i.key[..|row.key|] == row.key && (forall j :: |row.key| <= j < 16 ==> i.key[j] == 0)
    && i.chunk == 0xFF
    && match row
       case Namespace(_) => i.ns == 0 && i.kind == 0x01 && |i.field| == 8 && ReadNumber(i) == ns
       case Entry(_, Number(e, n)) =>
         i.ns == ns && i.kind in {0x01, 0x11, 0x02, 0x04, 0x14} && |i.field| == 8 && ReadNumber(i) == n
       case Entry(_, Text(bytes)) => i.ns == ns && i.kind == 0x21 && i.payload == bytes
       case Entry(_, Binary(bytes)) => i.ns == ns && i.kind == 0x41 && i.payload == bytes
  }

  lemma ItemShows(crc: Crc, version: byte, ns: nat, row: Row, items: seq<Item>, chunks: seq<seq<byte>>)
    requires |row.key| <= 16 && Wrote(crc, version, ns, row, items, chunks)
    requires !(row.Entry? && MultiPage(version, row.value))
    ensures |items| == 1 && Shows(items[0], version, ns, row)
  {
    hide LE, ReadNumber, Packs;
    PackedSmall(ns);
    match row
    case Namespace(key) => NumberReadsBack(0, key, U8, ns);
    case Entry(key, Number(e, n)) => NumberReadsBack(ns, key, e, n);
    case Entry(key, Text(bytes)) =>
    case Entry(key, Binary(bytes)) =>
  }

  lemma PackedSmall(ns: nat)
    requires ns <= 255
    ensures Packs(U8, ns)
  {
    Powers256();
  }

  /** Every row of a finished partition but the blobs of version 2 is one entry a reader finds. */
  lemma RowInFile(crc: Crc, version: byte, rows: seq<Row>, groups: seq<seq<Item>>, cuts: seq<seq<seq<byte>>>, k: nat)
    returns (j: nat)
    requires forall j :: 0 <= j < |rows| ==> |rows[j].key| <= 16
    requires Record(crc, version, rows, groups, cuts) && k < |rows|
    requires !(rows[k].Entry? && MultiPage(version, rows[k].value))
    ensures j < |Concat(groups)| && Shows(Concat(groups)[j], version, Spaces(rows[..k + 1]), rows[k])
  {
    hide Wrote, Shows, Spaces, Concat;
    var ns := Spaces(rows[..k + 1]);
    assert Wrote(crc, version, ns, rows[k], groups[k], cuts[k]);
    ItemShows(crc, version, ns, rows[k], groups[k], cuts[k]);
    var after := ConcatAt(groups, k);
    j := |Concat(groups[..k])|;
    assert (Concat(groups[..k]) + groups[k] + after)[j] == groups[k][0];
  }

  lemma AcceptedIsShort(version: byte, ns: nat, e: nat, size: nat, value: Value)
    requires Accepts(version, ns, e, size, value) && MultiPage(version, value)
    ensures |value.bytes| < Pow256(4)
  {
    Powers256();
  }

  lemma RecordNext(crc: Crc, version: byte, rows: seq<Row>, i: nat, groups: seq<seq<Item>>, cuts: seq<seq<seq<byte>>>,
                   items: seq<Item>, chunks: seq<seq<byte>>)
    requires i < |rows| && forall k :: 0 <= k < |rows| ==> |rows[k].key| <= 16
    requires Record(crc, version, rows[..i], groups, cuts)
    requires Wrote(crc, version, Spaces(rows[..i + 1]), rows[i], items, chunks)
    ensures Record(crc, version, rows[..i + 1], groups + [items], cuts + [chunks])
    ensures Concat(groups + [items]) == Concat(groups) + items
  {
    hide Wrote, Spaces;
    assert (groups + [items])[..i] == groups;
    forall k | 0 <= k < i + 1
      ensures Wrote(crc, version, Spaces(rows[..i + 1][..k + 1]), rows[k], (groups + [items])[k], (cuts + [chunks])[k])
    {
      assert rows[..i + 1][..k + 1] == rows[..k + 1];
      if k < i { assert rows[..i][..k + 1] == rows[..k + 1]; }
    }
  }

  lemma SpacesNext(rows: seq<Row>, i: nat)
    requires i < |rows|
    ensures Spaces(rows[..i + 1]) == Spaces(rows[..i]) + if rows[i].Namespace? then 1 else 0
  {
    assert rows[..i + 1][..i] == rows[..i];
  }

  /** What a row stores; a namespace row stores its own index, in namespace 0. */
  function ValueIn(row: Row, ns: nat): Value { if row.Namespace? then Number(U8, ns) else row.value }

  predicate Stored(version: byte, ns: nat, row: Row, at: Place) {
    Accepts(version, if row.Namespace? then 0 else ns, at.entry, at.size, ValueIn(row, ns))
  }

  function PlaceNext(version: byte, ns: nat, row: Row, at: Place): Option<Place> {
    if Stored(version, ns, row, at) then Some(Behind(version, at, ValueIn(row, ns))) else None
  }

  /** Where the next entry goes once these rows are stored, if each of them is. */
  function PlaceAfter(version: byte, size: nat, rows: seq<Row>): Option<Place> {
    if rows == [] then Some(Place(0, Less(size, 2 * PAGE_SIZE)))
    else
      match PlaceAfter(version, size, rows[..|rows| - 1])
      case None => None
      case Some(at) => PlaceNext(version, Spaces(rows), rows[|rows| - 1], at)
  }

  lemma PlaceStep(version: byte, size: nat, rows: seq<Row>, i: nat)
    requires i < |rows|
    ensures PlaceAfter(version, size, rows[..i + 1]) ==
      match PlaceAfter(version, size, rows[..i])
      case None => None
      case Some(at) => PlaceNext(version, Spaces(rows[..i + 1]), rows[i], at)
  {
    assert rows[..i + 1][..i] == rows[..i];
  }

  // Behind a row that is refused there is nothing.
  lemma {:induction false} NoPlace(version: byte, size: nat, rows: seq<Row>, i: nat)
    requires i <= |rows| && PlaceAfter(version, size, rows[..i]) == None
    ensures PlaceAfter(version, size, rows) == None
  {
    if i < |rows| {
      var front := rows[..|rows| - 1];
      assert front[..i] == rows[..i];
      NoPlace(version, size, front, i);
    } else {
      assert rows[..i] == rows;
    }
  }

  lemma NothingYet(crc: Crc, version: byte, size: nat, rows: seq<Row>)
    requires forall k :: 0 <= k < |rows| ==> |rows[k].key| <= 16
    ensures PlaceAfter(version, size, rows[..0]) == Some(Place(0, Less(size, 2 * PAGE_SIZE)))
    ensures Record(crc, version, rows[..0], [], []) && Spaces(rows[..0]) == 0 && Concat<Item>([]) == []
  {}

  /** write_entry of the module: a namespace row or a key and its value. */
  method WriteRow(nvs: Nvs, row: Row) returns (o: Outcome, ghost items: seq<Item>, ghost chunks: seq<seq<byte>>)
    requires nvs.Valid() && |row.key| <= 16
    modifies nvs, nvs.curPage
    ensures nvs.Valid() && (nvs.curPage == old(nvs.curPage) || fresh(nvs.curPage)) && o != EXIT
    ensures nvs.namespaceIdx == old(nvs.namespaceIdx) + if row.Namespace? then 1 else 0
    ensures o == DONE ==>
      && Wrote(nvs.crc, nvs.version, nvs.namespaceIdx, row, items, chunks)
      && Concat(nvs.log) == old(Concat(nvs.log)) + items
    ensures PlaceNext(nvs.version, nvs.namespaceIdx, row, Place(old(nvs.curPage.entryNum), old(nvs.size)))
         == if o == DONE then Some(Place(nvs.curPage.entryNum, nvs.size)) else None
  {
    hide Concat, Nvs.Valid, Behind;
    Powers256();
    items, chunks := [], [];
    match row
    case Namespace(key) =>
      o := nvs.WriteNamespace(key);
      if o == DONE { items := [NumberItem(0, key, U8, nvs.namespaceIdx)]; }
    case Entry(key, value) =>
      ghost var e, size := nvs.curPage.entryNum, nvs.size;
      o, chunks := nvs.WriteEntry(key, value);
      if o == DONE {
        items := ItemsOf(nvs.crc, nvs.version, nvs.namespaceIdx, key, value, chunks);
        if MultiPage(nvs.version, value) { AcceptedIsShort(nvs.version, nvs.namespaceIdx, e, size, value); }
      }
  }

  /** The partition of a list of rows: a file of the size asked for that holds exactly the entries of
      the rows, in order, with the right header on each data page and a blank page at its end, if the
      size is fit and each row is accepted where those before it end; otherwise an exception and no
      file. */
  method Generate(crc: Crc, partSize: nat, version: byte, rows: seq<Row>)
    returns (o: Outcome, image: seq<byte>, ghost groups: seq<seq<Item>>, ghost cuts: seq<seq<seq<byte>>>)
    requires version in {VERSION1, VERSION2} && forall k :: 0 <= k < |rows| ==> |rows[k].key| <= 16
    ensures o == EXIT <==> partSize % PAGE_SIZE != 0 || partSize < 3 * PAGE_SIZE
    ensures o == DONE <==> o != EXIT && PlaceAfter(version, partSize, rows).Some?
    ensures o != DONE ==> image == []
    ensures o == DONE ==>
      |image| == partSize && Record(crc, version, rows, groups, cuts) && ReadImage(crc, image) == Concat(groups)
    ensures o == DONE ==>
      && AllFronts(crc, version, partSize / PAGE_SIZE - 1, image)
      && image[partSize - PAGE_SIZE..] == Fill(PAGE_SIZE)
  {
    hide AllFronts, Record, Wrote, Spaces, PlaceAfter, PlaceNext, Concat, ReadImage, Nvs.Valid;
    image, groups, cuts := [], [], [];
    if partSize % PAGE_SIZE != 0 || partSize - PAGE_SIZE < 2 * PAGE_SIZE { return EXIT, [], [], []; }
    var nvs := new Nvs(crc, partSize - PAGE_SIZE, version);
    o := DONE;
    NothingYet(crc, version, partSize, rows);
    for i := 0 to |rows|
      invariant nvs.Valid() && fresh(nvs) && fresh(nvs.curPage) && nvs.namespaceIdx == Spaces(rows[..i])
      invariant Record(crc, version, rows[..i], groups, cuts) && Concat(groups) == Concat(nvs.log) && o == DONE
      invariant PlaceAfter(version, partSize, rows[..i]) == Some(Place(nvs.curPage.entryNum, nvs.size))
    {
      ghost var items, chunks;
      SpacesNext(rows, i);
      PlaceStep(version, partSize, rows, i);
      o, items, chunks := WriteRow(nvs, rows[i]);
      if o != DONE {
        NoPlace(version, partSize, rows, i + 1);
        return;
      }
      RecordNext(crc, version, rows, i, groups, cuts, items, chunks);
      groups, cuts := groups + [items], cuts + [chunks];
    }
    assert rows[..|rows|] == rows;
    image := nvs.Finish();
  }
}
