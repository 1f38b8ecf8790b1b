// internal/broadcast/sections.go: long sections and the tables spread over them. A receiver's
// view, `Parse`, is what the builders are checked against.
module Sections {
  import opened Words
  import opened Packing
  import Crc
  import W = WordBits

  // ---- One section ------------------------------------------------------------------------------------

  function SectionBytes(table: Byte, extension: Half, version: Byte, number: Byte, last: Byte, payload: Bytes): Bytes
    requires version <= 31 && |payload| <= PAYLOAD_BUDGET
  {
    var length := |payload| + 9;
    Crc.WithCrc([table, 0xB0 + length / 0x100, length % 0x100] + U16(extension) + [0xC1 + version * 2, number, last] + payload)
  }

  /** numberedSection's answer. */
  function Numbered(table: Byte, extension: Half, version: Byte, number: Byte, last: Byte, payload: Bytes)
      : Result<Bytes, SectionError>
  {
    if version > 31 then Err(VersionTooBig)
    else if number > last then Err(BadNumber)
    else if |payload| > PAYLOAD_BUDGET then Err(TooLong)
    else Ok(SectionBytes(table, extension, version, number, last, payload))
  }

  method NumberedSection(table: Byte, extension: Half, version: Byte, number: Byte, last: Byte, payload: Bytes)
      returns (r: Result<Bytes, SectionError>)
    ensures r == Numbered(table, extension, version, number, last, payload)
  {
    hide Crc.Checksum;
    if version > 31 { return Err(VersionTooBig); }
    if number > last { return Err(BadNumber); }
    var length := 5 + |payload| + 4;
    if length > MAX_SECTION_LENGTH { return Err(TooLong); }
    var section: Bytes := [table, 0xB0 + length / 0x100, length % 0x100];
    section := section + U16(extension);
    section := section + [0xC1 + version * 2, number, last];
    section := section + payload;
    var crc := Crc.MPEGCRC32(section);
    r := Ok(section + Crc.BigEndian(crc));
  }

  /** The marks of a long private section, its reserved bits set, that applies now. */
  predicate LongAndCurrent(flags: Byte, marks: Byte) {
    flags / 0x10 == 0xB && marks / 0x40 == 3 && marks % 2 == 1
  }

  /** What a receiver takes from a section once its checksum and length agree. */
  datatype Parsed = Parsed(table: Byte, extension: Half, version: Byte, number: Byte, last: Byte, payload: Bytes)

  function Parse(s: Bytes): Option<Parsed> {
    if |s| < 12 || Crc.Checksum(s) != 0 || FromU16(s[1], s[2]) % 0x1000 + 3 != |s| || !LongAndCurrent(s[1], s[5]) then None
    else Some(Parsed(s[0], FromU16(s[3], s[4]), s[5] / 2 % 32, s[6], s[7], s[8..|s| - 4]))
  }

  lemma SectionParses(table: Byte, extension: Half, version: Byte, number: Byte, last: Byte, payload: Bytes)
    requires version <= 31 && |payload| <= PAYLOAD_BUDGET
    ensures var s := SectionBytes(table, extension, version, number, last, payload);
            && |s| == |payload| + 12 <= 1024
            && Parse(s) == Some(Parsed(table, extension, version, number, last, payload))
  {
    var length := |payload| + 9;
    var whole := [table, 0xB0 + length / 0x100, length % 0x100] + U16(extension) + [0xC1 + version * 2, number, last] + payload;
    Crc.WithCrcChecks(whole);
    U16Read(extension);
    LengthReads(length);
    VersionReads(version);
    hide Crc.Checksum, Crc.BigEndian, FromU16, U16;
    var s := SectionBytes(table, extension, version, number, last, payload);
    assert s[..|whole|] == whole;
    assert s[8..|s| - 4] == payload;
    assert s[3..5] == U16(extension);
    MarksRead(length, version);
  }

  lemma MarksRead(length: nat, version: Byte)
    requires length < 0x400 && version <= 31
    ensures LongAndCurrent(0xB0 + length / 0x100, 0xC1 + version * 2)
  {
  }

  /** A section is built exactly when its version and numbers fit their fields and it stays within 1024
      bytes. */
  lemma NumberedIff(table: Byte, extension: Half, version: Byte, number: Byte, last: Byte, payload: Bytes)
    ensures Numbered(table, extension, version, number, last, payload).Ok? <==>
            version <= 31 && number <= last && |payload| + 12 <= 1024
  {
  }

  lemma LengthReads(length: nat)
    requires length < 0x1000
    ensures FromU16(0xB0 + length / 0x100, length % 0x100) % 0x1000 == length
  {
    assert FromU16(0xB0 + length / 0x100, length % 0x100) == 0xB000 + length;
  }

  lemma VersionReads(version: Byte)
    requires version <= 31
    ensures (0xC1 + version * 2) / 2 % 32 == version
  {
    assert (0xC1 + version * 2) / 2 == 96 + version;
  }

  // ---- A table over many sections ----------------------------------------------------------------------

  /** A table's sections: one per payload, numbered from zero to the last. */
  function Table(table: Byte, extension: Half, version: Byte, payloads: seq<Bytes>, n: nat): seq<Bytes>
    requires version <= 31 && n <= |payloads| <= MAX_SECTIONS
    requires forall k :: 0 <= k < |payloads| ==> |payloads[k]| <= PAYLOAD_BUDGET
  {
    if n == 0 then []
    else Table(table, extension, version, payloads, n - 1)
         + [SectionBytes(table, extension, version, n - 1, |payloads| - 1, payloads[n - 1])]
  }

  lemma {:induction false} TableParses(table: Byte, extension: Half, version: Byte, payloads: seq<Bytes>, n: nat, k: nat)
    requires version <= 31 && k < n <= |payloads| <= MAX_SECTIONS
    requires forall j :: 0 <= j < |payloads| ==> |payloads[j]| <= PAYLOAD_BUDGET
    ensures var sections := Table(table, extension, version, payloads, n);
            && |sections| == n
            && |sections[k]| <= MAX_SECTION_LENGTH + 3
            && Parse(sections[k]) == Some(Parsed(table, extension, version, k, |payloads| - 1, payloads[k]))
  {
    hide SectionBytes, Parse;
    TableLength(table, extension, version, payloads, n - 1);
    if k == n - 1 {
      SectionParses(table, extension, version, k, |payloads| - 1, payloads[k]);
    } else {
      TableParses(table, extension, version, payloads, n - 1, k);
    }
  }

  lemma {:induction false} TableLength(table: Byte, extension: Half, version: Byte, payloads: seq<Bytes>, n: nat)
    requires version <= 31 && n <= |payloads| <= MAX_SECTIONS
    requires forall j :: 0 <= j < |payloads| ==> |payloads[j]| <= PAYLOAD_BUDGET
    ensures |Table(table, extension, version, payloads, n)| == n
  {
    if n == 0 {
    } else {
      TableLength(table, extension, version, payloads, n - 1);
    }
  }

  // The loop both SDT and BAT end with. Once every payload is within the budget, the only refusal
  // left is a version that does not fit its field.
  method NumberAll(table: Byte, extension: Half, version: Byte, payloads: seq<Bytes>) returns (r: Result<seq<Bytes>, SectionError>)
    requires 0 < |payloads| <= MAX_SECTIONS && forall k :: 0 <= k < |payloads| ==> |payloads[k]| <= PAYLOAD_BUDGET
    ensures r == if version > 31 then Err(VersionTooBig) else Ok(Table(table, extension, version, payloads, |payloads|))
  {
    var last := |payloads| - 1;
    var sections: seq<Bytes> := [];
    hide SectionBytes;
    for i := 0 to |payloads|
      invariant i > 0 ==> version <= 31
      invariant version <= 31 ==> sections == Table(table, extension, version, payloads, i)
    {
      var section := NumberedSection(table, extension, version, i, last, payloads[i]);
      if section.Err? { return Err(section.error); }
      sections := sections + [section.value];
    }
    r := Ok(sections);
  }

  // ---- SDT -------------------------------------------------------------------------------------------------

  const SDT_TABLE: Byte := 0x42
  const SDT_HEAD := 3

  /** network_id and a reserved byte, then the section's services. */
  function SdtPayload(networkId: Half, group: seq<Bytes>): Bytes {
    U16(networkId) + [0xFF] + Joined(group)
  }

  function Payloads(networkId: Half, groups: seq<seq<Bytes>>): (r: seq<Bytes>)
    ensures |r| == |groups|
  {
    seq(|groups|, k requires 0 <= k < |groups| => SdtPayload(networkId, groups[k]))
  }

  lemma GroupsFit(items: seq<Result<Bytes, SectionError>>, head: nat)
    requires head <= PAYLOAD_BUDGET && Sectioned(items, head).Ok?
    ensures FirstTooBig(items, head).None?
    ensures forall k :: 0 <= k < |items| ==> items[k].Ok?
    ensures var groups := Sectioned(items, head).value;
            Spreads(groups, Values(items), head) && |groups| <= MAX_SECTIONS
  {
    NoErrorMeans(items, head);
    PackingSpreads(Values(items), head);
    hide Spreads, Packed;
  }

  /** SDT's answer for service entries already encoded. */
  function Sdt(transportId: Half, networkId: Half, version: Byte, entries: seq<Result<Bytes, SectionError>>)
      : Result<seq<Bytes>, SectionError>
  {
    var groups := Sectioned(entries, SDT_HEAD);
    if groups.Err? then Err(groups.error)
    else if version > 31 then Err(VersionTooBig)
    else
      GroupsFit(entries, SDT_HEAD);
      Ok(Table(SDT_TABLE, transportId, version, Payloads(networkId, groups.value), |groups.value|))
  }

  method SDT(transportId: Half, networkId: Half, version: Byte, entries: seq<Result<Bytes, SectionError>>)
      returns (r: Result<seq<Bytes>, SectionError>)
    ensures r == Sdt(transportId, networkId, version, entries)
  {
    var groups := PackSections(entries, SDT_HEAD);
    if groups.Err? { return Err(groups.error); }
    PayloadsFit(networkId, entries);
    hide Sectioned, Joined, Table, Payloads;
    var payloads := GroupPayloads(networkId, groups.value);
    r := NumberAll(SDT_TABLE, transportId, version, payloads);
  }

  lemma PayloadsFit(networkId: Half, entries: seq<Result<Bytes, SectionError>>)
    requires Sectioned(entries, SDT_HEAD).Ok?
    ensures var payloads := Payloads(networkId, Sectioned(entries, SDT_HEAD).value);
            0 < |payloads| <= MAX_SECTIONS && forall k :: 0 <= k < |payloads| ==> |payloads[k]| <= PAYLOAD_BUDGET
  {
    GroupsFit(entries, SDT_HEAD);
    var groups := Sectioned(entries, SDT_HEAD).value;
    hide Sectioned, Joined, Flat, Values;
    assert forall k :: 0 <= k < |groups| ==> Fits(groups[k], SDT_HEAD);
  }

  method GroupPayloads(networkId: Half, groups: seq<seq<Bytes>>) returns (payloads: seq<Bytes>)
    ensures payloads == Payloads(networkId, groups)
  {
    hide Joined;
    payloads := [];
    for i := 0 to |groups|
      invariant payloads == Payloads(networkId, groups)[..i]
    {
      var loop := JoinAll(groups[i]);
      payloads := payloads + [U16(networkId) + [0xFF] + loop];
    }
  }

  method JoinAll(items: seq<Bytes>) returns (all: Bytes)
    ensures all == Joined(items)
  {
    all := [];
    for i := 0 to |items|
      invariant all == Joined(items[..i])
    {
      assert items[..i + 1][..i] == items[..i];
      all := all + items[i];
    }
    assert items[..|items|] == items;
  }

  /** The service loop a receiver finds in an SDT section. */
  function ServiceLoop(s: Bytes): Option<Bytes> {
    match Parse(s)
    case None => None
    case Some(p) => if |p.payload| < 3 then None else Some(p.payload[3..])
  }

  lemma {:induction false} JoinedFlat(groups: seq<seq<Bytes>>)
    ensures Joined(Flat(groups)) == Joined(seq(|groups|, k requires 0 <= k < |groups| => Joined(groups[k])))
  {
    if groups == [] {
    } else {
      var n := |groups| - 1;
      JoinedFlat(groups[..n]);
      JoinAppend(Flat(groups[..n]), groups[n]);
      var all := seq(|groups|, k requires 0 <= k < |groups| => Joined(groups[k]));
      assert all[..n] == seq(n, k requires 0 <= k < n => Joined(groups[..n][k]));
    }
  }

  lemma {:induction false} JoinAppend(a: seq<Bytes>, b: seq<Bytes>)
    ensures Joined(a + b) == Joined(a) + Joined(b)
    decreases |b|
  {
    if b == [] {
      assert a + b == a;
    } else {
      var n := |b| - 1;
      assert (a + b)[..|a + b| - 1] == a + b[..n];
      JoinAppend(a, b[..n]);
    }
  }

  /** The service loops of a table's sections, in order. */
  function Loops(groups: seq<seq<Bytes>>): (r: seq<Bytes>)
    ensures |r| == |groups|
  {
    seq(|groups|, k requires 0 <= k < |groups| => Joined(groups[k]))
  }

  /** The service loops of the sections entries are spread over. */
  function SdtLoops(entries: seq<Result<Bytes, SectionError>>): seq<Bytes>
    requires Sectioned(entries, SDT_HEAD).Ok?
  {
    Loops(Sectioned(entries, SDT_HEAD).value)
  }

  lemma SdtLoopsCarry(entries: seq<Result<Bytes, SectionError>>)
    requires Sectioned(entries, SDT_HEAD).Ok? && forall k :: 0 <= k < |entries| ==> entries[k].Ok?
    ensures Joined(SdtLoops(entries)) == Joined(Values(entries))
  {
    hide Sectioned, Joined, Flat, Values;
    var groups := Sectioned(entries, SDT_HEAD).value;
    GroupsFit(entries, SDT_HEAD);
    JoinedFlat(groups);
    FlatIs(groups, Values(entries));
  }

  /** A receiver that gathers an SDT's sections in order has every service entry, in order, and
      nothing else; every section is within its limit, checks out and is numbered in its place. */
  lemma SdtCarriesEverything(transportId: Half, networkId: Half, version: Byte, entries: seq<Result<Bytes, SectionError>>)
    requires Sdt(transportId, networkId, version, entries).Ok?
    ensures forall k :: 0 <= k < |entries| ==> entries[k].Ok?
    ensures var sections, loops := Sdt(transportId, networkId, version, entries).value, SdtLoops(entries);
            && 0 < |sections| == |loops| <= MAX_SECTIONS
            && Joined(loops) == Joined(Values(entries))
            && forall k :: 0 <= k < |sections| ==> Carries(sections[k], transportId, networkId, version, k, |sections| - 1, loops[k])
  {
    hide Sectioned, Table, Spreads, Parse, Carries, Joined, Flat;
    GroupsFit(entries, SDT_HEAD);
    PayloadsFit(networkId, entries);
    var groups := Sectioned(entries, SDT_HEAD).value;
    SdtLoopsCarry(entries);
    var sections := Sdt(transportId, networkId, version, entries).value;
    TableLength(SDT_TABLE, transportId, version, Payloads(networkId, groups), |groups|);
    forall k | 0 <= k < |sections|
      ensures Carries(sections[k], transportId, networkId, version, k, |sections| - 1, Loops(groups)[k])
    {
      SdtSectionCarries(transportId, networkId, version, groups, k);
    }
  }

  lemma FlatIs(groups: seq<seq<Bytes>>, items: seq<Bytes>)
    requires Spreads(groups, items, SDT_HEAD)
    ensures Flat(groups) == items
  {
  }

  lemma SdtSectionCarries(transportId: Half, networkId: Half, version: Byte, groups: seq<seq<Bytes>>, k: nat)
    requires version <= 31 && k < |groups| <= MAX_SECTIONS
    requires forall j :: 0 <= j < |groups| ==> |Payloads(networkId, groups)[j]| <= PAYLOAD_BUDGET
    ensures |Table(SDT_TABLE, transportId, version, Payloads(networkId, groups), |groups|)| == |groups|
    ensures Carries(Table(SDT_TABLE, transportId, version, Payloads(networkId, groups), |groups|)[k], transportId, networkId,
                    version, k, |groups| - 1, Joined(groups[k]))
  {
    TableParses(SDT_TABLE, transportId, version, Payloads(networkId, groups), |groups|, k);
    hide Parse, Table, Joined;
    assert SdtPayload(networkId, groups[k])[3..] == Joined(groups[k]);
  }

  ghost predicate Carries(s: Bytes, transportId: Half, networkId: Half, version: Byte, k: nat, last: int, loop: Bytes) {
    && |s| <= MAX_SECTION_LENGTH + 3
    && Parse(s).Some?
    && Parse(s).value == Parsed(0x42, transportId, version, Parse(s).value.number, Parse(s).value.last, U16(networkId) + [0xFF] + loop)
    && Parse(s).value.number as int == k && Parse(s).value.last as int == last
    && ServiceLoop(s) == Some(loop)
  }

  /** After packing, no section is ever refused for its length or its number: the table fails only
      on a bad entry, too many sections, or a version that does not fit. */
  lemma SdtFailsOnlyFor(transportId: Half, networkId: Half, version: Byte, entries: seq<Result<Bytes, SectionError>>)
    requires FirstTooBig(entries, SDT_HEAD).None?
    ensures forall k :: 0 <= k < |entries| ==> entries[k].Ok?
    ensures var r := Sdt(transportId, networkId, version, entries);
            r.Ok? <==> version <= 31 && |Packed(Values(entries), SDT_HEAD).All()| <= 256
  {
    NoErrorMeans(entries, SDT_HEAD);
  }

  // ---- The index ---------------------------------------------------------------------------------------------

  const INDEX_TABLE: Byte := 0xC1

  datatype IndexRecord = IndexRecord(id: Half, packed: Byte, selector: Byte, data: seq<Byte>)

  type Record = r: IndexRecord | |r.data| == 5 witness IndexRecord(0, 0, 0, [0, 0, 0, 0, 0])

  predicate IndexDispatched(extension: Half) {
    extension == 0 || extension == 0xFF || 0x41 <= extension <= 0x5A || 0x100 <= extension <= 0x1CF
  }

  /** IndexLetter and IndexCategory, the two ways of writing an extension. */
  function IndexLetter(letter: Byte): Option<Half> {
    if letter < 0x41 || letter > 0x5A then None else Some(letter)
  }

  function IndexCategory(category: Byte, block: Byte): Option<Half> {
    if category >= 16 || block >= 4 then None else Some(0x100 + block * 0x40 + category)
  }

  /** Where the consumer files a genre extension: its low nibble, and the two bits above the next two. */
  function Slot(extension: Half): nat {
    extension % 16 * 4 + extension / 64 % 4
  }

  /** The letters are twenty-six extensions; the genre extensions reach the consumer's sixty-four slots, one
      each. */
  lemma CategorySlots(category: Byte, block: Byte)
    requires category < 16 && block < 4
    ensures var e := IndexCategory(category, block);
            e.Some? && IndexDispatched(e.value) && Slot(e.value) == 4 * category + block
            && e.value / 0x10 % 4 == 0 && e.value / 0x100 == 1
  {
    var e: int := 0x100 + block * 0x40 + category;
    W.Over(e, 64, 4 + block, category);
    W.Over(4 + block, 4, 1, block);
    W.Over(e, 16, 16 + 4 * block, category);
    W.Over(16 + 4 * block, 4, 4 + block, 0);
    W.Over(e, 0x100, 1, block * 0x40 + category);
  }

  /** What is dispatched: the two single extensions, every letter, and 0x100 to 0x1CF. */
  lemma DispatchedIff(e: Half)
    ensures IndexDispatched(e) <==>
            e == 0 || e == 0xFF || IndexLetter(e % 0x100) == Some(e) || (e / 0x100 == 1 && e % 0x100 < 0xD0)
  {
  }

  /** An extension that differs from one IndexCategory writes only in the two bits the consumer ignores
      lands in the same slot; it is dispatched, but for the last block, where those bits have to be clear. */
  lemma AliasesOfCategories(category: Byte, block: Byte, spare: Byte)
    requires category < 16 && block < 4 && spare < 4
    ensures var e := 0x100 + 64 * block + 16 * spare + category;
            && Slot(e) == Slot(IndexCategory(category, block).value)
            && (IndexDispatched(e) <==> block < 3 || spare == 0)
  {
    var e: int := 0x100 + 64 * block + 16 * spare + category;
    W.Over(e, 64, 4 + block, 16 * spare + category);
    W.Over(4 + block, 4, 1, block);
    W.Over(e, 16, 16 + 4 * block + spare, category);
    CategorySlots(category, block);
  }

  function RecordBytes(r: Record): (b: Bytes)
    ensures |b| == 9
  {
    U16(r.id) + [r.packed, r.selector] + r.data
  }

  function IndexPayload(records: seq<Record>): (b: Bytes)
    ensures |b| == 9 * |records|
  {
    if records == [] then [] else RecordBytes(records[0]) + IndexPayload(records[1..])
  }

  /** The consumer's records: (section_length - 9) / 9 of them, nine bytes each. */
  function ReadIndex(payload: Bytes): seq<Record>
    decreases |payload|
  {
    if |payload| < 9 then [] else [ReadRecord(payload[..9])] + ReadIndex(payload[9..])
  }

  function ReadRecord(b: Bytes): Record
    requires |b| == 9
  {
    IndexRecord(FromU16(b[0], b[1]), b[2], b[3], b[4..])
  }

  lemma RecordReads(r: Record)
    ensures ReadRecord(RecordBytes(r)) == r
  {
    U16Read(r.id);
    assert RecordBytes(r)[4..] == r.data;
  }

  lemma {:induction false} IndexReads(records: seq<Record>)
    ensures ReadIndex(IndexPayload(records)) == records
  {
    if records == [] {
    } else {
      var b, rest := RecordBytes(records[0]), IndexPayload(records[1..]);
      IndexReads(records[1..]);
      RecordReads(records[0]);
      assert (b + rest)[..9] == b && (b + rest)[9..] == rest;
      assert [records[0]] + records[1..] == records;
      hide RecordBytes, ReadRecord;
    }
  }

  /** IndexSection: a single section whose number bytes are then rewritten and whose checksum is
      computed again. */
  method IndexSection(extension: Half, version: Byte, number: Byte, last: Byte, records: seq<Record>)
      returns (r: Result<Bytes, SectionError>)
    ensures r == Index(extension, version, number, last, records)
  {
    if !IndexDispatched(extension) { return Err(NotDispatched); }
    var payload := JoinRecords(records);
    var section := NumberedSection(INDEX_TABLE, extension, version, 0, 0, payload);
    if section.Err? { return section; }
    hide Crc.Checksum, Crc.BigEndian, IndexPayload;
    var s := section.value;
    s := s[6 := number][7 := last];
    var body := s[..|s| - 4];
    var crc := Crc.MPEGCRC32(body);
    Rewritten(extension, version, number, last, payload);
    r := Ok(body + Crc.BigEndian(crc));
  }

  method JoinRecords(records: seq<Record>) returns (payload: Bytes)
    ensures payload == IndexPayload(records)
  {
    hide RecordBytes;
    payload := [];
    for i := 0 to |records|
      invariant payload + IndexPayload(records[i..]) == IndexPayload(records)
    {
      var b, rest := RecordBytes(records[i]), IndexPayload(records[i + 1..]);
      assert records[i..][1..] == records[i + 1..] && payload + (b + rest) == payload + b + rest;
      payload := payload + b;
    }
  }

  function Index(extension: Half, version: Byte, number: Byte, last: Byte, records: seq<Record>): Result<Bytes, SectionError> {
    if !IndexDispatched(extension) then Err(NotDispatched)
    else if version > 31 then Err(VersionTooBig)
    else if |IndexPayload(records)| > PAYLOAD_BUDGET then Err(TooLong)
    else Ok(SectionBytes(INDEX_TABLE, extension, version, number, last, IndexPayload(records)))
  }

  lemma Rewritten(extension: Half, version: Byte, number: Byte, last: Byte, payload: Bytes)
    requires version <= 31 && |payload| <= PAYLOAD_BUDGET
    ensures var s := SectionBytes(INDEX_TABLE, extension, version, 0, 0, payload)[6 := number][7 := last];
            Crc.WithCrc(s[..|s| - 4]) == SectionBytes(INDEX_TABLE, extension, version, number, last, payload)
  {
    hide Crc.Checksum, Crc.BigEndian;
    var length := |payload| + 9;
    var head := [INDEX_TABLE, 0xB0 + length / 0x100, length % 0x100] + U16(extension);
    var s := SectionBytes(INDEX_TABLE, extension, version, 0, 0, payload)[6 := number][7 := last];
    assert s[..|s| - 4] == head + [0xC1 + version * 2, number, last] + payload;
  }

  /** After the rewrite the section still checks out, says the numbers asked for, in whatever
      order, and gives the consumer its records back. */
  lemma IndexCarries(extension: Half, version: Byte, number: Byte, last: Byte, records: seq<Record>)
    requires Index(extension, version, number, last, records).Ok?
    ensures var s := Index(extension, version, number, last, records).value;
            && Parse(s) == Some(Parsed(0xC1, extension, version, number, last, IndexPayload(records)))
            && (|s| - 3 - 9) / 9 == |records| && ReadIndex(Parse(s).value.payload) == records
  {
    SectionParses(INDEX_TABLE, extension, version, number, last, IndexPayload(records));
    IndexReads(records);
    hide Parse, SectionBytes, IndexPayload, ReadIndex;
  }

  /** The rewrite gives what numberedSection would have given for the same numbers exactly when those are
      numbers it accepts, or the version is refused by both; otherwise it builds a section
      numberedSection refuses to. */
  lemma IndexIsNumberedIff(extension: Half, version: Byte, number: Byte, last: Byte, records: seq<Record>)
    requires IndexDispatched(extension)
    ensures (Index(extension, version, number, last, records) ==
             Numbered(INDEX_TABLE, extension, version, number, last, IndexPayload(records)))
            <==> (number <= last || version > 31)
    ensures number > last && version <= 31 && |IndexPayload(records)| <= PAYLOAD_BUDGET ==>
              Index(extension, version, number, last, records).Ok?
  {
    hide IndexPayload, SectionBytes;
  }

  /** Numbers that numberedSection would refuse are accepted here. */
  lemma IndexNumbersUnchecked(extension: Half, version: Byte, records: seq<Record>)
    requires IndexDispatched(extension) && version <= 31 && 9 * |records| <= PAYLOAD_BUDGET
    ensures Index(extension, version, 1, 0, records).Ok?
    ensures Numbered(INDEX_TABLE, extension, version, 1, 0, IndexPayload(records)) == Err(BadNumber)
  {
  }
}
