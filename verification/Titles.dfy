// internal/broadcast/titles.go and the trial build of internal/multiplex/multiplex.go: programme
// records in a Sky title section, and the reader that walks them by their lengths.
module Titles {
  import opened Words
  import Crc
  import Huffman
  import opened Packing

  type Text = Huffman.Text

  const PROGRAMME_TAG: Byte := 0xB5

  datatype TitleRecord = TitleRecord(eventId: Half, start: int, duration: int, title: Text, genre: Byte, rating: Byte)

  datatype TitleError = NoDictionary | NoRecords | OddTime | TimeOutOfRange | RatingTooBig | NoCode | RecordTooLong | SectionTooLong

  /** The section header a title section is addressed with. */
  datatype Address = Address(tableId: Byte, channelId: Half, filter: (Byte, Byte), version: Byte, section: Byte, last: Byte)

  // ---- The builder ------------------------------------------------------------------------------------

  /** The checks titleRecord makes before it encodes the title. */
  function TimeError(r: TitleRecord): Option<TitleError> {
    if r.start % 2 != 0 || r.duration % 2 != 0 then Some(OddTime)
    else if r.start < 0 || r.duration < 0 || r.start / 2 > 0xFFFF || r.duration / 2 > 0xFFFF then Some(TimeOutOfRange)
    else if r.rating > 0x0F then Some(RatingTooBig)
    else None
  }

  /** The descriptor's body: times halved, the genre, a byte nothing reads, the rating, the title. */
  function Body(r: TitleRecord, text: seq<Byte>): (body: seq<Byte>)
    requires TimeError(r).None?
    ensures |body| == |text| + 7
  {
    U16(r.start / 2) + U16(r.duration / 2) + [r.genre, 0, r.rating] + text
  }

  /** One record: event id, a length that does not count these four bytes, and the descriptor. */
  function Framed(eventId: Half, body: seq<Byte>): seq<Byte>
    requires |body| <= 0xFF
  {
    U16(eventId) + U16(0xF000 + |body| + 2) + [PROGRAMME_TAG, |body|] + body
  }

  function RecordBytes(codes: Huffman.Codes, terminator: Bits, r: TitleRecord): Result<seq<Byte>, TitleError>
    requires terminator != []
  {
    if TimeError(r).Some? then Err(TimeError(r).value)
    else
      match Huffman.Encoded(codes, terminator, r.title)
      case None => Err(NoCode)
      case Some(text) => if |text| + 7 > 0xFF then Err(RecordTooLong) else Ok(Framed(r.eventId, Body(r, text)))
  }

  /** The records one after another, or the first one's error. */
  function AllRecords(codes: Huffman.Codes, terminator: Bits, records: seq<TitleRecord>): Result<seq<Byte>, TitleError>
    requires terminator != []
  {
    if records == [] then Ok([])
    else
      var n := |records| - 1;
      var early := AllRecords(codes, terminator, records[..n]);
      if early.Err? then early
      else
        var late := RecordBytes(codes, terminator, records[n]);
        if late.Err? then late else Ok(early.value + late.value)
  }

  /** The seven bytes between the length and the records. */
  function Header(a: Address): seq<Byte> {
    U16(a.channelId) + [0xC1 + a.version % 32 * 2, a.section, a.last, a.filter.0, a.filter.1]
  }

  function Section(a: Address, body: seq<Byte>): seq<Byte>
    requires |body| + 11 <= MAX_SECTION_LENGTH
  {
    var length := |body| + 11;
    Crc.WithCrc([a.tableId, 0xB0 + length / 0x100, length % 0x100] + (Header(a) + body))
  }

  function Built(a: Address, codes: Huffman.Codes, terminator: Bits, records: seq<TitleRecord>): Result<seq<Byte>, TitleError>
    requires terminator != []
  {
    if records == [] then Err(NoRecords)
    else
      var all := AllRecords(codes, terminator, records);
      if all.Err? then Err(all.error)
      else if |all.value| + 11 > MAX_SECTION_LENGTH then Err(SectionTooLong)
      else Ok(Section(a, all.value))
  }

  // ---- What is accepted -----------------------------------------------------------------------------

  /** A record is built exactly when its times are even seconds that halve into sixteen bits, its rating has four
      bits, its title can be coded, and the descriptor's one byte of length is enough. */
  lemma RecordAccepted(codes: Huffman.Codes, terminator: Bits, r: TitleRecord)
    requires terminator != []
    ensures RecordBytes(codes, terminator, r).Ok? <==>
            && 0 <= r.start <= 0x1_FFFE && r.start % 2 == 0 && 0 <= r.duration <= 0x1_FFFE && r.duration % 2 == 0
            && r.rating < 16
            && Huffman.Encoded(codes, terminator, r.title).Some?
            && |Huffman.Encoded(codes, terminator, r.title).value| <= 248
  {
    hide Huffman.Encoded;
  }

  /** The bytes of the titles alone. */
  function TitleBytes(codes: Huffman.Codes, terminator: Bits, records: seq<TitleRecord>): nat
    requires terminator != []
  {
    if records == [] then 0
    else
      TitleBytes(codes, terminator, records[..|records| - 1])
      + match Huffman.Encoded(codes, terminator, records[|records| - 1].title) case None => 0 case Some(text) => |text|
  }

  lemma {:induction false} AllRecordsAre(codes: Huffman.Codes, terminator: Bits, records: seq<TitleRecord>)
    requires terminator != []
    ensures AllRecords(codes, terminator, records).Ok? <==>
            forall k :: 0 <= k < |records| ==> RecordBytes(codes, terminator, records[k]).Ok?
    ensures AllRecords(codes, terminator, records).Ok? ==>
              |AllRecords(codes, terminator, records).value| == TitleBytes(codes, terminator, records) + 13 * |records|
    decreases |records|
  {
    hide RecordBytes, Huffman.Encoded;
    if records != [] {
      var n := |records| - 1;
      AllRecordsAre(codes, terminator, records[..n]);
      OneRecordIs(codes, terminator, records[n]);
      assert forall k :: 0 <= k < n ==> records[..n][k] == records[k];
    }
  }

  lemma OneRecordIs(codes: Huffman.Codes, terminator: Bits, r: TitleRecord)
    requires terminator != []
    ensures RecordBytes(codes, terminator, r).Ok? ==>
              && Huffman.Encoded(codes, terminator, r.title).Some?
              && |RecordBytes(codes, terminator, r).value| == |Huffman.Encoded(codes, terminator, r.title).value| + 13
  {
    hide Huffman.Encoded;
  }

  /** A section is built exactly when it has records, each of them is, and thirteen bytes and a title for each
      stay within 1024 with the fourteen around them. */
  lemma SectionAccepted(a: Address, codes: Huffman.Codes, terminator: Bits, records: seq<TitleRecord>)
    requires terminator != []
    ensures Built(a, codes, terminator, records).Ok? <==>
            && records != []
            && (forall k :: 0 <= k < |records| ==> RecordBytes(codes, terminator, records[k]).Ok?)
            && TitleBytes(codes, terminator, records) + 13 * |records| + 14 <= 1024
  {
    AllRecordsAre(codes, terminator, records);
    hide RecordBytes, AllRecords, TitleBytes, Section;
  }

  // titleRecord
  method BuildRecord(dict: Huffman.HuffmanDictionary, r: TitleRecord) returns (out: Result<seq<Byte>, TitleError>)
    requires dict.Valid()
    ensures out == RecordBytes(dict.codes, dict.terminator, r)
  {
    if r.start % 2 != 0 || r.duration % 2 != 0 { return Err(OddTime); }
    if r.start < 0 || r.duration < 0 || r.start / 2 > 0xFFFF || r.duration / 2 > 0xFFFF { return Err(TimeOutOfRange); }
    if r.rating > 0x0F { return Err(RatingTooBig); }
    var text := dict.Encode(r.title);
    if text.None? { return Err(NoCode); }
    var body := BuildBody(r, text.value);
    hide Huffman.Encoded;
    if |body| > 0xFF { return Err(RecordTooLong); }
    var framed := Frame(r.eventId, body);
    out := Ok(framed);
  }

  method BuildBody(r: TitleRecord, text: seq<Byte>) returns (body: seq<Byte>)
    requires TimeError(r).None?
    ensures body == Body(r, text)
  {
    var start: Half, duration: Half := r.start / 2, r.duration / 2;
    body := [start / 0x100, start % 0x100, duration / 0x100, duration % 0x100, r.genre, 0, r.rating % 0x10];
    body := body + text;
  }

  method Frame(eventId: Half, body: seq<Byte>) returns (record: seq<Byte>)
    requires |body| <= 0xFF
    ensures record == Framed(eventId, body)
  {
    var descriptor: seq<Byte> := [PROGRAMME_TAG, |body|] + body;
    var n := |descriptor|;
    record := [eventId / 0x100, eventId % 0x100, 0xF0 + n / 0x100, n % 0x100];
    record := record + descriptor;
    assert (0xF000 + n) / 0x100 == 0xF0 + n / 0x100 && (0xF000 + n) % 0x100 == n % 0x100;
  }

  // TitleSection
  method TitleSection(a: Address, dict: Huffman.HuffmanDictionary?, records: seq<TitleRecord>)
      returns (out: Result<seq<Byte>, TitleError>)
    requires dict != null ==> dict.Valid()
    ensures out == if dict == null then Err(NoDictionary) else Built(a, dict.codes, dict.terminator, records)
  {
    if dict == null { return Err(NoDictionary); }
    if |records| == 0 { return Err(NoRecords); }
    hide RecordBytes, Crc.WithCrc;
    ghost var codes, terminator := dict.codes, dict.terminator;
    var body: seq<Byte> := [];
    for i := 0 to |records|
      invariant AllRecords(codes, terminator, records[..i]) == Ok(body)
    {
      assert records[..i + 1][..i] == records[..i];
      var encoded := BuildRecord(dict, records[i]);
      if encoded.Err? {
        FirstErrorStands(codes, terminator, records, i);
        return encoded;
      }
      body := body + encoded.value;
    }
    assert records[..|records|] == records;
    if |body| + 11 > MAX_SECTION_LENGTH { return Err(SectionTooLong); }
    out := Ok(Section(a, body));
  }

  lemma {:induction false} FirstErrorStands(codes: Huffman.Codes, terminator: Bits, records: seq<TitleRecord>, i: nat)
    requires terminator != [] && i < |records| && AllRecords(codes, terminator, records[..i + 1]).Err?
    ensures AllRecords(codes, terminator, records) == AllRecords(codes, terminator, records[..i + 1])
    decreases |records|
  {
    hide RecordBytes;
    var n := |records| - 1;
    if i == n {
      assert records[..i + 1] == records;
    } else {
      assert records[..n][..i + 1] == records[..i + 1];
      FirstErrorStands(codes, terminator, records[..n], i);
    }
  }

  // ---- The reader -----------------------------------------------------------------------------------------

  /** The box's reading of one record: its length, and what the descriptor says, with the title as
      the screen shows it. */
  datatype Reading = Reading(record: TitleRecord, length: nat)

  function ReadRecord(table: Huffman.Table, data: seq<Byte>): Option<Reading> {
    if |data| < 13 then None
    else
      var length := FromU16(data[2], data[3]) % 0x1000;
      if data[4] != 0xB5 || length + 4 > |data| || length != data[5] as int + 2 || data[5] < 7 then None
      else
        var shown := Huffman.Shown(table, data[13..length + 4]);
        if !shown.1 then None
        else
          Some(Reading(TitleRecord(FromU16(data[0], data[1]), FromU16(data[6], data[7]) * 2, FromU16(data[8], data[9]) * 2,
                                   shown.0, data[10], data[12] % 0x10), length))
  }

  /** The walk: each step goes on by the length plus the four bytes it does not count. */
  function ReadAll(table: Huffman.Table, data: seq<Byte>): Option<seq<TitleRecord>>
    decreases |data|
  {
    if data == [] then Some([])
    else
      match ReadRecord(table, data)
      case None => None
      case Some(r) =>
        match ReadAll(table, data[r.length + 4..])
        case None => None
        case Some(rest) => Some([r.record] + rest)
  }

  /** What a receiver makes of a whole section: checksum, declared length, address and records. */
  function ReadSection(table: Huffman.Table, section: seq<Byte>): Option<(Address, seq<TitleRecord>)> {
    if |section| < 14 || Crc.Checksum(section) != 0 || FromU16(section[1], section[2]) % 0x1000 + 3 != |section|
       || section[1] / 0x10 != 0xB || section[5] / 0x40 != 3 || section[5] % 2 != 1 then None
    else
      match ReadAll(table, section[10..|section| - 4])
      case None => None
      case Some(records) =>
        Some((Address(section[0], FromU16(section[3], section[4]), (section[8], section[9]), section[5] / 2 % 32,
                      section[6], section[7]), records))
  }

  // ---- Reading back what was built -------------------------------------------------------------------------

  /** The dictionary both ends hold: prefix-free, walked in some order by the decoder. */
  ghost predicate Shared(codes: Huffman.Codes, terminator: Bits, order: seq<Text>) {
    Huffman.PrefixFreeCodes(codes, terminator) && [] !in codes && Huffman.Walks(order, codes)
  }

  function Table(codes: Huffman.Codes, terminator: Bits, order: seq<Text>): Huffman.Table
    requires forall k :: 0 <= k < |order| ==> order[k] in codes
  {
    Huffman.Rows(codes, order) + [([], terminator)]
  }

  lemma ReadsFramed(table: Huffman.Table, r: TitleRecord, text: seq<Byte>, rest: seq<Byte>)
    requires TimeError(r).None? && |text| + 7 <= 0xFF && Huffman.Shown(table, text) == (r.title, true)
    ensures var data := Framed(r.eventId, Body(r, text));
            |data| == |text| + 13 && ReadRecord(table, data + rest) == Some(Reading(r, |text| + 9))
  {
    hide Huffman.Shown, U16, FromU16;
    U16Read(r.eventId);
    U16Read(0xF000 + |text| + 9);
    U16Read(r.start / 2);
    U16Read(r.duration / 2);
    var body := Body(r, text);
    var data := Framed(r.eventId, body);
    var all := data + rest;
    var n := |body| + 2;
    assert all[0] == U16(r.eventId)[0] && all[1] == U16(r.eventId)[1];
    assert all[2] == U16(0xF000 + n)[0] && all[3] == U16(0xF000 + n)[1] && (0xF000 + n) % 0x1000 == n;
    assert all[6] == U16(r.start / 2)[0] && all[7] == U16(r.start / 2)[1];
    assert all[8] == U16(r.duration / 2)[0] && all[9] == U16(r.duration / 2)[1];
    assert all[13..n + 4] == text;
  }

  lemma ReadsOne(codes: Huffman.Codes, terminator: Bits, order: seq<Text>, r: TitleRecord, rest: seq<Byte>)
    requires Shared(codes, terminator, order) && RecordBytes(codes, terminator, r).Ok?
    requires ReadAll(Table(codes, terminator, order), rest).Some?
    ensures var table := Table(codes, terminator, order);
            ReadAll(table, RecordBytes(codes, terminator, r).value + rest) == Some([r] + ReadAll(table, rest).value)
  {
    hide Huffman.Encoded, ReadRecord, Framed, Body, Huffman.Shown, Huffman.Rows, Huffman.Tokens;
    var table := Table(codes, terminator, order);
    Huffman.DictionaryRoundTrip(codes, terminator, order, r.title);
    var text := Huffman.Encoded(codes, terminator, r.title).value;
    ReadsFramed(table, r, text, rest);
    var data := Framed(r.eventId, Body(r, text));
    assert (data + rest)[|text| + 13..] == rest;
  }

  /** Walking the records of a section gives back the records it was built from. */
  lemma {:induction false} ReadsRecords(codes: Huffman.Codes, terminator: Bits, order: seq<Text>, records: seq<TitleRecord>,
                                        rest: seq<Byte>)
    requires Shared(codes, terminator, order) && AllRecords(codes, terminator, records).Ok?
    requires ReadAll(Table(codes, terminator, order), rest).Some?
    ensures var table := Table(codes, terminator, order);
            ReadAll(table, AllRecords(codes, terminator, records).value + rest) ==
              Some(records + ReadAll(table, rest).value)
    decreases |records|
  {
    hide RecordBytes, ReadAll, Table;
    var table := Table(codes, terminator, order);
    var after := ReadAll(table, rest).value;
    if records == [] {
      assert [] + rest == rest && records + after == after;
    } else {
      var n := |records| - 1;
      var early, late := AllRecords(codes, terminator, records[..n]).value, RecordBytes(codes, terminator, records[n]).value;
      ReadsOne(codes, terminator, order, records[n], rest);
      ReadsRecords(codes, terminator, order, records[..n], late + rest);
      assert early + late + rest == early + (late + rest);
      assert records[..n] + ([records[n]] + after) == records + after;
    }
  }

  /** A receiver with the same dictionary reads from a title section exactly its address and the
      records it was built from, times and titles included, and its checksum holds. */
  lemma TitlesRoundTrip(a: Address, codes: Huffman.Codes, terminator: Bits, order: seq<Text>, records: seq<TitleRecord>)
    requires Shared(codes, terminator, order) && Built(a, codes, terminator, records).Ok?
    ensures ReadSection(Table(codes, terminator, order), Built(a, codes, terminator, records).value) ==
            Some((a.(version := a.version % 32), records))
  {
    var table, body := Table(codes, terminator, order), AllRecords(codes, terminator, records).value;
    assert body + [] == body && records + [] == records && ReadAll(table, []) == Some([]);
    ReadsRecords(codes, terminator, order, records, []);
    SectionFields(a, body);
    hide Huffman.Rows, ReadAll, Section, AllRecords;
  }

  lemma SectionFields(a: Address, body: seq<Byte>)
    requires |body| + 11 <= MAX_SECTION_LENGTH
    ensures var s := Section(a, body);
            && |s| == |body| + 14 && Crc.Checksum(s) == 0 && FromU16(s[1], s[2]) % 0x1000 + 3 == |s|
            && s[1] / 0x10 == 0xB && s[5] / 0x40 == 3 && s[5] % 2 == 1
            && s[0] == a.tableId && FromU16(s[3], s[4]) == a.channelId && s[5] / 2 % 32 == a.version % 32
            && s[6] == a.section && s[7] == a.last && (s[8], s[9]) == a.filter && s[10..|s| - 4] == body
  {
    var length := |body| + 11;
    var whole := [a.tableId, 0xB0 + length / 0x100, length % 0x100] + (Header(a) + body);
    Crc.WithCrcChecks(whole);
    VersionField(a.version);
    LengthField(length);
    hide Crc.Checksum, Crc.BigEndian, FromU16;
    var s := Section(a, body);
    assert s[..|whole|] == whole && s[10..|s| - 4] == body;
    assert whole[3..10] == Header(a);
    assert FromU16(s[3], s[4]) == a.channelId by { U16Read(a.channelId); }
  }

  lemma VersionField(v: Byte)
    ensures (0xC1 + v % 32 * 2) / 2 % 32 == v % 32
  {
    var k: int := v % 32;
    assert (0xC1 + k * 2) / 2 == 96 + k;
  }

  lemma LengthField(length: nat)
    requires length < 0x1000
    ensures FromU16(0xB0 + length / 0x100, length % 0x100) % 0x1000 == length
  {
    assert FromU16(0xB0 + length / 0x100, length % 0x100) == 0xB000 + length;
  }

  // ---- A channel's day ---------------------------------------------------------------------------------------

  const SECONDS_PER_DAY := 86400
  const QUARTERS := 4

  datatype Programme = Programme(start: Option<int>, minutes: int, title: Text, genre: Byte, rating: Byte)

  /** Go's way of reducing a time into the day. */
  function IntoDay(seconds: int): int {
    TruncMod(TruncMod(seconds, SECONDS_PER_DAY) + SECONDS_PER_DAY, SECONDS_PER_DAY)
  }

  /** QuarterOf */
  function QuarterOf(seconds: int): (q: nat)
    ensures q < QUARTERS
  {
    ReducesIntoDay(seconds);
    IntoDay(seconds) / (SECONDS_PER_DAY / QUARTERS)
  }

  /** Whichever side of midnight the conversion lands, the result is the time of day. */
  lemma ReducesIntoDay(seconds: int)
    ensures IntoDay(seconds) == seconds % SECONDS_PER_DAY
  {
  }

  /** Programme i of the day as a record, its time moved from local to UTC. */
  function RecordOf(p: Programme, i: nat, offset: int): TitleRecord
    requires p.start.Some?
  {
    TitleRecord((i + 1) % 0x1_0000, IntoDay(p.start.value - offset), p.minutes * 60, p.title, p.genre, p.rating)
  }

  const TRIAL := Address(0xA0, 0, (0, 0), 0, 0, 0)

  /** What quarter q holds after the first n programmes: each joins if the section still builds. */
  function Kept(codes: Huffman.Codes, terminator: Bits, ps: seq<Programme>, channelId: Half, offset: int, q: nat, n: nat)
      : seq<TitleRecord>
    requires terminator != [] && n <= |ps| && forall i :: 0 <= i < n ==> ps[i].start.Some?
  {
    if n == 0 then []
    else
      var held := Kept(codes, terminator, ps, channelId, offset, q, n - 1);
      var p := ps[n - 1];
      if QuarterOf(p.start.value) != q then held
      else
        var candidate := held + [RecordOf(p, n - 1, offset)];
        if Built(TRIAL.(channelId := channelId), codes, terminator, candidate).Ok? then candidate else held
  }

  /** Whether a section builds depends on its records and the dictionary alone: not on the table,
      channel, filter, version or section numbers it is sent with. */
  lemma AcceptanceIsIndependent(a: Address, b: Address, codes: Huffman.Codes, terminator: Bits, records: seq<TitleRecord>)
    requires terminator != []
    ensures Built(a, codes, terminator, records).Ok? == Built(b, codes, terminator, records).Ok?
    ensures Built(a, codes, terminator, records).Err? ==>
              Built(a, codes, terminator, records) == Built(b, codes, terminator, records)
  {
  }

  /** Whatever a quarter holds is accepted with any table id, channel, filter, version and section
      numbers: the later real build cannot fail. */
  lemma {:induction false} KeptIsAccepted(codes: Huffman.Codes, terminator: Bits, ps: seq<Programme>, channelId: Half,
                                          offset: int, q: nat, n: nat, onAir: Address)
    requires terminator != [] && n <= |ps| && forall i :: 0 <= i < n ==> ps[i].start.Some?
    ensures var held := Kept(codes, terminator, ps, channelId, offset, q, n);
            held != [] ==> Built(onAir, codes, terminator, held).Ok?
  {
    if n == 0 {
    } else {
      hide Built, IntoDay, QuarterOf;
      KeptIsAccepted(codes, terminator, ps, channelId, offset, q, n - 1, onAir);
      AcceptanceIsIndependent(TRIAL.(channelId := channelId), onAir, codes, terminator,
                              Kept(codes, terminator, ps, channelId, offset, q, n));
    }
  }

  /** A programme left out is one the quarter's section, as it stood, had no room for or could not
      carry; everything else of the quarter is there, in order. */
  lemma LeftOutDoesNotBuild(codes: Huffman.Codes, terminator: Bits, ps: seq<Programme>, channelId: Half, offset: int,
                            q: nat, n: nat, onAir: Address)
    requires terminator != [] && n < |ps| && forall i :: 0 <= i <= n ==> ps[i].start.Some?
    requires QuarterOf(ps[n].start.value) == q
    ensures var held := Kept(codes, terminator, ps, channelId, offset, q, n);
            var r := RecordOf(ps[n], n, offset);
            Kept(codes, terminator, ps, channelId, offset, q, n + 1) ==
              if Built(onAir, codes, terminator, held + [r]).Ok? then held + [r] else held
  {
    hide Built, IntoDay, QuarterOf;
    var held := Kept(codes, terminator, ps, channelId, offset, q, n);
    AcceptanceIsIndependent(TRIAL.(channelId := channelId), onAir, codes, terminator, held + [RecordOf(ps[n], n, offset)]);
  }

  datatype DayError = BadStart | NothingFits

  // One programme: its quarter takes it if the section still builds, and gives it back if not.
  method TryProgramme(dict: Huffman.HuffmanDictionary, ps: seq<Programme>, channelId: Half, offset: int, i: nat,
                      quarters: seq<seq<TitleRecord>>) returns (after: seq<seq<TitleRecord>>, fits: bool)
    requires dict.Valid() && i < |ps| && |quarters| == QUARTERS && forall k :: 0 <= k <= i ==> ps[k].start.Some?
    requires forall q :: 0 <= q < QUARTERS ==> quarters[q] == Kept(dict.codes, dict.terminator, ps, channelId, offset, q, i)
    ensures |after| == QUARTERS
    ensures forall q :: 0 <= q < QUARTERS ==> after[q] == Kept(dict.codes, dict.terminator, ps, channelId, offset, q, i + 1)
    ensures fits ==> after[QuarterOf(ps[i].start.value)] != []
    ensures !fits ==> after == quarters
  {
    hide Built, IntoDay, QuarterOf;
    var quarter := QuarterOf(ps[i].start.value);
    var candidate := quarters[quarter] + [RecordOf(ps[i], i, offset)];
    var trial := TitleSection(TRIAL.(channelId := channelId), dict, candidate);
    fits := trial.Ok?;
    after := if fits then quarters[quarter := candidate] else quarters;
  }

  lemma {:induction false} KeptOnlyGrows(codes: Huffman.Codes, terminator: Bits, ps: seq<Programme>, channelId: Half,
                                         offset: int, q: nat, n: nat)
    requires terminator != [] && 0 < n <= |ps| && forall i :: 0 <= i < n ==> ps[i].start.Some?
    ensures Kept(codes, terminator, ps, channelId, offset, q, n - 1) <= Kept(codes, terminator, ps, channelId, offset, q, n)
  {
    hide Built, IntoDay, QuarterOf;
  }

  // ---- What a quarter holds, said of the programmes themselves -------------------------------

  /** The record says what programme i of the day is: filed under its local quarter, sent with the time of
      day that the offset takes back to its local time, in seconds, with its number, title, genre and
      rating. */
  predicate Tells(ps: seq<Programme>, offset: int, q: nat, i: nat, r: TitleRecord)
    requires i < |ps|
  {
    var p := ps[i];
    && p.start.Some?
    && p.start.value % 86400 / 21600 == q
    && 0 <= r.start < 86400
    && (r.start + offset) % 86400 == p.start.value % 86400
    && r.duration == 60 * p.minutes
    && r.eventId == (i + 1) % 0x1_0000
    && r.title == p.title && r.genre == p.genre && r.rating == p.rating
  }

  /** The records are those of the programmes `from`, in the order of the day. */
  ghost predicate Listed(ps: seq<Programme>, offset: int, q: nat, records: seq<TitleRecord>, from: seq<nat>) {
    && |from| == |records|
    && (forall j, k :: 0 <= j < k < |from| ==> from[j] < from[k])
    && (forall k :: 0 <= k < |from| ==> from[k] < |ps| && Tells(ps, offset, q, from[k], records[k]))
  }

  /** With the records of the programmes before i, programme i's record makes no section. */
  ghost predicate NoRoom(codes: Huffman.Codes, terminator: Bits, ps: seq<Programme>, offset: int, q: nat,
                         records: seq<TitleRecord>, from: seq<nat>, i: nat)
    requires terminator != [] && i < |ps| && |from| == |records|
  {
    exists m: nat :: NoRoomAfter(codes, terminator, ps, offset, q, records, from, i, m)
  }

  ghost predicate NoRoomAfter(codes: Huffman.Codes, terminator: Bits, ps: seq<Programme>, offset: int, q: nat,
                              records: seq<TitleRecord>, from: seq<nat>, i: nat, m: nat)
    requires terminator != [] && i < |ps| && |from| == |records|
  {
    && m <= |records|
    && (forall k :: 0 <= k < |from| ==> (from[k] < i <==> k < m))
    && (forall onAir: Address, r: TitleRecord :: Tells(ps, offset, q, i, r) ==>
          Built(onAir, codes, terminator, records[..m] + [r]).Err?)
  }

  /** Of the first n programmes those of the quarter are listed, in order, and each one that is not is one
      there was no room for. */
  ghost predicate Holds(codes: Huffman.Codes, terminator: Bits, ps: seq<Programme>, offset: int, q: nat, n: nat,
                        records: seq<TitleRecord>, from: seq<nat>)
    requires terminator != [] && n <= |ps|
  {
    && Listed(ps, offset, q, records, from)
    && (forall k :: 0 <= k < |from| ==> from[k] < n)
    && (forall i: nat :: i < n && ps[i].start.Some? && ps[i].start.value % 86400 / 21600 == q ==>
          i in from || NoRoom(codes, terminator, ps, offset, q, records, from, i))
  }

  lemma Circle(a: int, b: int)
    ensures ((a - b) % 86400 + b) % 86400 == a % 86400
  {
    var q := (a - b) / 86400;
    assert (a - b) % 86400 + b == a - 86400 * q;
    Wound(a, q);
  }

  lemma Wound(a: int, q: int)
    ensures (a - 86400 * q) % 86400 == a % 86400
  {
    var d, r := a / 86400, a % 86400;
    assert a - 86400 * q == 86400 * (d - q) + r;
  }

  lemma SameTime(x: int, y: int, b: int)
    requires 0 <= x < 86400 && 0 <= y < 86400 && (x + b) % 86400 == (y + b) % 86400
    ensures x == y
  {
    Circle(x + b, b);
    Circle(y + b, b);
    var p, q := (x + b) / 86400, (y + b) / 86400;
    assert x - y == 86400 * (p - q);
  }

  /** One record, and only one, tells a programme. */
  lemma OnlyRecord(ps: seq<Programme>, offset: int, i: nat, q: nat, r: TitleRecord)
    requires i < |ps| && ps[i].start.Some?
    ensures Tells(ps, offset, q, i, r) <==> QuarterOf(ps[i].start.value) == q && r == RecordOf(ps[i], i, offset)
  {
    var start := ps[i].start.value;
    ReducesIntoDay(start);
    ReducesIntoDay(start - offset);
    Circle(start, offset);
    hide IntoDay;
    if Tells(ps, offset, q, i, r) { SameTime(r.start, (start - offset) % 86400, offset); }
  }

  /** A record that joins after the others makes room for nobody before it. */
  lemma RoomlessStays(codes: Huffman.Codes, terminator: Bits, ps: seq<Programme>, offset: int, q: nat,
                      records: seq<TitleRecord>, from: seq<nat>, i: nat, n: nat, r: TitleRecord)
    requires terminator != [] && i < n < |ps| && |from| == |records|
    requires NoRoom(codes, terminator, ps, offset, q, records, from, i)
    ensures NoRoom(codes, terminator, ps, offset, q, records + [r], from + [n], i)
  {
    hide Built, Tells;
    var m: nat :| NoRoomAfter(codes, terminator, ps, offset, q, records, from, i, m);
    assert (records + [r])[..m] == records[..m];
    assert NoRoomAfter(codes, terminator, ps, offset, q, records + [r], from + [n], i, m);
  }

  lemma Joins(codes: Huffman.Codes, terminator: Bits, ps: seq<Programme>, offset: int, q: nat, n: nat,
              records: seq<TitleRecord>, from: seq<nat>, r: TitleRecord)
    requires terminator != [] && n < |ps| && Holds(codes, terminator, ps, offset, q, n, records, from)
    requires Tells(ps, offset, q, n, r)
    ensures Holds(codes, terminator, ps, offset, q, n + 1, records + [r], from + [n])
  {
    hide Built, Tells, NoRoom;
    var from' := from + [n];
    assert from'[|from|] == n;
    forall i: nat | i < n + 1 && ps[i].start.Some? && ps[i].start.value % 86400 / 21600 == q
      ensures i in from' || NoRoom(codes, terminator, ps, offset, q, records + [r], from', i)
    {
      if i < n && i !in from { RoomlessStays(codes, terminator, ps, offset, q, records, from, i, n, r); }
    }
  }

  lemma StaysOut(codes: Huffman.Codes, terminator: Bits, ps: seq<Programme>, offset: int, q: nat, n: nat,
                 records: seq<TitleRecord>, from: seq<nat>, a: Address)
    requires terminator != [] && n < |ps| && ps[n].start.Some? && Holds(codes, terminator, ps, offset, q, n, records, from)
    requires QuarterOf(ps[n].start.value) == q ==> Built(a, codes, terminator, records + [RecordOf(ps[n], n, offset)]).Err?
    ensures Holds(codes, terminator, ps, offset, q, n + 1, records, from)
  {
    hide Built, Tells, QuarterOf, RecordOf;
    assert records[..|records|] == records;
    forall onAir: Address, r: TitleRecord | Tells(ps, offset, q, n, r)
      ensures Built(onAir, codes, terminator, records + [r]).Err?
    {
      OnlyRecord(ps, offset, n, q, r);
      AcceptanceIsIndependent(a, onAir, codes, terminator, records + [r]);
    }
    assert NoRoomAfter(codes, terminator, ps, offset, q, records, from, n, |records|);
  }

  lemma {:induction false} KeptHolds(codes: Huffman.Codes, terminator: Bits, ps: seq<Programme>, channelId: Half, offset: int,
                                     q: nat, n: nat) returns (from: seq<nat>)
    requires terminator != [] && n <= |ps| && forall i :: 0 <= i < n ==> ps[i].start.Some?
    ensures Holds(codes, terminator, ps, offset, q, n, Kept(codes, terminator, ps, channelId, offset, q, n), from)
  {
    hide Built, Tells, QuarterOf, RecordOf, Holds, Kept;
    if n == 0 {
      from := [];
      NoneKept(codes, terminator, ps, channelId, offset, q);
    } else {
      from := KeptHolds(codes, terminator, ps, channelId, offset, q, n - 1);
      from := NextHolds(codes, terminator, ps, channelId, offset, q, n - 1, Kept(codes, terminator, ps, channelId, offset, q, n - 1), from);
      NextKept(codes, terminator, ps, channelId, offset, q, n - 1);
    }
  }

  lemma NoneKept(codes: Huffman.Codes, terminator: Bits, ps: seq<Programme>, channelId: Half, offset: int, q: nat)
    requires terminator != []
    ensures Holds(codes, terminator, ps, offset, q, 0, Kept(codes, terminator, ps, channelId, offset, q, 0), [])
  {
    assert Kept(codes, terminator, ps, channelId, offset, q, 0) == [];
  }

  lemma NextKept(codes: Huffman.Codes, terminator: Bits, ps: seq<Programme>, channelId: Half, offset: int, q: nat, n: nat)
    requires terminator != [] && n < |ps| && forall i :: 0 <= i <= n ==> ps[i].start.Some?
    ensures var held, r := Kept(codes, terminator, ps, channelId, offset, q, n), RecordOf(ps[n], n, offset);
            var joins := QuarterOf(ps[n].start.value) == q && Built(TRIAL.(channelId := channelId), codes, terminator, held + [r]).Ok?;
            Kept(codes, terminator, ps, channelId, offset, q, n + 1) == if joins then held + [r] else held
  {
    hide Built, QuarterOf, RecordOf;
  }

  lemma NextHolds(codes: Huffman.Codes, terminator: Bits, ps: seq<Programme>, channelId: Half, offset: int, q: nat, n: nat,
                  held: seq<TitleRecord>, from: seq<nat>) returns (from': seq<nat>)
    requires terminator != [] && n < |ps| && ps[n].start.Some? && Holds(codes, terminator, ps, offset, q, n, held, from)
    ensures var r := RecordOf(ps[n], n, offset);
            var joins := QuarterOf(ps[n].start.value) == q && Built(TRIAL.(channelId := channelId), codes, terminator, held + [r]).Ok?;
            Holds(codes, terminator, ps, offset, q, n + 1, if joins then held + [r] else held, from')
  {
    hide Built, Tells, QuarterOf, RecordOf, Holds;
    var r := RecordOf(ps[n], n, offset);
    OnlyRecord(ps, offset, n, q, r);
    if QuarterOf(ps[n].start.value) == q && Built(TRIAL.(channelId := channelId), codes, terminator, held + [r]).Ok? {
      Joins(codes, terminator, ps, offset, q, n, held, from, r);
      from' := from + [n];
    } else {
      StaysOut(codes, terminator, ps, offset, q, n, held, from, TRIAL.(channelId := channelId));
      from' := from;
    }
  }

  /** What a quarter ends with: records of the day's programmes, in order, that a section takes at every
      address, each programme of the quarter among them or one there was no room for. */
  ghost predicate InAllSections(codes: Huffman.Codes, terminator: Bits, ps: seq<Programme>, offset: int, q: nat,
                                records: seq<TitleRecord>)
    requires terminator != []
  {
    && (exists from: seq<nat> :: Holds(codes, terminator, ps, offset, q, |ps|, records, from))
    && (forall onAir: Address :: records != [] ==> Built(onAir, codes, terminator, records).Ok?)
  }

  lemma KeptSections(codes: Huffman.Codes, terminator: Bits, ps: seq<Programme>, channelId: Half, offset: int, q: nat)
    requires terminator != [] && forall i :: 0 <= i < |ps| ==> ps[i].start.Some?
    ensures InAllSections(codes, terminator, ps, offset, q, Kept(codes, terminator, ps, channelId, offset, q, |ps|))
  {
    hide Built, Kept, Holds;
    var from := KeptHolds(codes, terminator, ps, channelId, offset, q, |ps|);
    forall onAir: Address
      ensures var held := Kept(codes, terminator, ps, channelId, offset, q, |ps|);
              held != [] ==> Built(onAir, codes, terminator, held).Ok?
    {
      KeptIsAccepted(codes, terminator, ps, channelId, offset, q, |ps|, onAir);
    }
  }

  ghost predicate AllEmpty(quarters: seq<seq<TitleRecord>>) {
    forall q :: 0 <= q < |quarters| ==> quarters[q] == []
  }

  // records: the day's programmes into the four quarters' sections.
  method DayRecords(dict: Huffman.HuffmanDictionary, ps: seq<Programme>, channelId: Half, offset: int)
      returns (quarters: seq<seq<TitleRecord>>, error: Option<DayError>)
    requires dict.Valid()
    ensures error == Some(BadStart) <==> exists i :: 0 <= i < |ps| && ps[i].start.None?
    ensures error != Some(BadStart) ==>
              |quarters| == QUARTERS &&
              forall q :: 0 <= q < QUARTERS ==> quarters[q] == Kept(dict.codes, dict.terminator, ps, channelId, offset, q, |ps|)
    ensures error != Some(BadStart) ==> (error == Some(NothingFits) <==> AllEmpty(quarters))
    ensures error != Some(BadStart) ==>
              forall q :: 0 <= q < QUARTERS ==> InAllSections(dict.codes, dict.terminator, ps, offset, q, quarters[q])
  {
    quarters, error := [[], [], [], []], None;
    var total := 0;
    hide Kept, QuarterOf;
    assert forall q :: 0 <= q < QUARTERS ==> [] == Kept(dict.codes, dict.terminator, ps, channelId, offset, q, 0) by {
      Start(dict.codes, dict.terminator, ps, channelId, offset);
    }
    for i := 0 to |ps|
      invariant |quarters| == QUARTERS && forall k :: 0 <= k < i ==> ps[k].start.Some?
      invariant forall q :: 0 <= q < QUARTERS ==> quarters[q] == Kept(dict.codes, dict.terminator, ps, channelId, offset, q, i)
      invariant total >= 0 && (total == 0 <==> AllEmpty(quarters))
    {
      if ps[i].start.None? { return quarters, Some(BadStart); }
      var after, fits := TryProgramme(dict, ps, channelId, offset, i, quarters);
      forall q | 0 <= q < QUARTERS ensures quarters[q] <= after[q] {
        KeptOnlyGrows(dict.codes, dict.terminator, ps, channelId, offset, q, i + 1);
      }
      quarters := after;
      if fits { total := total + 1; }
    }
    if total == 0 { error := Some(NothingFits); }
    forall q | 0 <= q < QUARTERS ensures InAllSections(dict.codes, dict.terminator, ps, offset, q, quarters[q]) {
      KeptSections(dict.codes, dict.terminator, ps, channelId, offset, q);
    }
  }

  lemma Start(codes: Huffman.Codes, terminator: Bits, ps: seq<Programme>, channelId: Half, offset: int)
    requires terminator != []
    ensures forall q :: 0 <= q < QUARTERS ==> Kept(codes, terminator, ps, channelId, offset, q, 0) == []
  {
  }
}
