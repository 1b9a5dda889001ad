/**
 * The Paradox MG/SP frame codec: the mod-256 checksum, the action-code tables,
 * the message layouts as explicit offset tables, the command-byte dispatcher
 * and the four frame builders.
 */
module Protocol {
  import opened Wrappers

  type byte = x: int | 0 <= x < 256

  predicate IsByte(x: int) {
    0 <= x < 256
  }

  // ---------------------------------------------------------------------------
  // Checksum
  // ---------------------------------------------------------------------------

  function Sum(data: seq<byte>): nat {
    if data == [] then 0 else data[0] + Sum(data[1..])
  }

  /** `calculate_checksum`: the sum of all bytes, modulo 256; nothing sums to 0 and a single byte to itself. */
  function Checksum(data: seq<byte>): (c: byte)
    ensures data == [] ==> c == 0
    ensures |data| == 1 ==> c == data[0]
  {
    assert |data| == 1 ==> data[1..] == [] && Sum(data) == data[0] + Sum(data[1..]);
    Sum(data) % 256
  }

  lemma {:induction false} SumAppend(a: seq<byte>, b: seq<byte>)
    ensures Sum(a + b) == Sum(a) + Sum(b)
  {
    if a == [] {
      assert a + b == b;
    } else {
      assert (a + b)[1..] == a[1..] + b;
      SumAppend(a[1..], b);
    }
  }

  /** Taking one more byte into the checksum adds it, modulo 256. */
  lemma ChecksumExtend(data: seq<byte>, b: byte)
    ensures Checksum(data + [b]) == (Checksum(data) + b) % 256
  {
    SumAppend(data, [b]);
    assert Sum([b]) == b + Sum([]);
  }

  lemma {:induction false} SumUpdate(data: seq<byte>, i: nat, v: byte)
    requires i < |data|
    ensures Sum(data[i := v]) == Sum(data) - data[i] + v
  {
    if i > 0 {
      assert data[i := v][1..] == data[1..][i - 1 := v];
      SumUpdate(data[1..], i - 1, v);
    } else {
      assert data[i := v][1..] == data[1..];
    }
  }

  /** Changing any single byte always changes the checksum. */
  lemma ChecksumDetectsOneByteChange(data: seq<byte>, i: nat, v: byte)
    requires i < |data| && v != data[i]
    ensures Checksum(data[i := v]) != Checksum(data)
  {
    SumUpdate(data, i, v);
    var s: int := Sum(data);
    var t: int := Sum(data[i := v]);
    assert t - s == v - data[i];
    assert -256 < t - s < 256 && t - s != 0;
    assert (t - s) % 256 != 0;
  }

  // ---------------------------------------------------------------------------
  // Action codes
  // ---------------------------------------------------------------------------

  /** `PARTITION_ACTIONS`, in the dictionary's insertion order. */
  const PartitionActions: seq<(string, byte)> := [
    ("arm_stay", 0x01),
    ("arm_sleep", 0x02),
    ("arm", 0x04),
    ("disarm", 0x05),
    ("arm_stay_instant", 0x06),
    ("arm_instant", 0x07)
  ]

  /** `ZONE_ACTIONS`: bypass and clear-bypass share one toggling code. */
  const ZoneActions: seq<(string, byte)> := [
    ("bypass", 0x10),
    ("clear_bypass", 0x10)
  ]

  /** `PGM_ACTIONS`. */
  const PgmActions: seq<(string, byte)> := [
    ("on", 0x32),
    ("off", 0x33),
    ("on_override", 0x34),
    ("off_override", 0x35)
  ]

  /** `table.get(name)`. */
  function Lookup(table: seq<(string, byte)>, name: string): (r: Option<byte>)
    ensures r.Some? <==> exists i | 0 <= i < |table| :: table[i].0 == name
    ensures r.Some? ==> exists i | 0 <= i < |table| :: table[i] == (name, r.value)
  {
    if table == [] then None
    else if table[0].0 == name then Some(table[0].1)
    else Lookup(table[1..], name)
  }

  function Codes(table: seq<(string, byte)>): set<byte> {
    set i | 0 <= i < |table| :: table[i].1
  }

  /** The three action tables use disjoint codes. */
  lemma ActionTablesDisjoint()
    ensures Codes(PartitionActions) == {0x01, 0x02, 0x04, 0x05, 0x06, 0x07}
    ensures Codes(ZoneActions) == {0x10}
    ensures Codes(PgmActions) == {0x32, 0x33, 0x34, 0x35}
    ensures Codes(PartitionActions) !! Codes(ZoneActions)
    ensures Codes(PartitionActions) !! Codes(PgmActions)
    ensures Codes(ZoneActions) !! Codes(PgmActions)
  {
    assert PartitionActions[0].1 == 0x01 && PartitionActions[1].1 == 0x02;
    assert PartitionActions[2].1 == 0x04 && PartitionActions[3].1 == 0x05;
    assert PartitionActions[4].1 == 0x06 && PartitionActions[5].1 == 0x07;
    assert ZoneActions[0].1 == 0x10 && ZoneActions[1].1 == 0x10;
    assert PgmActions[0].1 == 0x32 && PgmActions[1].1 == 0x33;
    assert PgmActions[2].1 == 0x34 && PgmActions[3].1 == 0x35;
  }

  // ---------------------------------------------------------------------------
  // Message layouts
  // ---------------------------------------------------------------------------

  /** How a field is read: the construct types the layouts use. */
  datatype Kind =
    | Const(expected: byte)  // Const(v, Int8ub): one byte that must equal v
    | UInt8                  // Int8ub, and the Enums over it (kept as raw bytes)
    | UInt16BE               // Int16ub
    | Bytes(count: nat)      // Bytes(n)
    | Padding(count: nat)    // Padding(n): n bytes read and dropped

  function Width(k: Kind): nat {
    match k
    case Const(_) => 1
    case UInt8 => 1
    case UInt16BE => 2
    case Bytes(n) => n
    case Padding(n) => n
  }

  datatype FieldName =
    | Command | ResultCode | Reserved0 | Reserved1 | Reserved2
    | ProductId | Version | Revision | Minor | PanelId | PcPassword | ModemSpeed
    | SourceId | UserId | ReceiverLine | Action | Argument | Address | Records | Data
    | EventGroup | Event1 | Event2 | Partition | ModuleSerial | LabelType | Label
    | ChecksumByte

  datatype Field = Field(name: FieldName, offset: nat, kind: Kind)

  /** A message layout: the Struct's name, its length in bytes and its fields with their offsets. */
  datatype Layout = Layout(title: string, size: nat, fields: seq<Field>)

  /** Fields `k..` lie back to back from offset `from` and end exactly at `size`. */
  predicate Tiles(fields: seq<Field>, k: nat, from: nat, size: nat)
    requires k <= |fields|
    decreases |fields| - k
  {
    if k == |fields| then from == size
    else fields[k].offset == from && Tiles(fields, k + 1, from + Width(fields[k].kind), size)
  }

  predicate WellFormed(layout: Layout) {
    Tiles(layout.fields, 0, 0, layout.size)
  }

  /** `InitiateCommunication` (PC to panel). */
  const InitiateCommunication := Layout("InitiateCommunication", 37, [
    Field(Command, 0, Const(0x72)),
    Field(Reserved0, 1, Padding(34)),
    Field(UserId, 35, UInt8),
    Field(ChecksumByte, 36, UInt8)
  ])

  /** `InitiateCommunicationResponse` (panel to PC): the panel's identity. */
  const InitiateCommunicationResponse := Layout("InitiateCommunicationResponse", 37, [
    Field(Command, 0, Const(0x72)),
    Field(ResultCode, 1, Const(0xFF)),
    Field(Reserved0, 2, Bytes(4)),
    Field(ProductId, 6, UInt8),
    Field(Version, 7, UInt8),
    Field(Revision, 8, UInt8),
    Field(Minor, 9, UInt8),
    Field(PanelId, 10, UInt16BE),
    Field(PcPassword, 12, Bytes(2)),
    Field(ModemSpeed, 14, UInt8),
    Field(Reserved1, 15, Bytes(14)),
    Field(SourceId, 29, UInt8),
    Field(UserId, 30, UInt8),
    Field(ReceiverLine, 31, Bytes(4)),
    Field(Reserved2, 35, Bytes(1)),
    Field(ChecksumByte, 36, UInt8)
  ])

  /** `InitializeCommunication_MGSP` (PC to panel): the password login. */
  const InitializeCommunicationMgsp := Layout("InitializeCommunication_MGSP", 34, [
    Field(Command, 0, Const(0x00)),
    Field(ProductId, 1, UInt8),
    Field(Version, 2, UInt8),
    Field(Revision, 3, UInt8),
    Field(Minor, 4, UInt8),
    Field(PanelId, 5, UInt16BE),
    Field(PcPassword, 7, Bytes(2)),
    Field(Reserved0, 9, Bytes(3)),
    Field(SourceId, 12, UInt8),
    Field(UserId, 13, Const(0x00)),
    Field(Reserved1, 14, Bytes(19)),
    Field(ChecksumByte, 33, UInt8)
  ])

  /** `InitializeCommunicationResponse_MGSP`: 0x10 accepted, 0x70 wrong password. */
  const InitializeCommunicationResponseMgsp := Layout("InitializeCommunicationResponse_MGSP", 36, [
    Field(Command, 0, UInt8),
    Field(Reserved0, 1, Bytes(33)),
    Field(UserId, 34, UInt8),
    Field(ChecksumByte, 35, UInt8)
  ])

  /** `PerformAction` (PC to panel). */
  const PerformAction := Layout("PerformAction", 36, [
    Field(Command, 0, Const(0x40)),
    Field(Reserved0, 1, Bytes(3)),
    Field(Action, 4, UInt8),
    Field(Argument, 5, UInt8),
    Field(Reserved1, 6, Bytes(27)),
    Field(SourceId, 33, UInt8),
    Field(UserId, 34, UInt8),
    Field(ChecksumByte, 35, UInt8)
  ])

  /** `PerformActionResponse`: the command byte is the result code. */
  const PerformActionResponse := Layout("PerformActionResponse", 36, [
    Field(Command, 0, UInt8),
    Field(Reserved0, 1, Bytes(33)),
    Field(UserId, 34, UInt8),
    Field(ChecksumByte, 35, UInt8)
  ])

  /** `ReadEEPROM` (PC to panel). */
  const ReadEeprom := Layout("ReadEEPROM", 36, [
    Field(Command, 0, Const(0x50)),
    Field(Reserved0, 1, Bytes(1)),
    Field(Address, 2, UInt16BE),
    Field(Records, 4, UInt8),
    Field(Reserved1, 5, Bytes(28)),
    Field(SourceId, 33, UInt8),
    Field(UserId, 34, UInt8),
    Field(ChecksumByte, 35, UInt8)
  ])

  /** `ReadEEPROMResponse`: 27 bytes of memory. */
  const ReadEepromResponse := Layout("ReadEEPROMResponse", 33, [
    Field(Command, 0, UInt8),
    Field(Reserved0, 1, Bytes(1)),
    Field(Address, 2, UInt16BE),
    Field(Records, 4, UInt8),
    Field(Data, 5, Bytes(27)),
    Field(ChecksumByte, 32, UInt8)
  ])

  /** `LiveEvent`: an asynchronous event with a 16-byte label. */
  const LiveEvent := Layout("LiveEvent", 35, [
    Field(Command, 0, UInt8),
    Field(Reserved0, 1, Bytes(1)),
    Field(EventGroup, 2, UInt8),
    Field(Event1, 3, UInt8),
    Field(Event2, 4, UInt8),
    Field(Partition, 5, UInt8),
    Field(ModuleSerial, 6, Bytes(4)),
    Field(LabelType, 10, UInt8),
    Field(Label, 11, Bytes(16)),
    Field(Reserved1, 27, Bytes(6)),
    Field(UserId, 33, UInt8),
    Field(ChecksumByte, 34, UInt8)
  ])

  /** Every offset table is the construct Struct it stands for: fields back to back, widths summing to its size. */
  lemma InitiateCommunicationWellFormed()
    ensures WellFormed(InitiateCommunication)
  {
  }

  lemma InitiateCommunicationResponseWellFormed()
    ensures WellFormed(InitiateCommunicationResponse)
  {
    var fs := InitiateCommunicationResponse.fields;
    assert Tiles(fs, 12, 30, 37);
    assert Tiles(fs, 8, 12, 37);
    assert Tiles(fs, 4, 7, 37);
  }

  lemma InitializeCommunicationMgspWellFormed()
    ensures WellFormed(InitializeCommunicationMgsp)
  {
  }

  lemma InitializeCommunicationResponseMgspWellFormed()
    ensures WellFormed(InitializeCommunicationResponseMgsp)
  {
  }

  lemma PerformActionWellFormed()
    ensures WellFormed(PerformAction)
  {
  }

  lemma PerformActionResponseWellFormed()
    ensures WellFormed(PerformActionResponse)
  {
  }

  lemma ReadEepromWellFormed()
    ensures WellFormed(ReadEeprom)
  {
  }

  lemma ReadEepromResponseWellFormed()
    ensures WellFormed(ReadEepromResponse)
  {
  }

  lemma LiveEventWellFormed()
    ensures WellFormed(LiveEvent)
  {
  }

  /** The fields from `k` on all end within `size` when they tile the layout up to it. */
  lemma {:induction false} TilesWithin(fields: seq<Field>, k: nat, from: nat, size: nat, j: nat)
    requires k <= j < |fields| && Tiles(fields, k, from, size)
    ensures fields[j].offset + Width(fields[j].kind) <= size
    decreases |fields| - k
  {
    if j > k {
      TilesWithin(fields, k + 1, from + Width(fields[k].kind), size, j);
    } else {
      TilesEnd(fields, k + 1, from + Width(fields[k].kind), size);
    }
  }

  lemma {:induction false} TilesEnd(fields: seq<Field>, k: nat, from: nat, size: nat)
    requires k <= |fields| && Tiles(fields, k, from, size)
    ensures from <= size
    decreases |fields| - k
  {
    if k < |fields| {
      TilesEnd(fields, k + 1, from + Width(fields[k].kind), size);
    }
  }

  // ---------------------------------------------------------------------------
  // Parsing
  // ---------------------------------------------------------------------------

  /** What `Struct.parse` yields for one field: a number, a byte string, or nothing (Padding). */
  datatype Value = Num(n: nat) | Blob(bytes: seq<byte>) | NoValue

  function ValueAt(f: Field, data: seq<byte>): (v: Value)
    ensures f.offset + Width(f.kind) <= |data| && !f.kind.Padding? ==> !v.NoValue?
    ensures v.Num? && f.kind.UInt16BE? ==> v.n < 65536
    ensures v.Num? && !f.kind.UInt16BE? ==> v.n < 256
    ensures v.Blob? ==> |v.bytes| == Width(f.kind)
  {
    var o := f.offset;
    if o + Width(f.kind) > |data| then NoValue
    else match f.kind
      case Const(_) => Num(data[o])
      case UInt8 => Num(data[o])
      case UInt16BE => Num(data[o] as int * 256 + data[o + 1])
      case Bytes(n) => Blob(data[o..o + n])
      case Padding(_) => NoValue
  }

  /** Every Const field from `k` on holds its expected byte in `data`. */
  predicate ConstsMatch(fields: seq<Field>, k: nat, data: seq<byte>)
    requires k <= |fields|
    decreases |fields| - k
  {
    k == |fields| ||
    ((fields[k].kind.Const? ==>
        fields[k].offset < |data| && data[fields[k].offset] == fields[k].kind.expected)
     && ConstsMatch(fields, k + 1, data))
  }

  /** `Struct.parse` succeeds: the input covers the layout and every Const matches. */
  predicate Accepts(layout: Layout, data: seq<byte>) {
    |data| >= layout.size && ConstsMatch(layout.fields, 0, data)
  }

  /** `layout.parse(data)`: one value per field, or None where construct raises. */
  function Parse(layout: Layout, data: seq<byte>): (r: Option<seq<Value>>)
    ensures r.Some? <==> Accepts(layout, data)
    ensures r.Some? ==> |r.value| == |layout.fields|
  {
    if Accepts(layout, data) then
      Some(seq(|layout.fields|, k requires 0 <= k < |layout.fields| => ValueAt(layout.fields[k], data)))
    else None
  }

  /** The index of the first field called `name`. */
  function Find(fields: seq<Field>, name: FieldName, k: nat): (r: Option<nat>)
    requires k <= |fields|
    ensures r.Some? ==> k <= r.value < |fields| && fields[r.value].name == name
    ensures r.None? ==> forall j | k <= j < |fields| :: fields[j].name != name
    decreases |fields| - k
  {
    if k == |fields| then None
    else if fields[k].name == name then Some(k)
    else Find(fields, name, k + 1)
  }

  /** `parsed.fields.<name>`: the value of a named field in `data`. */
  function Get(layout: Layout, name: FieldName, data: seq<byte>): Value {
    match Find(layout.fields, name, 0)
    case None => NoValue
    case Some(k) => ValueAt(layout.fields[k], data)
  }

  function NumOf(v: Value): nat {
    if v.Num? then v.n else 0
  }

  function BlobOf(v: Value): seq<byte> {
    if v.Blob? then v.bytes else []
  }

  lemma ConstsMatchPrefix(fields: seq<Field>, k: nat, data: seq<byte>, n: nat)
    requires k <= |fields| && n <= |data|
    requires forall j | k <= j < |fields| :: fields[j].offset + Width(fields[j].kind) <= n
    ensures ConstsMatch(fields, k, data) <==> ConstsMatch(fields, k, data[..n])
    decreases |fields| - k
  {
    if k < |fields| {
      ConstsMatchPrefix(fields, k + 1, data, n);
    }
  }

  /** A well-formed layout reads only its own bytes: whatever follows them changes nothing. */
  lemma ParseIgnoresTrailingBytes(layout: Layout, data: seq<byte>)
    requires WellFormed(layout) && |data| >= layout.size
    ensures Parse(layout, data) == Parse(layout, data[..layout.size])
  {
    var fs, n := layout.fields, layout.size;
    forall j | 0 <= j < |fs|
      ensures fs[j].offset + Width(fs[j].kind) <= n
    {
      TilesWithin(fs, 0, 0, n, j);
    }
    ConstsMatchPrefix(fs, 0, data, n);
    if Accepts(layout, data) {
      forall j | 0 <= j < |fs|
        ensures ValueAt(fs[j], data) == ValueAt(fs[j], data[..n])
      {
        var o := fs[j].offset;
        if fs[j].kind.Bytes? {
          assert data[o..o + fs[j].kind.count] == data[..n][o..o + fs[j].kind.count];
        }
      }
      assert Accepts(layout, data[..n]);
      assert Parse(layout, data).value == Parse(layout, data[..n]).value;
    }
  }

  /** The parsed value of field `name` is the one `Get` reads. */
  lemma ParseGet(layout: Layout, name: FieldName, data: seq<byte>)
    requires Parse(layout, data).Some? && Find(layout.fields, name, 0).Some?
    ensures Parse(layout, data).value[Find(layout.fields, name, 0).value] == Get(layout, name, data)
  {
  }

  /** The field at index `i` is the first one called `name`, so `Get` reads it. */
  lemma GetAt(layout: Layout, name: FieldName, data: seq<byte>, i: nat)
    requires i < |layout.fields| && layout.fields[i].name == name
    requires forall j | 0 <= j < i :: layout.fields[j].name != name
    ensures Get(layout, name, data) == ValueAt(layout.fields[i], data)
  {
    FindFirst(layout.fields, name, 0, i);
  }

  lemma {:induction false} FindFirst(fields: seq<Field>, name: FieldName, k: nat, i: nat)
    requires k <= i < |fields| && fields[i].name == name
    requires forall j | k <= j < i :: fields[j].name != name
    ensures Find(fields, name, k) == Some(i)
    decreases i - k
  {
    if k < i {
      FindFirst(fields, name, k + 1, i);
    }
  }

  // ---------------------------------------------------------------------------
  // Dispatch
  // ---------------------------------------------------------------------------

  /** The `parsers` dictionary of `get_parser_by_command`. */
  const ExactParsers: map<byte, Layout> := map[
    0x72 := InitiateCommunicationResponse,
    0x00 := InitializeCommunicationMgsp,
    0x10 := InitializeCommunicationResponseMgsp,
    0x70 := InitializeCommunicationResponseMgsp,
    0x40 := PerformAction,
    0x50 := ReadEeprom
  ]

  /** `get_parser_by_command`: the command ranges win over the dictionary. */
  function ParserFor(command: byte): (r: Option<Layout>)
    ensures r.Some? <==> 0x40 <= command <= 0x5F || 0xE0 <= command <= 0xEF || command in {0x72, 0x00, 0x10, 0x70}
  {
    if 0x40 <= command <= 0x4F then Some(PerformActionResponse)
    else if 0x50 <= command <= 0x5F then Some(ReadEepromResponse)
    else if 0xE0 <= command <= 0xEF then Some(LiveEvent)
    else if command in ExactParsers then Some(ExactParsers[command])
    else None
  }

  /** Which layout each command byte selects; the request layouts PerformAction and ReadEEPROM are never selected. */
  lemma DispatchTable(command: byte)
    ensures ParserFor(command) == Some(PerformActionResponse) <==> 0x40 <= command <= 0x4F
    ensures ParserFor(command) == Some(ReadEepromResponse) <==> 0x50 <= command <= 0x5F
    ensures ParserFor(command) == Some(LiveEvent) <==> 0xE0 <= command <= 0xEF
    ensures ParserFor(command) == Some(InitiateCommunicationResponse) <==> command == 0x72
    ensures ParserFor(command) == Some(InitializeCommunicationMgsp) <==> command == 0x00
    ensures ParserFor(command) == Some(InitializeCommunicationResponseMgsp) <==> command == 0x10 || command == 0x70
    ensures ParserFor(command) != Some(PerformAction) && ParserFor(command) != Some(ReadEeprom)
  {
  }

  /** What `parse_message` returns: the layout chosen and its parsed values. */
  datatype Parsed = Parsed(layout: Layout, values: seq<Value>)

  /** `parse_message`: None for a short frame, an unknown command or a failed parse. */
  function ParseMessage(data: seq<byte>): (r: Option<Parsed>)
    ensures r.Some? <==> |data| >= 2 && ParserFor(data[0]).Some? && Accepts(ParserFor(data[0]).value, data)
    ensures r.Some? ==> r.value.layout == ParserFor(data[0]).value
    ensures r.Some? ==> r.value.values == Parse(r.value.layout, data).value
  {
    if |data| < 2 then None
    else match ParserFor(data[0])
      case None => None
      case Some(layout) =>
        match Parse(layout, data)
        case None => None
        case Some(values) => Some(Parsed(layout, values))
  }

  // ---------------------------------------------------------------------------
  // Builders
  // ---------------------------------------------------------------------------

  /** `bytearray(n)`. */
  function Zeroed(n: nat): (z: seq<byte>)
    ensures |z| == n && forall i | 0 <= i < n :: z[i] == 0
  {
    seq(n, _ => 0)
  }

  /** The last step of every builder: `data[36] = calculate_checksum(data[0:36])`. */
  function Seal(body: seq<byte>): (f: seq<byte>)
    requires |body| == 37
    ensures |f| == 37 && f[..36] == body[..36] && f[36] == Checksum(f[..36])
  {
    body[36 := Checksum(body[..36])]
  }

  /** `build_initiate_communication(user_id)`. */
  function InitiateFrame(user: int): (r: Result<seq<byte>>)
    ensures r.Ok? <==> IsByte(user)
    ensures r.Err? ==> r.error == ByteRange
    ensures r.Ok? ==> |r.value| == 37 && r.value[0] == 0x72 && r.value[35] == user
    ensures r.Ok? ==> forall i | 1 <= i < 35 :: r.value[i] == 0
    ensures r.Ok? ==> r.value[36] == Checksum(r.value[..36])
  {
    if !IsByte(user) then Err(ByteRange)
    else Ok(Seal(Zeroed(37)[0 := 0x72][35 := user]))
  }

  predicate FirmwareBytes(firmware: (int, int, int)) {
    IsByte(firmware.0) && IsByte(firmware.1) && IsByte(firmware.2)
  }

  /**
   * `build_initialize_communication_mgsp`. The slice assignment `data[7:9] = password`
   * grows or shrinks the buffer unless the password is exactly two bytes long; one of
   * fewer than two bytes leaves no room for `data[36]`.
   */
  function InitializeFrame(product: int, firmware: (int, int, int), panelId: int,
                           password: seq<byte>, source: int, user: int): (r: Result<seq<byte>>)
    ensures r.Ok? <==> IsByte(product) && FirmwareBytes(firmware) && IsByte(source) && IsByte(user) && |password| >= 2
    ensures r.Err? ==> r.error == (if IsByte(product) && FirmwareBytes(firmware) && IsByte(source) && IsByte(user)
                                   then BufferIndex else ByteRange)
    ensures r.Ok? ==> |r.value| == 35 + |password|
    ensures r.Ok? ==> r.value[..7] == [0x00, product, firmware.0, firmware.1, firmware.2, (panelId / 256) % 256, panelId % 256]
    ensures r.Ok? ==> r.value[12] == source && r.value[13] == user && r.value[35] == user
    ensures r.Ok? ==> r.value[36] == Checksum(r.value[..36])
    ensures r.Ok? && |password| == 2 ==> r.value[7..9] == password
    ensures r.Ok? && |password| == 2 ==> forall i | 9 <= i < 35 && i != 12 && i != 13 :: r.value[i] == 0
  {
    if !(IsByte(product) && FirmwareBytes(firmware) && IsByte(source) && IsByte(user)) then Err(ByteRange)
    else
      var body := Splice(MgspHeader(product, firmware, panelId), password)[12 := source][13 := user];
      if |body| <= 36 then Err(BufferIndex)
      else Ok(body[35 := user][36 := Checksum(body[35 := user][..36])])
  }

  /** `build_perform_action(action, argument, source_id, user_id)`. */
  function PerformActionFrame(action: int, argument: int, source: int, user: int): (r: Result<seq<byte>>)
    ensures r.Ok? <==> IsByte(action) && IsByte(argument) && IsByte(source) && IsByte(user)
    ensures r.Err? ==> r.error == ByteRange
    ensures r.Ok? ==> |r.value| == 37 && r.value[0] == 0x40 && r.value[4] == action && r.value[5] == argument
    ensures r.Ok? ==> r.value[33] == source && r.value[34] == user && r.value[35] == user
    ensures r.Ok? ==> forall i | 1 <= i < 33 && i != 4 && i != 5 :: r.value[i] == 0
    ensures r.Ok? ==> r.value[36] == Checksum(r.value[..36])
  {
    if !(IsByte(action) && IsByte(argument) && IsByte(source) && IsByte(user)) then Err(ByteRange)
    else Ok(Seal(Zeroed(37)[0 := 0x40][4 := action][5 := argument][33 := source][34 := user][35 := user]))
  }

  /** `build_read_eeprom(address, records, source_id, user_id)`: the address is cut to 16 bits. */
  function ReadEepromFrame(address: int, records: int, source: int, user: int): (r: Result<seq<byte>>)
    ensures r.Ok? <==> IsByte(records) && IsByte(source) && IsByte(user)
    ensures r.Err? ==> r.error == ByteRange
    ensures r.Ok? ==> |r.value| == 37 && r.value[0] == 0x50 && r.value[4] == records
    ensures r.Ok? ==> r.value[2] as int * 256 + r.value[3] == address % 65536
    ensures r.Ok? ==> r.value[33] == source && r.value[34] == user && r.value[35] == user
    ensures r.Ok? ==> r.value[1] == 0 && forall i | 5 <= i < 33 :: r.value[i] == 0
    ensures r.Ok? ==> r.value[36] == Checksum(r.value[..36])
  {
    if !(IsByte(records) && IsByte(source) && IsByte(user)) then Err(ByteRange)
    else
      SplitAddress(address);
      Ok(Seal(Zeroed(37)[0 := 0x50][2 := (address / 256) % 256][3 := address % 256]
                        [4 := records][33 := source][34 := user][35 := user]))
  }

  /** `(a >> 8) & 0xFF` and `a & 0xFF` are the two bytes of `a` modulo 2^16, for negative `a` too. */
  lemma SplitAddress(a: int)
    ensures ((a / 256) % 256) * 256 + a % 256 == a % 65536
  {
    var q := a / 256;
    assert a == q * 256 + a % 256;
    var hi := q % 256;
    assert q == (q / 256) * 256 + hi;
    assert a == (q / 256) * 65536 + (hi * 256 + a % 256);
    assert 0 <= hi * 256 + a % 256 < 65536;
  }

  method BuildInitiateCommunication(user: int) returns (r: Result<seq<byte>>)
    ensures r == InitiateFrame(user)
  {
    var data := new byte[37](_ => 0);
    data[0] := 0x72;
    if !IsByte(user) {
      return Err(ByteRange);
    }
    data[35] := user;
    assert data[..] == Zeroed(37)[0 := 0x72][35 := user];
    data[36] := Checksum(data[..36]);
    return Ok(data[..]);
  }

  /** The MGSP buffer after the product, firmware and panel-id bytes are written. */
  function MgspHeader(product: byte, firmware: (int, int, int), panelId: int): (h: seq<byte>)
    requires FirmwareBytes(firmware)
    ensures |h| == 37
  {
    Zeroed(37)[1 := product][2 := firmware.0][3 := firmware.1][4 := firmware.2]
              [5 := (panelId / 256) % 256][6 := panelId % 256]
  }

  /** `data[7:9] = password`. */
  function Splice(data: seq<byte>, password: seq<byte>): (s: seq<byte>)
    requires |data| == 37
    ensures |s| == 35 + |password| && s[..7] == data[..7]
  {
    data[..7] + password + data[9..]
  }

  method BuildInitializeCommunicationMgsp(product: int, firmware: (int, int, int), panelId: int,
                                          password: seq<byte>, source: int, user: int)
    returns (r: Result<seq<byte>>)
    ensures r == InitializeFrame(product, firmware, panelId, password, source, user)
  {
    var data := new byte[37](_ => 0);
    data[0] := 0x00;
    if !(IsByte(product) && FirmwareBytes(firmware)) {
      return Err(ByteRange);
    }
    data[1] := product;
    data[2] := firmware.0;
    data[3] := firmware.1;
    data[4] := firmware.2;
    data[5] := (panelId / 256) % 256;
    data[6] := panelId % 256;
    assert data[..] == MgspHeader(product, firmware, panelId);
    var spliced := Splice(data[..], password);
    var buffer := new byte[|spliced|](i requires 0 <= i < |spliced| => spliced[i]);
    assert buffer[..] == spliced;
    if !(IsByte(source) && IsByte(user)) {
      return Err(ByteRange);
    }
    buffer[12] := source;
    buffer[13] := user;
    ghost var body := buffer[..];
    assert body == spliced[12 := source][13 := user];
    if buffer.Length <= 35 {
      return Err(BufferIndex);
    }
    buffer[35] := user;
    if buffer.Length <= 36 {
      return Err(BufferIndex);
    }
    assert buffer[..] == body[35 := user as byte];
    buffer[36] := Checksum(buffer[..36]);
    return Ok(buffer[..]);
  }

  method BuildPerformAction(action: int, argument: int, source: int, user: int) returns (r: Result<seq<byte>>)
    ensures r == PerformActionFrame(action, argument, source, user)
  {
    var data := new byte[37](_ => 0);
    data[0] := 0x40;
    if !(IsByte(action) && IsByte(argument) && IsByte(source) && IsByte(user)) {
      return Err(ByteRange);
    }
    data[4] := action;
    data[5] := argument;
    data[33] := source;
    data[34] := user;
    data[35] := user;
    assert data[..] == Zeroed(37)[0 := 0x40][4 := action][5 := argument][33 := source][34 := user][35 := user];
    data[36] := Checksum(data[..36]);
    return Ok(data[..]);
  }

  method BuildReadEeprom(address: int, records: int, source: int, user: int) returns (r: Result<seq<byte>>)
    ensures r == ReadEepromFrame(address, records, source, user)
  {
    var data := new byte[37](_ => 0);
    data[0] := 0x50;
    data[2] := (address / 256) % 256;
    data[3] := address % 256;
    if !(IsByte(records) && IsByte(source) && IsByte(user)) {
      return Err(ByteRange);
    }
    data[4] := records;
    data[33] := source;
    data[34] := user;
    data[35] := user;
    assert data[..] == Zeroed(37)[0 := 0x50][2 := (address / 256) % 256][3 := address % 256]
                                 [4 := records][33 := source][34 := user][35 := user];
    data[36] := Checksum(data[..36]);
    return Ok(data[..]);
  }

  // ---------------------------------------------------------------------------
  // Where the panel-to-PC layouts read their fields (one lemma per field keeps
  // each lookup in a literal layout small)
  // ---------------------------------------------------------------------------

  /** Where the identity response layout reads each field `initiate_communication` uses. */
  lemma IdentityProduct(d: seq<byte>)
    requires |d| >= 37
    ensures Get(InitiateCommunicationResponse, ProductId, d) == Num(d[6])
  {
    assert ValueAt(Field(ProductId, 6, UInt8), d) == Num(d[6]);
    assert InitiateCommunicationResponse.fields[3] == Field(ProductId, 6, UInt8);
    GetAt(InitiateCommunicationResponse, ProductId, d, 3);
  }

  lemma IdentityVersion(d: seq<byte>)
    requires |d| >= 37
    ensures Get(InitiateCommunicationResponse, Version, d) == Num(d[7])
  {
    assert ValueAt(Field(Version, 7, UInt8), d) == Num(d[7]);
    assert InitiateCommunicationResponse.fields[4] == Field(Version, 7, UInt8);
    GetAt(InitiateCommunicationResponse, Version, d, 4);
  }

  lemma IdentityRevision(d: seq<byte>)
    requires |d| >= 37
    ensures Get(InitiateCommunicationResponse, Revision, d) == Num(d[8])
  {
    assert ValueAt(Field(Revision, 8, UInt8), d) == Num(d[8]);
    assert InitiateCommunicationResponse.fields[5] == Field(Revision, 8, UInt8);
    GetAt(InitiateCommunicationResponse, Revision, d, 5);
  }

  lemma IdentityMinor(d: seq<byte>)
    requires |d| >= 37
    ensures Get(InitiateCommunicationResponse, Minor, d) == Num(d[9])
  {
    assert ValueAt(Field(Minor, 9, UInt8), d) == Num(d[9]);
    assert InitiateCommunicationResponse.fields[6] == Field(Minor, 9, UInt8);
    GetAt(InitiateCommunicationResponse, Minor, d, 6);
  }

  lemma IdentityPanel(d: seq<byte>)
    requires |d| >= 37
    ensures Get(InitiateCommunicationResponse, PanelId, d) == Num(d[10] as int * 256 + d[11])
  {
    assert ValueAt(Field(PanelId, 10, UInt16BE), d) == Num(d[10] as int * 256 + d[11]);
    assert InitiateCommunicationResponse.fields[7] == Field(PanelId, 10, UInt16BE);
    GetAt(InitiateCommunicationResponse, PanelId, d, 7);
  }

  lemma IdentityPassword(d: seq<byte>)
    requires |d| >= 37
    ensures Get(InitiateCommunicationResponse, PcPassword, d) == Blob(d[12..14])
  {
    assert ValueAt(Field(PcPassword, 12, Bytes(2)), d) == Blob(d[12..14]);
    assert InitiateCommunicationResponse.fields[8] == Field(PcPassword, 12, Bytes(2));
    GetAt(InitiateCommunicationResponse, PcPassword, d, 8);
  }

  lemma IdentitySource(d: seq<byte>)
    requires |d| >= 37
    ensures Get(InitiateCommunicationResponse, SourceId, d) == Num(d[29])
  {
    assert ValueAt(Field(SourceId, 29, UInt8), d) == Num(d[29]);
    assert InitiateCommunicationResponse.fields[11] == Field(SourceId, 29, UInt8);
    GetAt(InitiateCommunicationResponse, SourceId, d, 11);
  }

  /** Where the ReadEEPROM response layout reads each of its fields. */
  lemma ReplyCommandField(data: seq<byte>)
    requires |data| >= 33
    ensures Get(ReadEepromResponse, Command, data) == Num(data[0])
  {
    assert ValueAt(Field(Command, 0, UInt8), data) == Num(data[0]);
    assert ReadEepromResponse.fields[0] == Field(Command, 0, UInt8);
    GetAt(ReadEepromResponse, Command, data, 0);
  }

  lemma ReplyAddressField(data: seq<byte>)
    requires |data| >= 33
    ensures Get(ReadEepromResponse, Address, data) == Num(data[2] as int * 256 + data[3])
  {
    assert ValueAt(Field(Address, 2, UInt16BE), data) == Num(data[2] as int * 256 + data[3]);
    assert ReadEepromResponse.fields[2] == Field(Address, 2, UInt16BE);
    GetAt(ReadEepromResponse, Address, data, 2);
  }

  lemma ReplyRecordsField(data: seq<byte>)
    requires |data| >= 33
    ensures Get(ReadEepromResponse, Records, data) == Num(data[4])
  {
    assert ValueAt(Field(Records, 4, UInt8), data) == Num(data[4]);
    assert ReadEepromResponse.fields[3] == Field(Records, 4, UInt8);
    GetAt(ReadEepromResponse, Records, data, 3);
  }

  lemma ReplyDataField(data: seq<byte>)
    requires |data| >= 33
    ensures Get(ReadEepromResponse, Data, data) == Blob(data[5..32])
  {
    assert ValueAt(Field(Data, 5, Bytes(27)), data) == Blob(data[5..32]);
    assert ReadEepromResponse.fields[4] == Field(Data, 5, Bytes(27));
    GetAt(ReadEepromResponse, Data, data, 4);
  }

  /** Where the LiveEvent layout reads each field `handle_live_event` uses. */
  lemma LiveEventCommand(d: seq<byte>)
    requires |d| >= 35
    ensures Get(LiveEvent, Command, d) == Num(d[0])
  {
    assert ValueAt(Field(Command, 0, UInt8), d) == Num(d[0]);
    assert LiveEvent.fields[0] == Field(Command, 0, UInt8);
    GetAt(LiveEvent, Command, d, 0);
  }

  lemma LiveEventGroup(d: seq<byte>)
    requires |d| >= 35
    ensures Get(LiveEvent, EventGroup, d) == Num(d[2])
  {
    assert ValueAt(Field(EventGroup, 2, UInt8), d) == Num(d[2]);
    assert LiveEvent.fields[2] == Field(EventGroup, 2, UInt8);
    GetAt(LiveEvent, EventGroup, d, 2);
  }

  lemma LiveEventFirst(d: seq<byte>)
    requires |d| >= 35
    ensures Get(LiveEvent, Event1, d) == Num(d[3])
  {
    assert ValueAt(Field(Event1, 3, UInt8), d) == Num(d[3]);
    assert LiveEvent.fields[3] == Field(Event1, 3, UInt8);
    GetAt(LiveEvent, Event1, d, 3);
  }

  lemma LiveEventSecond(d: seq<byte>)
    requires |d| >= 35
    ensures Get(LiveEvent, Event2, d) == Num(d[4])
  {
    assert ValueAt(Field(Event2, 4, UInt8), d) == Num(d[4]);
    assert LiveEvent.fields[4] == Field(Event2, 4, UInt8);
    GetAt(LiveEvent, Event2, d, 4);
  }

  lemma LiveEventPartition(d: seq<byte>)
    requires |d| >= 35
    ensures Get(LiveEvent, Partition, d) == Num(d[5])
  {
    assert ValueAt(Field(Partition, 5, UInt8), d) == Num(d[5]);
    assert LiveEvent.fields[5] == Field(Partition, 5, UInt8);
    GetAt(LiveEvent, Partition, d, 5);
  }

  lemma LiveEventLabelType(d: seq<byte>)
    requires |d| >= 35
    ensures Get(LiveEvent, LabelType, d) == Num(d[10])
  {
    assert ValueAt(Field(LabelType, 10, UInt8), d) == Num(d[10]);
    assert LiveEvent.fields[7] == Field(LabelType, 10, UInt8);
    GetAt(LiveEvent, LabelType, d, 7);
  }

  lemma LiveEventLabel(d: seq<byte>)
    requires |d| >= 35
    ensures Get(LiveEvent, Label, d) == Blob(d[11..27])
  {
    assert ValueAt(Field(Label, 11, Bytes(16)), d) == Blob(d[11..27]);
    assert LiveEvent.fields[8] == Field(Label, 11, Bytes(16));
    GetAt(LiveEvent, Label, d, 8);
  }

  // ---------------------------------------------------------------------------
  // Builders against layouts
  // ---------------------------------------------------------------------------

  /** The InitiateCommunication frame parses with its own layout and carries the user id and a true checksum. */
  lemma InitiateFrameParses(user: int)
    requires InitiateFrame(user).Ok?
    ensures Accepts(InitiateCommunication, InitiateFrame(user).value)
    ensures Get(InitiateCommunication, UserId, InitiateFrame(user).value) == Num(user)
    ensures Get(InitiateCommunication, ChecksumByte, InitiateFrame(user).value)
         == Num(Checksum(InitiateFrame(user).value[..36]))
  {
  }

  /**
   * A PerformAction frame parses with the PerformAction layout, which ends one byte early:
   * the layout's checksum field reads the repeated user id, and the true checksum lies past it.
   */
  lemma PerformActionFrameParses(action: int, argument: int, source: int, user: int, f: seq<byte>)
    requires PerformActionFrame(action, argument, source, user) == Ok(f)
    ensures Accepts(PerformAction, f)
    ensures Get(PerformAction, Action, f) == Num(action)
    ensures Get(PerformAction, Argument, f) == Num(argument)
    ensures Get(PerformAction, SourceId, f) == Num(source)
    ensures Get(PerformAction, UserId, f) == Num(user)
    ensures Get(PerformAction, ChecksumByte, f) == Num(user)
    ensures PerformAction.size == |f| - 1
  {
    FirstConstOnly(PerformAction, f);
    ActionField(f);
    ArgumentField(f);
    ActionSourceField(f);
    ActionUserField(f);
    ActionChecksumField(f);
  }

  /** Where the PerformAction layout reads each of its fields. */
  lemma ActionField(f: seq<byte>)
    requires |f| >= 36
    ensures Get(PerformAction, Action, f) == Num(f[4])
  {
    assert ValueAt(Field(Action, 4, UInt8), f) == Num(f[4]);
    assert PerformAction.fields[2] == Field(Action, 4, UInt8);
    GetAt(PerformAction, Action, f, 2);
  }

  lemma ArgumentField(f: seq<byte>)
    requires |f| >= 36
    ensures Get(PerformAction, Argument, f) == Num(f[5])
  {
    assert ValueAt(Field(Argument, 5, UInt8), f) == Num(f[5]);
    assert PerformAction.fields[3] == Field(Argument, 5, UInt8);
    GetAt(PerformAction, Argument, f, 3);
  }

  lemma ActionSourceField(f: seq<byte>)
    requires |f| >= 36
    ensures Get(PerformAction, SourceId, f) == Num(f[33])
  {
    assert ValueAt(Field(SourceId, 33, UInt8), f) == Num(f[33]);
    assert PerformAction.fields[5] == Field(SourceId, 33, UInt8);
    GetAt(PerformAction, SourceId, f, 5);
  }

  lemma ActionUserField(f: seq<byte>)
    requires |f| >= 36
    ensures Get(PerformAction, UserId, f) == Num(f[34])
  {
    assert ValueAt(Field(UserId, 34, UInt8), f) == Num(f[34]);
    assert PerformAction.fields[6] == Field(UserId, 34, UInt8);
    GetAt(PerformAction, UserId, f, 6);
  }

  lemma ActionChecksumField(f: seq<byte>)
    requires |f| >= 36
    ensures Get(PerformAction, ChecksumByte, f) == Num(f[35])
  {
    assert ValueAt(Field(ChecksumByte, 35, UInt8), f) == Num(f[35]);
    assert PerformAction.fields[7] == Field(ChecksumByte, 35, UInt8);
    GetAt(PerformAction, ChecksumByte, f, 7);
  }

  /** A ReadEEPROM frame parses with its layout and gives back the address modulo 2^16 and the record count. */
  lemma ReadEepromFrameParses(address: int, records: int, source: int, user: int, f: seq<byte>)
    requires ReadEepromFrame(address, records, source, user) == Ok(f)
    ensures Accepts(ReadEeprom, f)
    ensures Get(ReadEeprom, Address, f) == Num(address % 65536)
    ensures Get(ReadEeprom, Records, f) == Num(records)
    ensures Get(ReadEeprom, SourceId, f) == Num(source)
    ensures Get(ReadEeprom, UserId, f) == Num(user)
  {
    FirstConstOnly(ReadEeprom, f);
    AddressField(f);
    RecordsField(f);
    ReadSourceField(f);
    ReadUserField(f);
  }

  /** Where the ReadEEPROM layout reads each of its fields. */
  lemma AddressField(f: seq<byte>)
    requires |f| >= 36
    ensures Get(ReadEeprom, Address, f) == Num(f[2] as int * 256 + f[3])
  {
    assert ValueAt(Field(Address, 2, UInt16BE), f) == Num(f[2] as int * 256 + f[3]);
    assert ReadEeprom.fields[2] == Field(Address, 2, UInt16BE);
    GetAt(ReadEeprom, Address, f, 2);
  }

  lemma RecordsField(f: seq<byte>)
    requires |f| >= 36
    ensures Get(ReadEeprom, Records, f) == Num(f[4])
  {
    assert ValueAt(Field(Records, 4, UInt8), f) == Num(f[4]);
    assert ReadEeprom.fields[3] == Field(Records, 4, UInt8);
    GetAt(ReadEeprom, Records, f, 3);
  }

  lemma ReadSourceField(f: seq<byte>)
    requires |f| >= 36
    ensures Get(ReadEeprom, SourceId, f) == Num(f[33])
  {
    assert ValueAt(Field(SourceId, 33, UInt8), f) == Num(f[33]);
    assert ReadEeprom.fields[5] == Field(SourceId, 33, UInt8);
    GetAt(ReadEeprom, SourceId, f, 5);
  }

  lemma ReadUserField(f: seq<byte>)
    requires |f| >= 36
    ensures Get(ReadEeprom, UserId, f) == Num(f[34])
  {
    assert ValueAt(Field(UserId, 34, UInt8), f) == Num(f[34]);
    assert ReadEeprom.fields[6] == Field(UserId, 34, UInt8);
    GetAt(ReadEeprom, UserId, f, 6);
  }

  /** The MGSP frame passes the login layout's checks exactly when the user id is the 0 its Const demands. */
  lemma InitializeFrameAccepted(product: int, firmware: (int, int, int), panelId: int,
                                password: seq<byte>, source: int, user: int, f: seq<byte>)
    requires InitializeFrame(product, firmware, panelId, password, source, user) == Ok(f) && |password| == 2
    ensures Accepts(InitializeCommunicationMgsp, f) <==> user == 0
  {
    LoginAcceptance(f);
  }

  /** The login layout reads back the product id and the three firmware numbers the frame was built from. */
  lemma InitializeFrameFirmware(product: int, firmware: (int, int, int), panelId: int,
                                password: seq<byte>, source: int, user: int, f: seq<byte>)
    requires InitializeFrame(product, firmware, panelId, password, source, user) == Ok(f) && |password| == 2
    ensures Get(InitializeCommunicationMgsp, ProductId, f) == Num(product)
    ensures Get(InitializeCommunicationMgsp, Version, f) == Num(firmware.0)
    ensures Get(InitializeCommunicationMgsp, Revision, f) == Num(firmware.1)
    ensures Get(InitializeCommunicationMgsp, Minor, f) == Num(firmware.2)
  {
    LoginProductField(f);
    LoginVersionField(f);
    LoginRevisionField(f);
    LoginMinorField(f);
  }

  /** The login layout reads back the panel id modulo 2^16, the two-byte password and the source id. */
  lemma InitializeFrameIdentity(product: int, firmware: (int, int, int), panelId: int,
                                password: seq<byte>, source: int, user: int, f: seq<byte>)
    requires InitializeFrame(product, firmware, panelId, password, source, user) == Ok(f) && |password| == 2
    ensures Get(InitializeCommunicationMgsp, PanelId, f) == Num(panelId % 65536)
    ensures Get(InitializeCommunicationMgsp, PcPassword, f) == Blob(password)
    ensures Get(InitializeCommunicationMgsp, SourceId, f) == Num(source)
  {
    SplitAddress(panelId);
    LoginPanelField(f);
    assert f[7..9] == password;
    LoginPasswordField(f);
    LoginSourceField(f);
  }

  /** Where the MGSP login layout reads the product and firmware. */
  lemma LoginProductField(f: seq<byte>)
    requires |f| >= 34
    ensures Get(InitializeCommunicationMgsp, ProductId, f) == Num(f[1])
  {
    assert ValueAt(Field(ProductId, 1, UInt8), f) == Num(f[1]);
    assert InitializeCommunicationMgsp.fields[1] == Field(ProductId, 1, UInt8);
    GetAt(InitializeCommunicationMgsp, ProductId, f, 1);
  }

  lemma LoginVersionField(f: seq<byte>)
    requires |f| >= 34
    ensures Get(InitializeCommunicationMgsp, Version, f) == Num(f[2])
  {
    assert ValueAt(Field(Version, 2, UInt8), f) == Num(f[2]);
    assert InitializeCommunicationMgsp.fields[2] == Field(Version, 2, UInt8);
    GetAt(InitializeCommunicationMgsp, Version, f, 2);
  }

  lemma LoginRevisionField(f: seq<byte>)
    requires |f| >= 34
    ensures Get(InitializeCommunicationMgsp, Revision, f) == Num(f[3])
  {
    assert ValueAt(Field(Revision, 3, UInt8), f) == Num(f[3]);
    assert InitializeCommunicationMgsp.fields[3] == Field(Revision, 3, UInt8);
    GetAt(InitializeCommunicationMgsp, Revision, f, 3);
  }

  lemma LoginMinorField(f: seq<byte>)
    requires |f| >= 34
    ensures Get(InitializeCommunicationMgsp, Minor, f) == Num(f[4])
  {
    assert ValueAt(Field(Minor, 4, UInt8), f) == Num(f[4]);
    assert InitializeCommunicationMgsp.fields[4] == Field(Minor, 4, UInt8);
    GetAt(InitializeCommunicationMgsp, Minor, f, 4);
  }

  /** Where the MGSP login layout reads the panel id, the password and the source id. */
  lemma LoginPanelField(f: seq<byte>)
    requires |f| >= 34
    ensures Get(InitializeCommunicationMgsp, PanelId, f) == Num(f[5] as int * 256 + f[6])
  {
    assert ValueAt(Field(PanelId, 5, UInt16BE), f) == Num(f[5] as int * 256 + f[6]);
    assert InitializeCommunicationMgsp.fields[5] == Field(PanelId, 5, UInt16BE);
    GetAt(InitializeCommunicationMgsp, PanelId, f, 5);
  }

  lemma LoginPasswordField(f: seq<byte>)
    requires |f| >= 34
    ensures Get(InitializeCommunicationMgsp, PcPassword, f) == Blob(f[7..9])
  {
    assert ValueAt(Field(PcPassword, 7, Bytes(2)), f) == Blob(f[7..9]);
    assert InitializeCommunicationMgsp.fields[6] == Field(PcPassword, 7, Bytes(2));
    GetAt(InitializeCommunicationMgsp, PcPassword, f, 6);
  }

  lemma LoginSourceField(f: seq<byte>)
    requires |f| >= 34
    ensures Get(InitializeCommunicationMgsp, SourceId, f) == Num(f[12])
  {
    assert ValueAt(Field(SourceId, 12, UInt8), f) == Num(f[12]);
    assert InitializeCommunicationMgsp.fields[8] == Field(SourceId, 12, UInt8);
    GetAt(InitializeCommunicationMgsp, SourceId, f, 8);
  }

  /** When each panel-to-PC layout parses: the identity response checks its two Const bytes, the others only the length. */
  lemma ResponseAcceptance(data: seq<byte>)
    ensures Accepts(InitiateCommunicationResponse, data) <==> |data| >= 37 && data[0] == 0x72 && data[1] == 0xFF
    ensures Accepts(InitializeCommunicationResponseMgsp, data) <==> |data| >= 36
    ensures Accepts(PerformActionResponse, data) <==> |data| >= 36
    ensures Accepts(ReadEepromResponse, data) <==> |data| >= 33
    ensures Accepts(LiveEvent, data) <==> |data| >= 35
  {
    IdentityAcceptance(data);
    LengthAcceptance(InitializeCommunicationResponseMgsp, data);
    LengthAcceptance(PerformActionResponse, data);
    LengthAcceptance(ReadEepromResponse, data);
    LengthAcceptance(LiveEvent, data);
  }

  /** The identity response parses when it is long enough and opens with 0x72, 0xFF. */
  lemma IdentityAcceptance(data: seq<byte>)
    ensures Accepts(InitiateCommunicationResponse, data) <==> |data| >= 37 && data[0] == 0x72 && data[1] == 0xFF
  {
    var fs := InitiateCommunicationResponse.fields;
    assert forall j | 2 <= j < |fs| :: !fs[j].kind.Const?;
    ConstFree(fs, 2, data);
  }

  /** A layout without Const fields parses whenever the input covers it. */
  lemma LengthAcceptance(layout: Layout, data: seq<byte>)
    requires forall j | 0 <= j < |layout.fields| :: !layout.fields[j].kind.Const?
    ensures Accepts(layout, data) <==> |data| >= layout.size
  {
    ConstFree(layout.fields, 0, data);
  }

  /** A layout whose only Const is its first field checks the length and that one byte. */
  lemma FirstConstOnly(layout: Layout, data: seq<byte>)
    requires |layout.fields| > 0 && layout.fields[0].kind.Const?
    requires forall j | 1 <= j < |layout.fields| :: !layout.fields[j].kind.Const?
    ensures Accepts(layout, data) <==> |data| >= layout.size && layout.fields[0].offset < |data|
                                       && data[layout.fields[0].offset] == layout.fields[0].kind.expected
  {
    ConstFree(layout.fields, 1, data);
  }

  /** The MGSP login layout checks the length, the command 0x00 and the user id 0x00. */
  lemma LoginAcceptance(data: seq<byte>)
    ensures Accepts(InitializeCommunicationMgsp, data) <==> |data| >= 34 && data[0] == 0x00 && data[13] == 0x00
  {
    var fs := InitializeCommunicationMgsp.fields;
    assert forall j | 10 <= j < |fs| :: !fs[j].kind.Const?;
    ConstFree(fs, 10, data);
    assert fs[9] == Field(UserId, 13, Const(0x00));
    assert ConstsMatch(fs, 9, data) <==> 13 < |data| && data[13] == 0x00;
    assert forall j | 1 <= j < 9 :: !fs[j].kind.Const?;
    ConstsSkip(fs, 1, 9, data);
  }

  /** Fields without a Const between `k` and `m` impose nothing on the bytes. */
  lemma {:induction false} ConstsSkip(fields: seq<Field>, k: nat, m: nat, data: seq<byte>)
    requires k <= m <= |fields| && forall j | k <= j < m :: !fields[j].kind.Const?
    ensures ConstsMatch(fields, k, data) <==> ConstsMatch(fields, m, data)
    decreases m - k
  {
    if k < m {
      ConstsSkip(fields, k + 1, m, data);
    }
  }

  /** Fields without a Const impose nothing on the bytes. */
  lemma {:induction false} ConstFree(fields: seq<Field>, k: nat, data: seq<byte>)
    requires k <= |fields| && forall j | k <= j < |fields| :: !fields[j].kind.Const?
    ensures ConstsMatch(fields, k, data)
    decreases |fields| - k
  {
    if k < |fields| {
      ConstFree(fields, k + 1, data);
    }
  }
}
