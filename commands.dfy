/**
 * Helpers around the codec: checksum validation of received frames, the
 * classification of action and memory-read responses, the reverse lookup of
 * action names, the hex dump used for diagnostics, and the `send_*` wrappers
 * that build a frame and write it to a connection.
 */
module Commands {
  import opened Wrappers
  import opened Text
  import opened Protocol
  import opened Connection

  // ---------------------------------------------------------------------------
  // Checksum validation
  // ---------------------------------------------------------------------------

  /** `validate_checksum`: the last byte is the checksum of all the bytes before it. */
  function ValidateChecksum(data: seq<byte>): (ok: bool)
    ensures |data| < 2 ==> !ok
    ensures |data| >= 2 ==> (ok <==> data[|data| - 1] == Sum(data[..|data| - 1]) % 256)
  {
    |data| >= 2 && data[|data| - 1] == Checksum(data[..|data| - 1])
  }

  /** Every 37-byte frame the builders produce passes validation. */
  lemma BuiltFramesValidate(user: int, action: int, argument: int, address: int, records: int, source: int)
    ensures InitiateFrame(user).Ok? ==> ValidateChecksum(InitiateFrame(user).value)
    ensures PerformActionFrame(action, argument, source, user).Ok? ==>
              ValidateChecksum(PerformActionFrame(action, argument, source, user).value)
    ensures ReadEepromFrame(address, records, source, user).Ok? ==>
              ValidateChecksum(ReadEepromFrame(address, records, source, user).value)
  {
  }

  /** The MGSP login frame passes validation when its password has the two bytes the protocol expects. */
  lemma LoginFrameValidates(product: int, firmware: (int, int, int), panelId: int,
                            password: seq<byte>, source: int, user: int)
    requires InitializeFrame(product, firmware, panelId, password, source, user).Ok? && |password| == 2
    ensures ValidateChecksum(InitializeFrame(product, firmware, panelId, password, source, user).value)
  {
  }

  /** Corrupting any one byte of a frame that validates makes it fail validation. */
  lemma ValidationDetectsOneByteChange(data: seq<byte>, i: nat, v: byte)
    requires ValidateChecksum(data) && i < |data| && v != data[i]
    ensures !ValidateChecksum(data[i := v])
  {
    var n := |data| - 1;
    if i < n {
      assert data[i := v][..n] == data[..n][i := v];
      ChecksumDetectsOneByteChange(data[..n], i, v);
    } else {
      assert data[i := v][..n] == data[..n];
    }
  }

  // ---------------------------------------------------------------------------
  // Response classification
  // ---------------------------------------------------------------------------

  /** The `result` of an action response. */
  datatype Outcome = Success | Fail | InvalidArgument | UserCodeRequired | Unknown

  /** The strings the client reports for each outcome. */
  function OutcomeName(o: Outcome): string {
    match o
    case Success => "success"
    case Fail => "fail"
    case InvalidArgument => "invalid_argument"
    case UserCodeRequired => "user_code_required"
    case Unknown => "unknown"
  }

  /** What `parse_perform_action_response` returns. */
  datatype ActionReply = ActionReply(command: byte, result: Outcome, success: bool)

  /** The `result_codes` table: 0x40-0x43 in order, anything else unknown. */
  function Classify(command: byte): (o: Outcome)
    ensures 0x40 <= command <= 0x43 ==> o == [Success, Fail, InvalidArgument, UserCodeRequired][command - 0x40]
    ensures !(0x40 <= command <= 0x43) ==> o == Unknown
  {
    if command == 0x40 then Success
    else if command == 0x41 then Fail
    else if command == 0x42 then InvalidArgument
    else if command == 0x43 then UserCodeRequired
    else Unknown
  }

  /** `parse_perform_action_response`. */
  function ParsePerformActionResponse(data: seq<byte>): (r: Option<ActionReply>)
    ensures r.None? <==> |data| < 2
    ensures r.Some? ==> r.value.command == data[0]
    ensures r.Some? ==> (r.value.success <==> data[0] == 0x40)
  {
    if |data| < 2 then None
    else Some(ActionReply(data[0], Classify(data[0]), data[0] == 0x40))
  }

  /** The classification is exactly the table, with `success` agreeing with it. */
  lemma ActionReplyClassification(data: seq<byte>)
    requires |data| >= 2
    ensures var r := ParsePerformActionResponse(data).value;
      (r.result == Success <==> data[0] == 0x40)
      && (r.result == Fail <==> data[0] == 0x41)
      && (r.result == InvalidArgument <==> data[0] == 0x42)
      && (r.result == UserCodeRequired <==> data[0] == 0x43)
      && (r.result == Unknown <==> !(0x40 <= data[0] <= 0x43))
      && (r.success <==> r.result == Success)
  {
  }

  /** What `parse_read_eeprom_response` returns. */
  datatype EepromReply = EepromReply(command: byte, address: nat, records: byte, data: seq<byte>)

  /** `parse_read_eeprom_response`: the ReadEEPROMResponse fields, or None when the parse fails. */
  function ParseReadEepromResponse(data: seq<byte>): (r: Option<EepromReply>)
    ensures r.Some? <==> |data| >= 33
  {
    ResponseAcceptance(data);
    if !Accepts(ReadEepromResponse, data) then None
    else
      ReplyCommandField(data);
      ReplyRecordsField(data);
      Some(EepromReply(NumOf(Get(ReadEepromResponse, Command, data)),
                       NumOf(Get(ReadEepromResponse, Address, data)),
                       NumOf(Get(ReadEepromResponse, Records, data)),
                       BlobOf(Get(ReadEepromResponse, Data, data))))
  }

  /** The reply is the 33-byte layout read at its offsets: address big-endian at 2-3, records at 4, 27 bytes from 5. */
  lemma EepromReplyFields(data: seq<byte>)
    ensures ParseReadEepromResponse(data).Some? <==> |data| >= 33
    ensures |data| >= 33 ==>
              ParseReadEepromResponse(data).value == EepromReply(data[0], data[2] as int * 256 + data[3], data[4], data[5..32])
  {
    LengthAcceptance(ReadEepromResponse, data);
    if |data| >= 33 {
      EepromReplyDecoded(data);
    }
  }

  lemma EepromReplyDecoded(data: seq<byte>)
    requires |data| >= 33
    ensures ParseReadEepromResponse(data).Some?
    ensures ParseReadEepromResponse(data).value.command == data[0]
    ensures ParseReadEepromResponse(data).value.address == data[2] as int * 256 + data[3]
    ensures ParseReadEepromResponse(data).value.records == data[4]
    ensures ParseReadEepromResponse(data).value.data == data[5..32]
  {
    LengthAcceptance(ReadEepromResponse, data);
    ReplyCommandField(data);
    ReplyAddressField(data);
    ReplyRecordsField(data);
    ReplyDataField(data);
  }

  /** A ReadEEPROM request read back at the response's offsets gives its address (mod 2^16) and record count. */
  lemma ReadRequestDecodesAsResponse(address: int, records: int, source: int, user: int, f: seq<byte>)
    requires ReadEepromFrame(address, records, source, user) == Ok(f)
    ensures ParseReadEepromResponse(f) == Some(EepromReply(0x50, address % 65536, records, Zeroed(27)))
  {
    assert f[5..32] == Zeroed(27) by {
      assert |f| == 37 && forall i | 5 <= i < 33 :: f[i] == 0;
    }
    EepromReplyDecoded(f);
  }

  // ---------------------------------------------------------------------------
  // Action names
  // ---------------------------------------------------------------------------

  /** The tables `get_action_name` searches, in its order. */
  const ActionTables: seq<seq<(string, byte)>> := [PartitionActions, ZoneActions, PgmActions]

  /** No entry of `entries` has the code. */
  predicate Unmatched(entries: seq<(string, byte)>, code: int) {
    forall k | 0 <= k < |entries| :: entries[k].1 != code
  }

  /** The name of the first entry with the code. */
  function FirstName(entries: seq<(string, byte)>, code: int): (r: Option<string>)
    ensures r.None? <==> Unmatched(entries, code)
    ensures r.Some? ==> exists k | 0 <= k < |entries| :: entries[k] == (r.value, code)
  {
    if entries == [] then None
    else if entries[0].1 == code then Some(entries[0].0)
    else FirstName(entries[1..], code)
  }

  /** The name of the first entry with the code, searching the tables in turn. */
  function FirstNameIn(tables: seq<seq<(string, byte)>>, code: int): Option<string> {
    if tables == [] then None
    else if FirstName(tables[0], code).Some? then FirstName(tables[0], code)
    else FirstNameIn(tables[1..], code)
  }

  /** The name `get_action_name` gives a code. */
  function ActionName(code: int): (name: string)
    ensures FirstNameIn(ActionTables, code).Some? ==> name == FirstNameIn(ActionTables, code).value
    ensures FirstNameIn(ActionTables, code).None? ==> |name| >= 12 && name[..10] == "unknown_0x"
  {
    match FirstNameIn(ActionTables, code)
    case Some(name) => name
    case None => "unknown_0x" + SignedHex(code, 2)
  }

  /** Past a prefix without the code, the first match is the first match of the rest. */
  lemma {:induction false} FirstNameAfter(entries: seq<(string, byte)>, i: nat, code: int)
    requires i < |entries| && Unmatched(entries[..i], code) && entries[i].1 == code
    ensures FirstName(entries, code) == Some(entries[i].0)
  {
    if i > 0 {
      assert entries[1..][..i - 1] == entries[1..i];
      FirstNameAfter(entries[1..], i - 1, code);
    }
  }

  /** `get_action_name`: a nested search with early return over the three tables. */
  method GetActionName(code: int) returns (name: string)
    ensures name == ActionName(code)
  {
    var found := SearchTables(ActionTables, code);
    if found.Some? {
      return found.value;
    }
    return "unknown_0x" + SignedHex(code, 2);
  }

  /** The two loops of `get_action_name`: tables in turn, entries in order, the first match returned. */
  method SearchTables(tables: seq<seq<(string, byte)>>, code: int) returns (r: Option<string>)
    ensures r == FirstNameIn(tables, code)
  {
    var t := 0;
    while t < |tables|
      invariant 0 <= t <= |tables|
      invariant FirstNameIn(tables, code) == FirstNameIn(tables[t..], code)
    {
      var entries := tables[t];
      var i := 0;
      while i < |entries|
        invariant 0 <= i <= |entries|
        invariant Unmatched(entries[..i], code)
      {
        if entries[i].1 == code {
          FirstNameAfter(entries, i, code);
          return Some(entries[i].0);
        }
        i := i + 1;
      }
      assert entries[..i] == entries;
      assert tables[t..][1..] == tables[t + 1..];
      t := t + 1;
    }
    return None;
  }

  /** The search ends in the first table that has the code, or finds nothing when none has it. */
  lemma {:induction false} FirstNameInAt(tables: seq<seq<(string, byte)>>, t: nat, code: int)
    requires t <= |tables| && forall u | 0 <= u < t :: Unmatched(tables[u], code)
    ensures t < |tables| && !Unmatched(tables[t], code) ==> FirstNameIn(tables, code) == FirstName(tables[t], code)
    ensures t == |tables| ==> FirstNameIn(tables, code) == None
  {
    if t > 0 {
      FirstNameInAt(tables[1..], t - 1, code);
    }
  }

  /** The toggling zone code 0x10 is listed twice and reads as its first name, "bypass". */
  lemma BypassActionName()
    ensures ActionName(0x10) == "bypass"
  {
    CodesUnmatched(PartitionActions, 0x10);
    assert 0x10 !in Codes(PartitionActions) by {
      ActionTablesDisjoint();
    }
    FirstNameInAt(ActionTables, 1, 0x10);
    FirstNameAfter(ZoneActions, 0, 0x10);
  }

  /** A partition code reads as its partition action, for instance 0x05 as "disarm". */
  lemma DisarmActionName()
    ensures ActionName(0x05) == "disarm"
  {
    FirstNameInAt(ActionTables, 0, 0x05);
    FirstNameAfter(PartitionActions, 3, 0x05);
  }

  /** A byte no table lists is named by its two upper-case hex digits. */
  lemma UnlistedActionName(code: byte)
    requires code !in Codes(PartitionActions) + Codes(ZoneActions) + Codes(PgmActions)
    ensures ActionName(code) == "unknown_0x" + [Digit(code / 16), Digit(code % 16)]
  {
    ActionNameLooksBack(code);
    HexByte(code);
  }

  /**
   * The reverse lookup is consistent with the forward one: a code of a table gets a name
   * that table maps back to the code (the tables have disjoint codes), and a code no
   * table lists is reported as unknown.
   */
  lemma ActionNameLooksBack(code: int)
    ensures code in Codes(PartitionActions) ==> Lookup(PartitionActions, ActionName(code)) == Some(code as byte)
    ensures code in Codes(ZoneActions) ==> Lookup(ZoneActions, ActionName(code)) == Some(code as byte)
    ensures code in Codes(PgmActions) ==> Lookup(PgmActions, ActionName(code)) == Some(code as byte)
    ensures code !in Codes(PartitionActions) + Codes(ZoneActions) + Codes(PgmActions) ==>
              ActionName(code) == "unknown_0x" + SignedHex(code, 2)
  {
    ActionTablesDisjoint();
    if code in Codes(PartitionActions) {
      NameFromTable(code, 0);
    } else if code in Codes(ZoneActions) {
      NameFromTable(code, 1);
    } else if code in Codes(PgmActions) {
      NameFromTable(code, 2);
    } else {
      CodesUnmatched(PartitionActions, code);
      CodesUnmatched(ZoneActions, code);
      CodesUnmatched(PgmActions, code);
      FirstNameInAt(ActionTables, 3, code);
    }
  }

  /** A code first listed in table `t` gets a name that table maps back to the code. */
  lemma NameFromTable(code: int, t: nat)
    requires t < |ActionTables| && code in Codes(ActionTables[t])
    requires forall u | 0 <= u < t :: code !in Codes(ActionTables[u])
    ensures Lookup(ActionTables[t], ActionName(code)) == Some(code as byte)
  {
    forall u | 0 <= u < t
      ensures Unmatched(ActionTables[u], code)
    {
      CodesUnmatched(ActionTables[u], code);
    }
    CodesUnmatched(ActionTables[t], code);
    FirstNameInAt(ActionTables, t, code);
    DistinctNames(t);
    FirstNameLookup(ActionTables[t], code);
  }

  /** No table lists a name twice. */
  lemma DistinctNames(t: nat)
    requires t < |ActionTables|
    ensures forall j, k | 0 <= j < k < |ActionTables[t]| :: ActionTables[t][j].0 != ActionTables[t][k].0
  {
  }

  lemma CodesUnmatched(table: seq<(string, byte)>, code: int)
    ensures Unmatched(table, code) <==> code !in Codes(table)
  {
    if !Unmatched(table, code) {
      var k :| 0 <= k < |table| && table[k].1 == code;
      assert table[k].1 in Codes(table);
    }
  }

  /** The first entry with a code is the first entry with its name, when no name is listed twice. */
  lemma {:induction false} FirstNameLookup(entries: seq<(string, byte)>, code: int)
    requires FirstName(entries, code).Some?
    requires forall j, k | 0 <= j < k < |entries| :: entries[j].0 != entries[k].0
    ensures Lookup(entries, FirstName(entries, code).value) == Some(code as byte)
  {
    if entries[0].1 != code {
      FirstNameLookup(entries[1..], code);
      var name := FirstName(entries, code).value;
      var k :| 0 <= k < |entries[1..]| && entries[1..][k] == (name, code);
      assert entries[0].0 != entries[k + 1].0;
    }
  }

  // ---------------------------------------------------------------------------
  // Hex dump
  // ---------------------------------------------------------------------------

  /** `f"{b:02X}"`: the two upper-case hex digits of a byte. */
  function HexPair(b: byte): string {
    [Digit(b / 16), Digit(b % 16)]
  }

  /** The pair is the byte formatted with width 2, and it reads back as the byte. */
  lemma HexPairFormat(b: byte)
    ensures HexPair(b) == Hex(b, 2)
    ensures AllHex(HexPair(b)) && ValueOf(HexPair(b), 16) == b
  {
    HexByte(b);
    HexNumeral(b, 2);
  }

  /** `' '.join(f"{b:02X}" for b in chunk)`. */
  function HexBytes(chunk: seq<byte>): string {
    if |chunk| == 0 then ""
    else if |chunk| == 1 then HexPair(chunk[0])
    else HexPair(chunk[0]) + " " + HexBytes(chunk[1..])
  }

  /** `s.ljust(width)`. */
  function LeftJustify(s: string, width: int): (t: string)
    ensures |t| == if |s| >= width then |s| else width
    ensures t[..|s|] == s
    ensures forall i | |s| <= i < |t| :: t[i] == ' '
  {
    if |s| >= width then s else s + seq(width - |s|, _ => ' ')
  }

  /** The ASCII column: printable bytes as themselves, every other byte as '.'. */
  function Printable(chunk: seq<byte>): (s: string)
    ensures |s| == |chunk|
    ensures forall j | 0 <= j < |chunk| :: s[j] == if 32 <= chunk[j] < 127 then chunk[j] as char else '.'
  {
    seq(|chunk|, j requires 0 <= j < |chunk| => if 32 <= chunk[j] < 127 then chunk[j] as char else '.')
  }

  /** One line of the dump: offset, hex column, ASCII column. */
  function DumpLine(offset: nat, chunk: seq<byte>, width: int): string {
    Hex(offset, 4) + "  " + LeftJustify(HexBytes(chunk), width * 3) + "  " + Printable(chunk)
  }

  function Min(a: int, b: int): int {
    if a < b then a else b
  }

  /** The `(i, data[i:i + width])` pairs the loop visits, for `i` from `start` in steps of `width`. */
  function Slices(data: seq<byte>, width: nat, start: nat): seq<(nat, seq<byte>)>
    requires width > 0
    decreases |data| - start
  {
    if start >= |data| then []
    else [(start, data[start..Min(start + width, |data|)])] + Slices(data, width, start + width)
  }

  /** One line per slice. */
  function Render(slices: seq<(nat, seq<byte>)>, width: int): (lines: seq<string>)
    ensures |lines| == |slices|
  {
    seq(|slices|, k requires 0 <= k < |slices| => DumpLine(slices[k].0, slices[k].1, width))
  }

  /** The lines `format_hex_dump` joins. */
  function DumpLines(data: seq<byte>, width: nat): seq<string>
    requires width > 0
  {
    Render(Slices(data, width, 0), width)
  }

  /** `'\n'.join(lines)`. */
  function Join(lines: seq<string>): string {
    if |lines| == 0 then ""
    else if |lines| == 1 then lines[0]
    else lines[0] + "\n" + Join(lines[1..])
  }

  /** `format_hex_dump(data, bytes_per_line)`; a zero step is the ValueError of `range`, a negative one visits nothing. */
  function HexDump(data: seq<byte>, width: int): (r: Result<string>)
    ensures r.Err? <==> width == 0
    ensures width < 0 || (width > 0 && data == []) ==> r == Ok("")
  {
    if width == 0 then Err(ZeroStep)
    else if width < 0 then Ok("")
    else Ok(Join(DumpLines(data, width)))
  }

  method FormatHexDump(data: seq<byte>, width: int) returns (r: Result<string>)
    ensures r == HexDump(data, width)
  {
    if width == 0 {
      return Err(ZeroStep);
    }
    var lines: seq<string> := [];
    ghost var visited: seq<(nat, seq<byte>)> := [];
    var i := 0;
    while i < |data| && width > 0
      invariant 0 <= i
      invariant width > 0 ==> visited + Slices(data, width, i) == Slices(data, width, 0)
      invariant width < 0 ==> visited == []
      invariant lines == Render(visited, width)
      decreases |data| - i
    {
      var chunk := data[i..Min(i + width, |data|)];
      var line := Hex(i, 4) + "  " + LeftJustify(HexBytes(chunk), width * 3) + "  " + Printable(chunk);
      SlicesStep(data, width, i);
      assert (visited + [(i, chunk)]) + Slices(data, width, i + width) == visited + Slices(data, width, i);
      RenderAppend(visited, (i, chunk), width);
      visited := visited + [(i, chunk)];
      lines := lines + [line];
      i := i + width;
    }
    if width > 0 {
      assert Slices(data, width, i) == [];
      assert visited + [] == visited;
    }
    return Ok(Join(lines));
  }

  /** The first slice from `start`, then the slices from the next step on. */
  lemma SlicesStep(data: seq<byte>, width: nat, start: nat)
    requires width > 0 && start < |data|
    ensures Slices(data, width, start)
         == [(start, data[start..Min(start + width, |data|)])] + Slices(data, width, start + width)
  {
  }

  lemma RenderAppend(slices: seq<(nat, seq<byte>)>, slice: (nat, seq<byte>), width: int)
    ensures Render(slices + [slice], width) == Render(slices, width) + [DumpLine(slice.0, slice.1, width)]
  {
  }

  /** The hex column of a chunk has three characters per byte, less the missing final separator. */
  lemma {:induction false} HexBytesLength(chunk: seq<byte>)
    requires |chunk| > 0
    ensures |HexBytes(chunk)| == 3 * |chunk| - 1
  {
    if |chunk| > 1 {
      HexBytesLength(chunk[1..]);
    }
  }

  /** Slot `j` of the hex column holds the two digits of byte `j`, then a space unless it is the last. */
  lemma {:induction false} HexBytesAt(chunk: seq<byte>, j: nat)
    requires j < |chunk|
    ensures |HexBytes(chunk)| == 3 * |chunk| - 1 && HexBytes(chunk)[3 * j..3 * j + 2] == HexPair(chunk[j])
    ensures j < |chunk| - 1 ==> HexBytes(chunk)[3 * j + 2] == ' '
    decreases j
  {
    HexBytesLength(chunk);
    var s := HexBytes(chunk);
    if |chunk| == 1 {
      assert s == HexPair(chunk[0]);
      assert s[0..2] == s;
    } else {
      var p, rest := HexPair(chunk[0]), HexBytes(chunk[1..]);
      HexBytesLength(chunk[1..]);
      assert s == p + " " + rest;
      if j == 0 {
        assert s[0..2] == p;
      } else {
        HexBytesAt(chunk[1..], j - 1);
        assert chunk[1..][j - 1] == chunk[j];
        SlotShift(p, rest, j - 1);
      }
    }
  }

  /** Behind a two-character pair and a space, slot `k` of `rest` becomes slot `k + 1`. */
  lemma SlotShift(p: string, rest: string, k: nat)
    requires |p| == 2 && 3 * k + 2 <= |rest|
    ensures (p + " " + rest)[3 * (k + 1)..3 * (k + 1) + 2] == rest[3 * k..3 * k + 2]
    ensures 3 * k + 2 < |rest| ==> (p + " " + rest)[3 * (k + 1) + 2] == rest[3 * k + 2]
  {
  }

  /** Each line's hex column is exactly three characters per slot, and it reads back as the chunk. */
  lemma DumpLineShape(chunk: seq<byte>, width: nat)
    requires 0 < |chunk| <= width
    ensures |LeftJustify(HexBytes(chunk), width * 3)| == width * 3
    ensures forall j | 0 <= j < |chunk| ::
      && LeftJustify(HexBytes(chunk), width * 3)[3 * j..3 * j + 2] == Hex(chunk[j], 2)
      && AllHex(Hex(chunk[j], 2)) && ValueOf(Hex(chunk[j], 2), 16) == chunk[j]
  {
    HexBytesLength(chunk);
    var h := HexBytes(chunk);
    assert |h| < width * 3;
    forall j | 0 <= j < |chunk|
      ensures LeftJustify(h, width * 3)[3 * j..3 * j + 2] == Hex(chunk[j], 2)
      ensures AllHex(Hex(chunk[j], 2)) && ValueOf(Hex(chunk[j], 2), 16) == chunk[j]
    {
      HexBytesAt(chunk, j);
      HexPairFormat(chunk[j]);
      assert LeftJustify(h, width * 3)[3 * j..3 * j + 2] == h[3 * j..3 * j + 2];
    }
  }

  /** Slice `k` starts at offset `at == start + k * width` and holds the bytes from there to the next step. */
  lemma {:induction false} SlicesAt(data: seq<byte>, width: nat, start: nat, k: nat, at: nat)
    requires width > 0 && at == start + k * width && at < |data|
    ensures k < |Slices(data, width, start)|
    ensures Slices(data, width, start)[k] == (at, data[at..Min(at + width, |data|)])
    decreases k
  {
    if k > 0 {
      var next := start + width;
      assert at == next + (k - 1) * width;
      SlicesAt(data, width, next, k - 1, at);
    }
  }

  /** Below 0x10000 the offset column is exactly four hex digits that read back as the offset, then two spaces. */
  lemma DumpLineOffset(offset: nat, chunk: seq<byte>, width: int)
    requires offset < 0x10000
    ensures |Hex(offset, 4)| == 4 && ValueOf(Hex(offset, 4), 16) == offset
    ensures DumpLine(offset, chunk, width)[..4] == Hex(offset, 4)
    ensures DumpLine(offset, chunk, width)[4..6] == "  "
  {
    assert Power(16, 4) == 0x10000;
    HexWidth(offset, 4);
    HexNumeral(offset, 4);
  }

  /** Line `k` of the dump shows the bytes from offset `at == k * width`, at that offset. */
  lemma DumpLinesAt(data: seq<byte>, width: nat, k: nat, at: nat)
    requires width > 0 && at == k * width && at < |data|
    ensures k < |DumpLines(data, width)|
    ensures DumpLines(data, width)[k] == DumpLine(at, data[at..Min(at + width, |data|)], width)
  {
    SlicesAt(data, width, 0, k, at);
  }

  /** There is one slice for every `width` bytes, the last one possibly short. */
  lemma {:induction false} SliceCount(data: seq<byte>, width: nat, start: nat)
    requires width > 0 && start <= |data|
    ensures |Slices(data, width, start)| == (|data| - start + width - 1) / width
    decreases |data| - start
  {
    var n := |data| - start;
    if n > 0 {
      var rest := Slices(data, width, start + width);
      assert |Slices(data, width, start)| == 1 + |rest|;
      if n >= width {
        SliceCount(data, width, start + width);
        assert |rest| == (n - 1) / width;
        DivStep(n - 1, width);
      } else {
        assert rest == [];
        DivOne(n + width - 1, width);
      }
    } else {
      DivZero(width - 1, width);
    }
  }

  lemma DivZero(n: nat, width: nat)
    requires n < width
    ensures n / width == 0
  {
    DivUnique(n, width, 0, n);
  }

  lemma DivStep(n: nat, width: nat)
    requires width > 0
    ensures (n + width) / width == n / width + 1
  {
    DivUnique(n + width, width, n / width + 1, n % width);
  }

  lemma DivOne(n: nat, width: nat)
    requires 0 < width <= n < 2 * width
    ensures n / width == 1
  {
    DivUnique(n, width, 1, n - width);
  }

  /** Division by a positive number has one quotient and remainder. */
  lemma DivUnique(a: int, width: int, q: int, r: int)
    requires width > 0 && a == q * width + r && 0 <= r < width
    ensures a / width == q
  {
    var q', r' := a / width, a % width;
    assert (q' - q) * width == r - r';
    if q' > q {
      MulAtLeast(q' - q, width);
    } else if q' < q {
      MulAtLeast(q - q', width);
    }
  }

  lemma {:induction false} MulAtLeast(x: nat, width: nat)
    requires x >= 1
    ensures x * width >= width
  {
    if x > 1 {
      MulAtLeast(x - 1, width);
      assert x * width == (x - 1) * width + width;
    }
  }

  /** No line of the dump holds a newline: the ASCII column replaces control bytes with '.'. */
  lemma DumpLineHasNoNewline(offset: nat, chunk: seq<byte>, width: int)
    ensures '\n' !in DumpLine(offset, chunk, width)
  {
    HexNumeral(offset, 4);
    var h := Hex(offset, 4);
    assert '\n' !in h by {
      forall j | 0 <= j < |h| ensures h[j] != '\n' {
        assert IsUpperDigit(h[j]);
      }
    }
    HexBytesNoNewline(chunk);
    assert '\n' !in Printable(chunk);
    assert '\n' !in LeftJustify(HexBytes(chunk), width * 3);
  }

  lemma {:induction false} HexBytesNoNewline(chunk: seq<byte>)
    ensures '\n' !in HexBytes(chunk)
  {
    if |chunk| > 1 {
      HexBytesNoNewline(chunk[1..]);
    }
  }

  lemma DumpLinesNoNewline(data: seq<byte>, width: nat)
    requires width > 0
    ensures forall k | 0 <= k < |DumpLines(data, width)| :: '\n' !in DumpLines(data, width)[k]
  {
    var slices := Slices(data, width, 0);
    forall k | 0 <= k < |slices|
      ensures '\n' !in DumpLines(data, width)[k]
    {
      DumpLineHasNoNewline(slices[k].0, slices[k].1, width);
    }
  }

  /** Joining n lines without newlines gives exactly n-1 newlines. */
  lemma {:induction false} JoinNewlines(lines: seq<string>)
    requires forall k | 0 <= k < |lines| :: '\n' !in lines[k]
    ensures |lines| > 0 ==> multiset(Join(lines))['\n'] == |lines| - 1 && |Join(lines)| >= |lines[0]|
    ensures |lines| == 0 ==> Join(lines) == ""
  {
    if |lines| == 1 {
      assert multiset(lines[0])['\n'] == 0;
    } else if |lines| > 1 {
      JoinNewlines(lines[1..]);
      assert multiset(lines[0])['\n'] == 0;
      assert multiset(lines[0] + "\n" + Join(lines[1..])) == multiset(lines[0]) + multiset("\n") + multiset(Join(lines[1..]));
    }
  }

  /** The lines of the dump are separated by newlines and hold no other newline; some text shows for any data. */
  lemma DumpNewlines(data: seq<byte>, width: nat)
    requires width > 0
    ensures data == [] <==> Join(DumpLines(data, width)) == ""
    ensures data != [] ==> multiset(Join(DumpLines(data, width)))['\n'] == |DumpLines(data, width)| - 1
  {
    var lines := DumpLines(data, width);
    DumpLinesNoNewline(data, width);
    JoinNewlines(lines);
    if data != [] {
      HexNumeral(0, 4);
      assert |lines[0]| >= 4;
    }
  }

  /**
   * `format_hex_dump` with a positive width: ceil(n / width) lines separated by newlines,
   * and the empty string exactly for empty data.
   */
  lemma HexDumpLines(data: seq<byte>, width: nat)
    requires width > 0
    ensures HexDump(data, width) == Ok(Join(DumpLines(data, width)))
    ensures |DumpLines(data, width)| == (|data| + width - 1) / width
    ensures data == [] <==> HexDump(data, width).value == ""
    ensures data != [] ==> multiset(HexDump(data, width).value)['\n'] == (|data| + width - 1) / width - 1
  {
    SliceCount(data, width, 0);
    DumpNewlines(data, width);
  }

  // ---------------------------------------------------------------------------
  // Sending commands
  // ---------------------------------------------------------------------------

  /** Writing a built frame: a builder error is raised before anything is written. */
  function Transmit(l: Link, frame: Result<seq<byte>>): (res: (Result<seq<byte>>, Link))
    ensures res.0.Ok? <==> frame.Ok? && Connected(l) && !l.faulty
    ensures res.0.Ok? ==> res.0 == frame && res.1 == l.(written := l.written + [frame.value])
    ensures res.0.Err? ==> res.1 == l
  {
    match frame
    case Err(e) => (Err(e), l)
    case Ok(f) =>
      var (w, l') := Send(l, f);
      if w.Err? then (Err(w.error), l') else (Ok(f), l')
  }


  /** `send_initiate_communication`. */
  method SendInitiateCommunication(connection: SerialConnection) returns (r: Result<seq<byte>>)
    modifies connection.serial
    ensures (r, connection.View()) == Transmit(old(connection.View()), InitiateFrame(0x00))
  {
    var cmd := BuildInitiateCommunication(0x00);
    r := WriteBuilt(connection, cmd);
  }

  /** `send_initialize_mgsp`. */
  method SendInitializeMgsp(connection: SerialConnection, password: seq<byte>, product: int,
                            firmware: (int, int, int), panelId: int) returns (r: Result<seq<byte>>)
    modifies connection.serial
    ensures (r, connection.View())
         == Transmit(old(connection.View()), InitializeFrame(product, firmware, panelId, password, 0x01, 0x00))
  {
    var cmd := BuildInitializeCommunicationMgsp(product, firmware, panelId, password, 0x01, 0x00);
    r := WriteBuilt(connection, cmd);
  }

  /** `send_arm_command`: the partition goes into the frame as given. */
  method SendArmCommand(connection: SerialConnection, partition: int, actionCode: int) returns (r: Result<seq<byte>>)
    modifies connection.serial
    ensures (r, connection.View()) == Transmit(old(connection.View()), PerformActionFrame(actionCode, partition, 0x01, 0x00))
  {
    var cmd := BuildPerformAction(actionCode, partition, 0x01, 0x00);
    r := WriteBuilt(connection, cmd);
  }

  /** `send_bypass_command`: the zone goes into the frame as given. */
  method SendBypassCommand(connection: SerialConnection, zone: int) returns (r: Result<seq<byte>>)
    modifies connection.serial
    ensures (r, connection.View()) == Transmit(old(connection.View()), PerformActionFrame(0x10, zone, 0x01, 0x00))
  {
    var code := Lookup(ZoneActions, "bypass");
    assert code == Some(0x10);
    var cmd := BuildPerformAction(code.value, zone, 0x01, 0x00);
    r := WriteBuilt(connection, cmd);
  }

  /** `send_read_eeprom`. */
  method SendReadEeprom(connection: SerialConnection, address: int, records: int) returns (r: Result<seq<byte>>)
    modifies connection.serial
    ensures (r, connection.View()) == Transmit(old(connection.View()), ReadEepromFrame(address, records, 0x01, 0x00))
  {
    var cmd := BuildReadEeprom(address, records, 0x01, 0x00);
    r := WriteBuilt(connection, cmd);
  }

  /** `connection.write(cmd)` followed by `return cmd`. */
  method WriteBuilt(connection: SerialConnection, cmd: Result<seq<byte>>) returns (r: Result<seq<byte>>)
    modifies connection.serial
    ensures (r, connection.View()) == Transmit(old(connection.View()), cmd)
  {
    if cmd.Err? {
      return cmd;
    }
    var w := connection.Write(cmd.value);
    if w.Err? {
      return Err(w.error);
    }
    return cmd;
  }
}
