/**
 * `ParadoxPanel`: the session with an MG/SP panel over a `SerialConnection`. The
 * handshake (identify, then log in with the PC password), the partition and zone
 * commands, EEPROM reads and the live-event monitor.
 *
 * Every method is proved equal to a pure function of the session. The session is
 * the link (see the Connection module), the panel information from the handshake
 * and the authenticated flag. Time is counted in poll intervals: each
 * `time.sleep(0.01)` of a waiting loop is one interval, in which the next chunk the
 * panel sends is received.
 */
module Panel {
  import opened Wrappers
  import opened Text
  import opened Protocol
  import opened Connection

  /** The 5-second response timeout of every command, in 10 ms poll intervals. */
  const ResponsePolls: nat := 500

  /** `list(range(0x40, 0x50))`: the answers to PerformAction. */
  const ActionReplies: set<int> := set c: int | 0x40 <= c < 0x50 :: c

  /** `list(range(0x50, 0x60))`: the answers to ReadEEPROM. */
  const EepromReplies: set<int> := set c: int | 0x50 <= c < 0x60 :: c

  /** What a wait returns: a frame, None on timeout, or the exception of the port. */
  type Reply = Result<Option<seq<byte>>>

  // ---------------------------------------------------------------------------
  // PC password
  // ---------------------------------------------------------------------------

  /**
   * An ASCII character `int()` skips around its digits: tab, line feed, vertical tab,
   * form feed, carriage return and space (not 28..31, which `str.isspace()` also accepts).
   */
  predicate IsSpace(c: char) {
    9 <= c as int <= 13 || c == ' '
  }

  /**
   * `int(s, 16)` for a string of two characters: two digits, or one digit with a
   * leading sign or space or a trailing space. None where `int` raises ValueError.
   */
  function HexHalf(s: string): (r: Option<int>)
    requires |s| == 2
    ensures r.Some? && r.value < 0 ==> s[0] == '-'
    ensures r.Some? ==> -16 < r.value < 256
  {
    if IsHexDigit(s[0]) && IsHexDigit(s[1]) then Some(DigitValue(s[0]) * 16 + DigitValue(s[1]))
    else if (IsSpace(s[0]) || s[0] == '+') && IsHexDigit(s[1]) then Some(DigitValue(s[1]))
    else if s[0] == '-' && IsHexDigit(s[1]) then Some(-(DigitValue(s[1]) as int))
    else if IsHexDigit(s[0]) && IsSpace(s[1]) then Some(DigitValue(s[0]))
    else None
  }

  /**
   * `encode_password(password)`: four characters, two per byte. A length other than 4
   * and a half that is not a byte in hex raise ValueError with different messages.
   */
  function EncodePassword(password: string): (r: Result<seq<byte>>)
    ensures r == Err(PasswordLength) <==> |password| != 4
    ensures r.Err? ==> r.error == PasswordLength || r.error == PasswordNotHex
    ensures r.Ok? ==> |r.value| == 2
    ensures r.Ok? ==> Some(r.value[0] as int) == HexHalf(password[0..2]) && Some(r.value[1] as int) == HexHalf(password[2..4])
    ensures (|password| == 4 && HexHalf(password[0..2]).Some? && HexHalf(password[2..4]).Some?
             && IsByte(HexHalf(password[0..2]).value) && IsByte(HexHalf(password[2..4]).value)) ==> r.Ok?
  {
    if |password| != 4 then Err(PasswordLength)
    else
      var hi, lo := HexHalf(password[0..2]), HexHalf(password[2..4]);
      if hi.None? || lo.None? || !IsByte(hi.value) || !IsByte(lo.value) then Err(PasswordNotHex)
      else Ok([hi.value, lo.value])
  }

  /** `config.get('pc_password', '0000')`: the configured password, the default when there is none. */
  function PasswordSetting(config: map<string, string>): (p: string)
    ensures "pc_password" in config ==> p == config["pc_password"]
    ensures "pc_password" !in config ==> p == "0000"
  {
    if "pc_password" in config then config["pc_password"] else "0000"
  }

  /** Four hex digits, in either case, encode as the two bytes they spell. */
  lemma EncodeHexPassword(password: string)
    requires |password| == 4 && AllHex(password)
    ensures EncodePassword(password) == Ok([DigitValue(password[0]) * 16 + DigitValue(password[1]),
                                            DigitValue(password[2]) * 16 + DigitValue(password[3])])
  {
    assert password[0..2][0] == password[0] && password[0..2][1] == password[1];
    assert password[2..4][0] == password[2] && password[2..4][1] == password[3];
  }

  /** The password written as `02X` twice encodes back to the same two bytes. */
  lemma EncodePasswordInvertsHex(hi: byte, lo: byte)
    ensures EncodePassword(Hex(hi, 2) + Hex(lo, 2)) == Ok([hi, lo])
  {
    HexByte(hi);
    HexByte(lo);
    var p := Hex(hi, 2) + Hex(lo, 2);
    assert p == [Digit(hi / 16), Digit(hi % 16), Digit(lo / 16), Digit(lo % 16)];
    EncodeHexPassword(p);
  }

  /** The examples of the docstring, and the default password. */
  lemma PasswordExamples()
    ensures EncodePassword("abcd") == Ok([0xAB, 0xCD])
    ensures EncodePassword("1234") == Ok([0x12, 0x34])
    ensures EncodePassword(PasswordSetting(map[])) == Ok([0x00, 0x00])
  {
    EncodeHexPassword("abcd");
    EncodeHexPassword("1234");
    EncodeHexPassword("0000");
  }

  /** What `int` lets through or refuses in a half, and the length check. */
  lemma PasswordLeniency()
    ensures EncodePassword(" 1-0") == Ok([0x01, 0x00])
    ensures EncodePassword("-1ab") == Err(PasswordNotHex)
    ensures EncodePassword("12g4") == Err(PasswordNotHex)
    ensures EncodePassword("123") == Err(PasswordLength)
    ensures EncodePassword("\t5ab") == Ok([0x05, 0xAB])
    ensures EncodePassword("\U{1C}5ab") == Err(PasswordNotHex)
  {
    assert " 1-0"[0..2] == " 1" && " 1-0"[2..4] == "-0";
    assert "\t5ab"[0..2] == "\t5" && "\t5ab"[2..4] == "ab";
    assert "\U{1C}5ab"[0..2] == "\U{1C}5";
    assert "-1ab"[0..2] == "-1";
    assert "12g4"[2..4] == "g4";
  }

  // ---------------------------------------------------------------------------
  // The session
  // ---------------------------------------------------------------------------

  /** `panel_info`: what the identity response says about the panel. */
  datatype PanelInfo = PanelInfo(
    productId: nat,
    firmware: (nat, nat, nat),   // version, revision, minor
    firmwareString: string,
    panelId: nat,
    pcPassword: seq<byte>,
    sourceId: nat)

  /** Everything a `ParadoxPanel` holds: its link, `panel_info` (None while it is `{}`) and `_authenticated`. */
  datatype Session = Session(link: Link, info: Option<PanelInfo>, authenticated: bool)

  /** `f"{version}.{revision}.{minor}"`. */
  function FirmwareString(version: nat, revision: nat, minor: nat): (s: string)
    ensures |s| == |Decimal(version)| + |Decimal(revision)| + |Decimal(minor)| + 2
  {
    Decimal(version) + "." + Decimal(revision) + "." + Decimal(minor)
  }

  /** The firmware string is the three numerals joined by two dots, which sit at the numerals' ends. */
  lemma FirmwareStringParts(version: nat, revision: nat, minor: nat)
    ensures var s := FirmwareString(version, revision, minor);
      var i, j := |Decimal(version)|, |Decimal(version)| + 1 + |Decimal(revision)|;
      i < j < |s| && s[i] == '.' && s[j] == '.'
      && s[..i] == Decimal(version) && s[i + 1..j] == Decimal(revision) && s[j + 1..] == Decimal(minor)
  {
    var a, b, c := Decimal(version), Decimal(revision), Decimal(minor);
    var s := FirmwareString(version, revision, minor);
    var i, j := |a|, |a| + 1 + |b|;
    assert s == a + "." + b + "." + c;
    assert s[..i] == a && s[i + 1..j] == b && s[j + 1..] == c;
  }

  /** The firmware string is three decimal numerals that read back as the three numbers, split by the only two dots. */
  lemma FirmwareStringReadsBack(version: nat, revision: nat, minor: nat)
    ensures var s := FirmwareString(version, revision, minor);
      var i, j := |Decimal(version)|, |Decimal(version)| + 1 + |Decimal(revision)|;
      i < j < |s| && s[i] == '.' && s[j] == '.'
      && (forall k | 0 <= k < |s| && k != i && k != j :: '0' <= s[k] <= '9')
      && ValueOf(s[..i], 10) == version && ValueOf(s[i + 1..j], 10) == revision && ValueOf(s[j + 1..], 10) == minor
  {
    FirmwareStringParts(version, revision, minor);
    DecimalNumeral(version);
    DecimalNumeral(revision);
    DecimalNumeral(minor);
    var s := FirmwareString(version, revision, minor);
    var i, j := |Decimal(version)|, |Decimal(version)| + 1 + |Decimal(revision)|;
    forall k | 0 <= k < |s| && k != i && k != j
      ensures '0' <= s[k] <= '9'
    {
      if k < i {
        assert s[k] == s[..i][k];
      } else if k < j {
        assert s[k] == s[i + 1..j][k - i - 1];
      } else {
        assert s[k] == s[j + 1..][k - j - 1];
      }
    }
  }

  /** The `panel_info` dictionary built from an identity response. */
  function InfoOf(d: seq<byte>): (info: PanelInfo)
    requires Accepts(InitiateCommunicationResponse, d)
    ensures info.productId == d[6] && info.firmware == (d[7] as nat, d[8] as nat, d[9] as nat)
    ensures info.panelId == d[10] as int * 256 + d[11] && info.panelId < 65536
    ensures info.pcPassword == d[12..14] && info.sourceId == d[29]
    ensures info.firmwareString == FirmwareString(d[7], d[8], d[9])
  {
    IdentityProduct(d);
    IdentityVersion(d);
    IdentityRevision(d);
    IdentityMinor(d);
    IdentityPanel(d);
    IdentityPassword(d);
    IdentitySource(d);
    var layout := InitiateCommunicationResponse;
    var version, revision, minor := NumOf(Get(layout, Version, d)), NumOf(Get(layout, Revision, d)), NumOf(Get(layout, Minor, d));
    PanelInfo(NumOf(Get(layout, ProductId, d)), (version, revision, minor), FirmwareString(version, revision, minor),
              NumOf(Get(layout, PanelId, d)), BlobOf(Get(layout, PcPassword, d)), NumOf(Get(layout, SourceId, d)))
  }

  // ---------------------------------------------------------------------------
  // Waiting for an answer
  // ---------------------------------------------------------------------------

  /** One interval of `wait_for_response` before its sleep: a frame is read if bytes are waiting, and kept if expected. */
  function Listen(l: Link, expected: set<int>): (res: (Reply, Link))
    ensures res.0.Ok? && res.0.value.Some? ==>
              0 < |res.0.value.value| <= 37 && res.0.value.value[0] as int in expected
    ensures res.0.Err? ==> res.0.error == PortFailure && Connected(l) && l.faulty
    ensures !Connected(l) ==> res == (Ok(None), l)
    ensures res.1 == l.(rx := res.1.rx)
  {
    if Pending(l) == 0 then (Ok(None), l)
    else
      var (r, l') := ReadFrame(l, 37);
      if r.Err? then (Err(r.error), l')
      else if |r.value| > 0 && r.value[0] as int in expected then (Ok(Some(r.value)), l')
      else (Ok(None), l')
  }

  /**
   * `wait_for_response(expected, timeout)` with `polls` intervals before the timeout:
   * frames that are not expected are dropped, and the first expected one is returned.
   */
  function Wait(l: Link, expected: set<int>, polls: nat): (res: (Reply, Link))
    ensures res.0.Ok? && res.0.value.Some? ==>
              0 < |res.0.value.value| <= 37 && res.0.value.value[0] as int in expected
    decreases polls
  {
    if polls == 0 then (Ok(None), l)
    else
      var (r, l') := Listen(l, expected);
      if r.Err? || r.value.Some? then (r, l') else Wait(Tick(l'), expected, polls - 1)
  }

  /**
   * A wait only reads: what was written, the connection and the timeout stay. It raises
   * only on a faulty connected port and returns None without a connection.
   */
  lemma {:induction false} WaitOnlyReads(l: Link, expected: set<int>, polls: nat)
    ensures var (r, l') := Wait(l, expected, polls);
      l' == l.(rx := l'.rx, arrivals := l'.arrivals)
      && (r.Err? ==> r.error == PortFailure && Connected(l) && l.faulty)
      && (!Connected(l) ==> r == Ok(None))
    decreases polls
  {
    if polls > 0 {
      var (r, l') := Listen(l, expected);
      if !(r.Err? || r.value.Some?) {
        WaitOnlyReads(Tick(l'), expected, polls - 1);
      }
    }
  }

  /** Nothing received and nothing on its way: every interval passes and the wait times out, changing nothing. */
  lemma {:induction false} SilenceTimesOut(l: Link, expected: set<int>, polls: nat)
    requires l.rx == [] && l.arrivals == []
    ensures Wait(l, expected, polls) == (Ok(None), l)
    decreases polls
  {
    if polls > 0 {
      assert Listen(l, expected) == (Ok(None), l);
      assert Tick(l) == l;
      SilenceTimesOut(l, expected, polls - 1);
    }
  }

  /**
   * A whole frame already received is the answer when its first byte is expected;
   * otherwise it is dropped and the wait goes on with the rest after one interval.
   */
  lemma WaitTakesFirstFrame(l: Link, expected: set<int>, polls: nat)
    requires Connected(l) && !l.faulty && polls > 0 && l.rx != [] && |l.rx| >= FrameLength(l.rx[0], 37)
    ensures var n := FrameLength(l.rx[0], 37);
      l.rx[0] as int in expected ==> Wait(l, expected, polls) == (Ok(Some(l.rx[..n])), l.(rx := l.rx[n..]))
    ensures var n := FrameLength(l.rx[0], 37);
      l.rx[0] as int !in expected ==> Wait(l, expected, polls) == Wait(Tick(l.(rx := l.rx[n..])), expected, polls - 1)
  {
    ReadFrameFull(l, 37);
    var n := FrameLength(l.rx[0], 37);
    assert Listen(l, expected) == (if l.rx[0] as int in expected then Ok(Some(l.rx[..n])) else Ok(None), l.(rx := l.rx[n..]));
  }

  /** The panel's answer arriving in the next interval, as one whole frame, is the one returned. */
  lemma AnswerInNextInterval(l: Link, expected: set<int>, polls: nat, answer: seq<byte>)
    requires Connected(l) && !l.faulty && polls >= 2 && l.rx == [] && l.arrivals != [] && l.arrivals[0] == answer
    requires |answer| == 37 && answer[0] as int in expected && answer[0] >= 37
    ensures Wait(l, expected, polls) == (Ok(Some(answer)), l.(arrivals := l.arrivals[1..]))
  {
    assert Listen(l, expected) == (Ok(None), l);
    var t := Tick(l);
    assert Wait(l, expected, polls) == Wait(t, expected, polls - 1);
    assert t.rx == answer && FrameLength(answer[0], 37) == 37;
    WaitTakesFirstFrame(t, expected, polls - 1);
    assert answer[..37] == answer;
    assert t.(rx := t.rx[37..]) == l.(arrivals := l.arrivals[1..]);
  }

  // ---------------------------------------------------------------------------
  // The operations of the panel
  // ---------------------------------------------------------------------------

  /** `send_command(command, expected_response, timeout)`: a failed write raises before waiting. */
  function Exchange(l: Link, command: seq<byte>, expected: Option<set<int>>, polls: nat): (res: (Reply, Link))
    ensures res.0.Ok? && res.0.value.Some? ==>
              expected.Some? && 0 < |res.0.value.value| <= 37 && res.0.value.value[0] as int in expected.value
  {
    var (w, l') := Send(l, command);
    if w.Err? then (Err(w.error), l')
    else if expected.None? then (Ok(None), l')
    else Wait(l', expected.value, polls)
  }

  /** A command is written once, before the wait; on a link that cannot write it raises and changes nothing. */
  lemma ExchangeWritesOnce(l: Link, command: seq<byte>, expected: Option<set<int>>, polls: nat)
    ensures var (r, l') := Exchange(l, command, expected, polls);
      Connected(l) && !l.faulty ==> r.Ok? && l' == l.(rx := l'.rx, arrivals := l'.arrivals, written := l.written + [command])
    ensures !(Connected(l) && !l.faulty) ==> Exchange(l, command, expected, polls) == (Err(Send(l, command).0.error), l)
  {
    if Connected(l) && !l.faulty && expected.Some? {
      WaitOnlyReads(Send(l, command).1, expected.value, polls);
    }
  }

  /**
   * `initiate_communication()`: flush, send InitiateCommunication, read the identity answer.
   * The flag stays; the panel information is replaced only when new information is returned.
   */
  function Identify(s: Session): (res: (Result<Option<PanelInfo>>, Session))
    ensures res.1.authenticated == s.authenticated
    ensures res.1.info == (if res.0.Ok? && res.0.value.Some? then res.0.value else s.info)
  {
    var (w, l1) := Send(Flush(s.link), InitiateFrame(0x00).value);
    if w.Err? then (Err(w.error), s.(link := l1))
    else
      var (r, l2) := Wait(l1, {0x72}, ResponsePolls);
      if r.Err? then (Err(r.error), s.(link := l2))
      else if r.value.None? || !Accepts(InitiateCommunicationResponse, r.value.value) then (Ok(None), s.(link := l2))
      else
        var info := InfoOf(r.value.value);
        (Ok(Some(info)), s.(link := l2, info := Some(info)))
  }

  /**
   * `initialize_communication()`: log in with the configured PC password; 0x10 accepts it.
   * Only a login that returns True sets the flag; none clears it or changes the panel information.
   */
  function Authenticate(s: Session, config: map<string, string>): (res: (Result<bool>, Session))
    ensures res.1.authenticated == (s.authenticated || res.0 == Ok(true))
    ensures res.1.info == s.info
  {
    if s.info.None? then (Ok(false), s)
    else
      var password := EncodePassword(PasswordSetting(config));
      if password.Err? then (Err(password.error), s)
      else
        var i := s.info.value;
        var frame := InitializeFrame(i.productId, i.firmware, i.panelId, password.value, 0x01, 0x00);
        if frame.Err? then (Err(frame.error), s)
        else
          var (w, l1) := Send(s.link, frame.value);
          if w.Err? then (Err(w.error), s.(link := l1))
          else
            var (r, l2) := Wait(l1, {0x10, 0x70}, ResponsePolls);
            if r.Err? then (Err(r.error), s.(link := l2))
            else if r.value.Some? && r.value.value[0] == 0x10 then (Ok(true), s.(link := l2, authenticated := true))
            else (Ok(false), s.(link := l2))
  }

  /** The common part of `arm_partition`, `disarm_partition` and `bypass_zone`: perform `action` on entity `number`. */
  function Act(s: Session, action: int, number: int): (res: (Result<bool>, Session))
    ensures res.1 == s.(link := res.1.link)
  {
    var frame := PerformActionFrame(action, number - 1, 0x01, 0x00);
    if frame.Err? then (Err(frame.error), s)
    else
      var (r, l) := Exchange(s.link, frame.value, Some(ActionReplies), ResponsePolls);
      if r.Err? then (Err(r.error), s.(link := l))
      else (Ok(r.value.Some? && r.value.value[0] == 0x40), s.(link := l))
  }

  /** `arm_partition(partition, mode)`: only the link changes, and not at all before the login. */
  function Arm(s: Session, partition: int, mode: string): (res: (Result<bool>, Session))
    ensures res.1 == s.(link := res.1.link)
    ensures !s.authenticated ==> res == (Ok(false), s)
  {
    if !s.authenticated then (Ok(false), s)
    else match Lookup(PartitionActions, mode)
      case None => (Ok(false), s)
      case Some(code) => Act(s, code, partition)
  }

  /** `disarm_partition(partition)`: the code of 'disarm'; only the link changes, and not at all before the login. */
  function Disarm(s: Session, partition: int): (res: (Result<bool>, Session))
    ensures res.1 == s.(link := res.1.link)
    ensures !s.authenticated ==> res == (Ok(false), s)
  {
    if !s.authenticated then (Ok(false), s) else Act(s, 0x05, partition)
  }

  /** `bypass_zone(zone)`: the code of 'bypass'; only the link changes, and not at all before the login. */
  function Bypass(s: Session, zone: int): (res: (Result<bool>, Session))
    ensures res.1 == s.(link := res.1.link)
    ensures !s.authenticated ==> res == (Ok(false), s)
  {
    if !s.authenticated then (Ok(false), s) else Act(s, 0x10, zone)
  }

  /** `read_status(address, records)`: the memory bytes of the answer, None when it does not parse. */
  function ReadStatus(s: Session, address: int, records: int): (res: (Result<Option<seq<byte>>>, Session))
    ensures res.1 == s.(link := res.1.link)
    ensures !s.authenticated ==> res == (Ok(None), s)
  {
    if !s.authenticated then (Ok(None), s)
    else
      var frame := ReadEepromFrame(address, records, 0x01, 0x00);
      if frame.Err? then (Err(frame.error), s)
      else
        var (r, l) := Exchange(s.link, frame.value, Some(EepromReplies), ResponsePolls);
        if r.Err? then (Err(r.error), s.(link := l))
        else if r.value.None? || !Accepts(ReadEepromResponse, r.value.value) then (Ok(None), s.(link := l))
        else (Ok(Some(BlobOf(Get(ReadEepromResponse, Data, r.value.value)))), s.(link := l))
  }

  // ---------------------------------------------------------------------------
  // Properties of the session
  // ---------------------------------------------------------------------------

  /** A login returns True exactly when the panel's answer starts with 0x10. */
  lemma LoginAcceptedBy0x10(s: Session, config: map<string, string>)
    ensures Authenticate(s, config).0 == Ok(true) <==>
      s.info.Some? && EncodePassword(PasswordSetting(config)).Ok?
      && (var i := s.info.value;
          var frame := InitializeFrame(i.productId, i.firmware, i.panelId, EncodePassword(PasswordSetting(config)).value, 0x01, 0x00);
          frame.Ok? && Connected(s.link) && !s.link.faulty
          && (var w := Wait(Send(s.link, frame.value).1, {0x10, 0x70}, ResponsePolls).0;
              w.Ok? && w.value.Some? && w.value.value[0] == 0x10))
  {
  }

  /**
   * On a working link, identification writes InitiateCommunication once, after the flush, and
   * writes nothing more; it returns panel information exactly when the first 0x72 answer
   * parses, and that information is the one read from the answer.
   */
  lemma IdentifySendsAndDecodes(s: Session)
    requires Connected(s.link) && !s.link.faulty
    ensures var l1 := Send(Flush(s.link), InitiateFrame(0x00).value).1;
      var w := Wait(l1, {0x72}, ResponsePolls).0;
      var (r, s') := Identify(s);
      l1.written == s.link.written + [InitiateFrame(0x00).value] && s'.link.written == l1.written
      && r.Ok? && w.Ok?
      && (r.value.Some? <==> w.value.Some? && Accepts(InitiateCommunicationResponse, w.value.value))
      && (r.value.Some? ==> r.value.value == InfoOf(w.value.value))
  {
    var l1 := Send(Flush(s.link), InitiateFrame(0x00).value).1;
    WaitOnlyReads(l1, {0x72}, ResponsePolls);
  }

  /**
   * With panel information, an encodable password and a working link, the login writes its
   * InitializeCommunication frame once and nothing more, and returns whether the answer is 0x10.
   */
  lemma LoginWritesFrame(s: Session, config: map<string, string>, frame: seq<byte>)
    requires s.info.Some? && EncodePassword(PasswordSetting(config)).Ok?
    requires InitializeFrame(s.info.value.productId, s.info.value.firmware, s.info.value.panelId,
                             EncodePassword(PasswordSetting(config)).value, 0x01, 0x00) == Ok(frame)
    requires Connected(s.link) && !s.link.faulty
    ensures Authenticate(s, config).1.link.written == s.link.written + [frame]
    ensures var w := Wait(Send(s.link, frame).1, {0x10, 0x70}, ResponsePolls).0;
      Authenticate(s, config).0 == Ok(w.Ok? && w.value.Some? && w.value.value[0] == 0x10)
  {
    WaitOnlyReads(Send(s.link, frame).1, {0x10, 0x70}, ResponsePolls);
  }

  /** The product ids `ProductIdEnum` names; `construct` decodes each of them to its name, a string. */
  const NamedProducts: set<int> := {0, 1, 2, 3, 4, 5, 21, 22, 23, 24}

  /**
   * `initialize_communication()` as written. For a named product, `panel_info['product_id']`
   * is the Enum's string, so `data[1] = product_id` raises TypeError once the password has
   * been encoded and before anything is sent. `Authenticate` is the intended behaviour.
   */
  function AuthenticateAsWritten(s: Session, config: map<string, string>): (res: (Result<bool>, Session))
    ensures res.1.authenticated == (s.authenticated || res.0 == Ok(true))
    ensures res.1.info == s.info
    ensures s.info.Some? && s.info.value.productId in NamedProducts ==> res.0 != Ok(true) && res.1.authenticated == s.authenticated
  {
    if s.info.Some? && EncodePassword(PasswordSetting(config)).Ok? && s.info.value.productId in NamedProducts
    then (Err(TypeMismatch), s)
    else Authenticate(s, config)
  }

  /** As written, every panel the Enum names fails to log in: TypeError, nothing sent, no flag set. */
  lemma NamedProductLoginRaises(s: Session, config: map<string, string>)
    requires s.info.Some? && s.info.value.productId in NamedProducts
    requires EncodePassword(PasswordSetting(config)).Ok?
    ensures AuthenticateAsWritten(s, config) == (Err(TypeMismatch), s)
    ensures AuthenticateAsWritten(s, config).0 != Ok(true)
  {
  }

  /** The default password and an SP5500 (product 21): the written code raises, whatever the panel would answer. */
  lemma SpectraLoginRaises(link: Link, firmware: (nat, nat, nat), panelId: nat)
    ensures var s := Session(link, Some(PanelInfo(21, firmware, "", panelId, [0, 0], 1)), false);
      AuthenticateAsWritten(s, map[]) == (Err(TypeMismatch), s)
  {
    PasswordExamples();
  }

  /** Only the named products are affected: an id the Enum does not map stays an int. */
  lemma UnnamedProductLogin(s: Session, config: map<string, string>)
    requires s.info.None? || s.info.value.productId !in NamedProducts
    ensures AuthenticateAsWritten(s, config) == Authenticate(s, config)
  {
  }

  /** Before the login every command returns False (None) and nothing is sent, read or changed. */
  lemma UnauthenticatedCommandsAreInert(s: Session, number: int, mode: string, address: int, records: int)
    requires !s.authenticated
    ensures Arm(s, number, mode) == (Ok(false), s)
    ensures Disarm(s, number) == (Ok(false), s)
    ensures Bypass(s, number) == (Ok(false), s)
    ensures ReadStatus(s, address, records) == (Ok(None), s)
  {
  }

  /** Without panel information the login sends nothing and fails. */
  lemma LoginNeedsIdentity(s: Session, config: map<string, string>)
    requires s.info.None?
    ensures Authenticate(s, config) == (Ok(false), s)
  {
  }

  /**
   * For every mode, once logged in: a mode the partition table does not list returns False
   * without sending anything; a listed mode performs the table's code on the partition.
   */
  lemma ArmByMode(s: Session, partition: int, mode: string)
    requires s.authenticated
    ensures Lookup(PartitionActions, mode).None? ==> Arm(s, partition, mode) == (Ok(false), s)
    ensures Lookup(PartitionActions, mode).Some? ==> Arm(s, partition, mode) == Act(s, Lookup(PartitionActions, mode).value, partition)
  {
  }

  /** A string other than the six partition mode names returns False and leaves the session as it was. */
  lemma ArmUnknownMode(s: Session, partition: int, mode: string)
    requires mode !in {"arm_stay", "arm_sleep", "arm", "disarm", "arm_stay_instant", "arm_instant"}
    ensures Arm(s, partition, mode) == (Ok(false), s)
  {
    PartitionModeNames();
  }

  /** The names of the partition table. */
  lemma PartitionModeNames()
    ensures forall i | 0 <= i < |PartitionActions| ::
      PartitionActions[i].0 in {"arm_stay", "arm_sleep", "arm", "disarm", "arm_stay_instant", "arm_instant"}
  {
  }

  /** The six partition modes and their codes; 'arm_away', named in the docstring, is refused without sending. */
  lemma ArmModes(s: Session, partition: int)
    requires s.authenticated
    ensures Arm(s, partition, "arm_away") == (Ok(false), s)
    ensures Arm(s, partition, "arm_stay") == Act(s, 0x01, partition)
    ensures Arm(s, partition, "arm_sleep") == Act(s, 0x02, partition)
    ensures Arm(s, partition, "arm") == Act(s, 0x04, partition)
    ensures Arm(s, partition, "disarm") == Disarm(s, partition)
    ensures Arm(s, partition, "arm_stay_instant") == Act(s, 0x06, partition)
    ensures Arm(s, partition, "arm_instant") == Act(s, 0x07, partition)
  {
    PartitionModeCodes();
    ArmUnknownMode(s, partition, "arm_away");
  }

  /** What the partition table gives for each of its six modes. */
  lemma PartitionModeCodes()
    ensures Lookup(PartitionActions, "arm_stay") == Some(0x01)
    ensures Lookup(PartitionActions, "arm_sleep") == Some(0x02)
    ensures Lookup(PartitionActions, "arm") == Some(0x04)
    ensures Lookup(PartitionActions, "disarm") == Some(0x05)
    ensures Lookup(PartitionActions, "arm_stay_instant") == Some(0x06)
    ensures Lookup(PartitionActions, "arm_instant") == Some(0x07)
  {
    assert PartitionActions[2].0 == "arm";
  }

  /**
   * A command performed on a working link sends exactly its PerformAction frame, with the
   * entity number made 0-based, and returns True exactly for an answer starting with 0x40.
   */
  lemma ActSendsOneFrame(s: Session, action: int, number: int)
    requires Connected(s.link) && !s.link.faulty
    requires IsByte(action) && IsByte(number - 1)
    ensures Act(s, action, number).0.Ok?
    ensures Act(s, action, number).1.link.written == s.link.written + [PerformActionFrame(action, number - 1, 0x01, 0x00).value]
    ensures var frame := PerformActionFrame(action, number - 1, 0x01, 0x00).value;
      var w := Wait(Send(s.link, frame).1, ActionReplies, ResponsePolls).0;
      Act(s, action, number).0.value <==> w.Ok? && w.value.Some? && w.value.value[0] == 0x40
  {
    var frame := PerformActionFrame(action, number - 1, 0x01, 0x00).value;
    ExchangeWritesOnce(s.link, frame, Some(ActionReplies), ResponsePolls);
  }

  /** A number whose 0-based form is not a byte raises before anything is sent. */
  lemma ActRejectsNumber(s: Session, action: int, number: int)
    requires !IsByte(number - 1)
    ensures Act(s, action, number) == (Err(ByteRange), s)
  {
  }

  /** Arming partition 1 while 0x40 arrives on a quiet link: True, the frame sent and the answer consumed. */
  lemma ArmAcknowledged(s: Session, answer: seq<byte>)
    requires s.authenticated && Connected(s.link) && !s.link.faulty
    requires s.link.rx == [] && s.link.arrivals != [] && s.link.arrivals[0] == answer
    requires |answer| == 37 && answer[0] == 0x40
    ensures var (r, s') := Arm(s, 1, "arm");
      r == Ok(true) && s'.link.rx == [] && s'.link.arrivals == s.link.arrivals[1..]
      && s'.link.written == s.link.written + [PerformActionFrame(0x04, 0, 0x01, 0x00).value]
  {
    assert PartitionActions[2].0 == "arm";
    var l := Send(s.link, PerformActionFrame(0x04, 0, 0x01, 0x00).value).1;
    AnswerInNextInterval(l, ActionReplies, ResponsePolls, answer);
  }

  /** An answer 0x41-0x4F refuses the command: False, though the command was sent. */
  lemma DisarmRefused(s: Session, answer: seq<byte>)
    requires s.authenticated && Connected(s.link) && !s.link.faulty
    requires s.link.rx == [] && s.link.arrivals != [] && s.link.arrivals[0] == answer
    requires |answer| == 37 && 0x41 <= answer[0] < 0x50
    ensures var (r, s') := Disarm(s, 1);
      r == Ok(false) && s'.link.written == s.link.written + [PerformActionFrame(0x05, 0, 0x01, 0x00).value]
  {
    var l := Send(s.link, PerformActionFrame(0x05, 0, 0x01, 0x00).value).1;
    AnswerInNextInterval(l, ActionReplies, ResponsePolls, answer);
  }

  /** The identity answer arriving after the request gives the panel information read from its bytes. */
  lemma IdentifyReadsAnswer(s: Session, answer: seq<byte>)
    requires Connected(s.link) && !s.link.faulty && s.link.arrivals != [] && s.link.arrivals[0] == answer
    requires |answer| == 37 && answer[0] == 0x72 && answer[1] == 0xFF
    ensures var (r, s') := Identify(s);
      r.Ok? && r.value.Some? && s'.info == r.value && s'.authenticated == s.authenticated
      && s'.link.written == s.link.written + [InitiateFrame(0x00).value]
    ensures var info := Identify(s).0.value.value;
      info.productId == answer[6] && info.firmware == (answer[7] as nat, answer[8] as nat, answer[9] as nat)
      && info.panelId == answer[10] as int * 256 + answer[11] && info.pcPassword == answer[12..14]
  {
    IdentityAcceptance(answer);
    var l := Send(Flush(s.link), InitiateFrame(0x00).value).1;
    AnswerInNextInterval(l, {0x72}, ResponsePolls, answer);
  }

  /** The memory returned is bytes 5 to 31 of the answer, the 27 bytes after the records count. */
  lemma ReadStatusData(s: Session, address: int, records: int, frame: seq<byte>)
    requires s.authenticated && ReadEepromFrame(address, records, 0x01, 0x00) == Ok(frame)
    ensures var r := ReadStatus(s, address, records).0;
      var w := Exchange(s.link, frame, Some(EepromReplies), ResponsePolls).0;
      r.Ok? && r.value.Some? ==> |r.value.value| == 27 && r.value.value == w.value.value[5..32]
  {
    var w := Exchange(s.link, frame, Some(EepromReplies), ResponsePolls).0;
    if w.Ok? && w.value.Some? && Accepts(ReadEepromResponse, w.value.value) {
      ReplyDataField(w.value.value);
    }
  }

  /** Conversely, an answer of 33 bytes or more always gives memory bytes. */
  lemma ReadStatusAnswered(s: Session, address: int, records: int, frame: seq<byte>)
    requires s.authenticated && ReadEepromFrame(address, records, 0x01, 0x00) == Ok(frame)
    ensures var r := ReadStatus(s, address, records).0;
      var w := Exchange(s.link, frame, Some(EepromReplies), ResponsePolls).0;
      w.Ok? && w.value.Some? && |w.value.value| >= 33 ==> r.Ok? && r.value.Some?
  {
    var w := Exchange(s.link, frame, Some(EepromReplies), ResponsePolls).0;
    if w.Ok? && w.value.Some? {
      LengthAcceptance(ReadEepromResponse, w.value.value);
    }
  }

  // ---------------------------------------------------------------------------
  // Live events
  // ---------------------------------------------------------------------------

  /** `handle_live_event(frame)`'s dictionary. */
  datatype EventInfo = EventInfo(command: nat, group: nat, event1: nat, event2: nat, partition: nat,
                                 labelType: nat, labelText: string)

  /** `bytes.decode('ascii', errors='ignore')`: the bytes below 128 as characters, the others dropped. */
  function AsciiIgnore(bytes: seq<byte>): (s: string)
    ensures |s| <= |bytes|
    ensures forall i | 0 <= i < |s| :: s[i] as int < 128
  {
    if bytes == [] then []
    else (if bytes[0] < 128 then [bytes[0] as char] else []) + AsciiIgnore(bytes[1..])
  }

  /** One byte decodes to itself below 128 and to nothing otherwise. */
  lemma AsciiIgnoreByte(b: byte)
    ensures AsciiIgnore([b]) == if b < 128 then [b as char] else []
  {
    assert [b][1..] == [];
  }

  /** Decoding works byte by byte: the result for `a + b` is the result for `a` followed by that for `b`. */
  lemma {:induction false} AsciiIgnoreAppend(a: seq<byte>, b: seq<byte>)
    ensures AsciiIgnore(a + b) == AsciiIgnore(a) + AsciiIgnore(b)
  {
    if a == [] {
      assert a + b == b;
    } else {
      assert (a + b)[0] == a[0] && (a + b)[1..] == a[1..] + b;
      AsciiIgnoreAppend(a[1..], b);
    }
  }

  /** Where the run of NULs starting at `k` ends. */
  function SkipNul(s: string, k: nat): (n: nat)
    requires k <= |s|
    ensures k <= n <= |s| && (n < |s| ==> s[n] != '\0')
    ensures forall i | k <= i < n :: s[i] == '\0'
    decreases |s| - k
  {
    if k < |s| && s[k] == '\0' then SkipNul(s, k + 1) else k
  }

  /** Where the run of NULs ending at `j` begins, looking no further back than `lo`. */
  function BackNul(s: string, lo: nat, j: nat): (n: nat)
    requires lo <= j <= |s|
    ensures lo <= n <= j && (n > lo ==> s[n - 1] != '\0')
    ensures forall i | n <= i < j :: s[i] == '\0'
    decreases j
  {
    if j > lo && s[j - 1] == '\0' then BackNul(s, lo, j - 1) else j
  }

  /** `s.strip('\x00')`: the text between the leading and the trailing NULs. */
  function StripNul(s: string): (t: string)
    ensures |t| <= |s|
    ensures t == [] <==> forall k | 0 <= k < |s| :: s[k] == '\0'
    ensures t == [] || (t[0] != '\0' && t[|t| - 1] != '\0')
  {
    var i := SkipNul(s, 0);
    var j := BackNul(s, i, |s|);
    assert i < |s| ==> i < j;
    s[i..j]
  }

  /** The label is a run of the decoded text with every NUL before or after it removed, and none left at its ends. */
  lemma StripNulShape(s: string)
    ensures var i := SkipNul(s, 0);
      var j := BackNul(s, i, |s|);
      StripNul(s) == s[i..j]
      && (forall k | 0 <= k < i :: s[k] == '\0') && (forall k | j <= k < |s| :: s[k] == '\0')
  {
  }

  /** NUL-free printable ASCII is the label unchanged. */
  lemma PlainLabel(bytes: seq<byte>)
    requires forall i | 0 <= i < |bytes| :: 0 < bytes[i] < 128
    ensures |AsciiIgnore(bytes)| == |bytes|
    ensures forall i | 0 <= i < |bytes| :: AsciiIgnore(bytes)[i] == bytes[i] as char
    ensures StripNul(AsciiIgnore(bytes)) == AsciiIgnore(bytes)
  {
    AsciiKept(bytes);
    var a := AsciiIgnore(bytes);
    if a != [] {
      assert a[0] != '\0' && a[|a| - 1] != '\0';
      assert SkipNul(a, 0) == 0 && BackNul(a, 0, |a|) == |a|;
    }
    assert a[0..|a|] == a;
  }

  /** ASCII bytes are decoded one character each. */
  lemma {:induction false} AsciiKept(bytes: seq<byte>)
    requires forall i | 0 <= i < |bytes| :: bytes[i] < 128
    ensures |AsciiIgnore(bytes)| == |bytes|
    ensures forall i | 0 <= i < |bytes| :: AsciiIgnore(bytes)[i] == bytes[i] as char
  {
    if bytes != [] {
      AsciiKept(bytes[1..]);
      assert AsciiIgnore(bytes) == [bytes[0] as char] + AsciiIgnore(bytes[1..]);
    }
  }

  /** `handle_live_event(frame)`: the event's fields, or None when `LiveEvent.parse` raises. */
  function HandleLiveEvent(d: seq<byte>): (r: Option<EventInfo>)
    ensures r.Some? <==> |d| >= 35
    ensures r.Some? ==> r.value == EventInfo(d[0], d[2], d[3], d[4], d[5], d[10], StripNul(AsciiIgnore(d[11..27])))
  {
    LengthAcceptance(LiveEvent, d);
    var layout := LiveEvent;
    if !Accepts(layout, d) then None
    else
      LiveEventCommand(d);
      LiveEventGroup(d);
      LiveEventFirst(d);
      LiveEventSecond(d);
      LiveEventPartition(d);
      LiveEventLabelType(d);
      LiveEventLabel(d);
      Some(EventInfo(NumOf(Get(layout, Command, d)), NumOf(Get(layout, EventGroup, d)),
                        NumOf(Get(layout, Event1, d)), NumOf(Get(layout, Event2, d)),
                        NumOf(Get(layout, Partition, d)), NumOf(Get(layout, LabelType, d)),
                        StripNul(AsciiIgnore(BlobOf(Get(layout, Label, d))))))
  }

  /** One interval of `monitor_events` before its sleep: a frame 0xE0-0xEF that parses is an event; other frames are dropped. */
  function Poll(l: Link): (res: (Result<Option<EventInfo>>, Link))
    ensures res.0.Ok? && res.0.value.Some? ==> 0xE0 <= res.0.value.value.command <= 0xEF
    ensures res.0.Err? ==> res.0.error == PortFailure && Connected(l) && l.faulty
    ensures !Connected(l) ==> res == (Ok(None), l)
    ensures res.1 == l.(rx := res.1.rx)
  {
    if Pending(l) == 0 then (Ok(None), l)
    else
      var (r, l') := ReadFrame(l, 37);
      if r.Err? then (Err(r.error), l')
      else if |r.value| > 0 && 0xE0 <= r.value[0] <= 0xEF then (Ok(HandleLiveEvent(r.value)), l')
      else (Ok(None), l')
  }

  /** The events `monitor_events` yields, and the exception that ends it if one does. */
  datatype Monitoring = Monitoring(events: seq<EventInfo>, failure: Option<Error>)

  /**
   * `monitor_events(duration)` from `elapsed` intervals on, for at most `budget` more:
   * `duration` 0 stands for None (no end); the budget is how long the caller keeps
   * iterating. The monitor only reads the link: it takes received bytes and lets time pass.
   */
  function Monitor(l: Link, duration: nat, elapsed: nat, budget: nat): (res: (Monitoring, Link))
    ensures res.1 == l.(rx := res.1.rx, arrivals := res.1.arrivals)
    decreases budget
  {
    if budget == 0 || (duration > 0 && elapsed >= duration) then (Monitoring([], None), l)
    else
      var (p, l1) := Poll(l);
      if p.Err? then (Monitoring([], Some(p.error)), l1)
      else Continue(Found(p.value), Monitor(Tick(l1), duration, elapsed + 1, budget - 1))
  }

  /** What one interval yields: its event, if it heard one. */
  function Found(event: Option<EventInfo>): seq<EventInfo> {
    if event.Some? then [event.value] else []
  }

  /** Unfolds one interval that neither stops the run nor raises. */
  lemma MonitorStep(l: Link, duration: nat, elapsed: nat, budget: nat)
    requires budget > 0 && !(duration > 0 && elapsed >= duration) && Poll(l).0.Ok?
    ensures Monitor(l, duration, elapsed, budget)
         == Continue(Found(Poll(l).0.value), Monitor(Tick(Poll(l).1), duration, elapsed + 1, budget - 1))
  {
  }

  /** `events`, then what the rest of the run yields. */
  function Continue(events: seq<EventInfo>, rest: (Monitoring, Link)): (Monitoring, Link) {
    (Monitoring(events + rest.0.events, rest.0.failure), rest.1)
  }

  /** Continuing with the events `a + b` is continuing with `b`, then with `a` in front. */
  lemma ContinueAppend(a: seq<EventInfo>, b: seq<EventInfo>, rest: (Monitoring, Link))
    ensures Continue(a + b, rest) == Continue(a, Continue(b, rest))
  {
    assert (a + b) + rest.0.events == a + (b + rest.0.events);
  }

  /**
   * Everything the monitor yields is a live event 0xE0-0xEF, at most one an interval, so
   * no more than the budget and the duration left allow.
   */
  lemma {:induction false} MonitorYieldsEvents(l: Link, duration: nat, elapsed: nat, budget: nat)
    ensures var m := Monitor(l, duration, elapsed, budget).0;
      (forall i | 0 <= i < |m.events| :: 0xE0 <= m.events[i].command <= 0xEF)
      && |m.events| <= budget
      && (duration > 0 ==> |m.events| <= duration - elapsed || m.events == [])
    decreases budget
  {
    if budget > 0 && !(duration > 0 && elapsed >= duration) && Poll(l).0.Ok? {
      var (p, l1) := Poll(l);
      MonitorStep(l, duration, elapsed, budget);
      MonitorYieldsEvents(Tick(l1), duration, elapsed + 1, budget - 1);
    }
  }

  /** Once the duration has passed the monitor stops at once; without a link it never yields. */
  lemma {:induction false} MonitorLimits(l: Link, duration: nat, elapsed: nat, budget: nat)
    ensures duration > 0 && elapsed >= duration ==> Monitor(l, duration, elapsed, budget) == (Monitoring([], None), l)
    ensures !Connected(l) ==> Monitor(l, duration, elapsed, budget).0 == Monitoring([], None)
    decreases budget
  {
    if budget > 0 && !(duration > 0 && elapsed >= duration) && !Connected(l) {
      assert Poll(l) == (Ok(None), l);
      MonitorLimits(Tick(l), duration, elapsed + 1, budget - 1);
    }
  }

  /** A live event waiting on the link, received in full, is what the next interval reads. */
  lemma PollEvent(l: Link)
    requires Connected(l) && !l.faulty && |l.rx| >= 37 && 0xE0 <= l.rx[0] <= 0xEF
    ensures Poll(l) == (Ok(HandleLiveEvent(l.rx[..37])), l.(rx := l.rx[37..]))
  {
    assert FrameLength(l.rx[0], 37) == 37;
    ReadFrameFull(l, 37);
    var frame := l.rx[..37];
    assert |frame| > 0 && 0xE0 <= frame[0] <= 0xEF;
  }

  /** A live event waiting on the link, received in full, is the first one yielded. */
  lemma EventYielded(l: Link, duration: nat, budget: nat)
    requires Connected(l) && !l.faulty && budget > 0 && |l.rx| >= 37 && 0xE0 <= l.rx[0] <= 0xEF
    ensures var m := Monitor(l, duration, 0, budget).0;
      |m.events| > 0 && Some(m.events[0]) == HandleLiveEvent(l.rx[..37])
  {
    var ev := HandleLiveEvent(l.rx[..37]);
    var l1 := l.(rx := l.rx[37..]);
    var rest := Monitor(Tick(l1), duration, 1, budget - 1);
    assert ev.Some?;
    assert Monitor(l, duration, 0, budget) == Continue([ev.value], rest) by {
      PollEvent(l);
    }
    assert Continue([ev.value], rest).0.events[0] == ev.value;
  }

  // ---------------------------------------------------------------------------
  // The panel object
  // ---------------------------------------------------------------------------

  class ParadoxPanel {
    const connection: SerialConnection
    const config: map<string, string>
    var panelInfo: Option<PanelInfo>
    var authenticated: bool

    /** The whole session: the link and the two fields the handshake sets. */
    ghost function State(): Session
      reads this, connection, connection.serial
    {
      Session(connection.View(), panelInfo, authenticated)
    }

    /** `ParadoxPanel(connection, config)`: no panel information, not authenticated. */
    constructor (connection: SerialConnection, config: map<string, string>)
      ensures this.connection == connection && this.config == config
      ensures panelInfo == None && !authenticated
    {
      this.connection := connection;
      this.config := config;
      panelInfo := None;
      authenticated := false;
    }

    /** One interval of `wait_for_response` before its sleep. */
    method ListenOnce(expected: set<int>) returns (heard: Reply)
      modifies connection.serial
      ensures (heard, connection.View()) == Listen(old(connection.View()), expected)
    {
      heard := Ok(None);
      if connection.Available() > 0 {
        var data := connection.ReadVariableLength(37, None);
        if data.Err? {
          heard := Err(data.error);
        } else if |data.value| > 0 && data.value[0] as int in expected {
          heard := Ok(Some(data.value));
        }
      }
    }

    /** `wait_for_response(expected, timeout)`, the timeout being `polls` intervals. */
    method WaitForResponse(expected: set<int>, polls: nat) returns (r: Reply)
      modifies connection.serial
      ensures (r, connection.View()) == Wait(old(connection.View()), expected, polls)
    {
      var left: nat := polls;
      while left > 0
        invariant left <= polls
        invariant Wait(connection.View(), expected, left) == Wait(old(connection.View()), expected, polls)
        decreases left
      {
        var heard := ListenOnce(expected);
        if heard.Err? || heard.value.Some? {
          return heard;
        }
        connection.serial.Elapse();
        left := left - 1;
      }
      return Ok(None);
    }

    /** `send_command(command, expected_response, timeout)`. */
    method SendCommand(command: seq<byte>, expected: Option<set<int>>, polls: nat) returns (r: Reply)
      modifies connection.serial
      ensures (r, connection.View()) == Exchange(old(connection.View()), command, expected, polls)
    {
      var w := connection.Write(command);
      if w.Err? {
        return Err(w.error);
      }
      if expected.Some? {
        r := WaitForResponse(expected.value, polls);
      } else {
        r := Ok(None);
      }
    }

    /** `initiate_communication()`. */
    method InitiateCommunication() returns (r: Result<Option<PanelInfo>>)
      modifies this, connection.serial
      ensures (r, State()) == Identify(old(State()))
    {
      connection.FlushInput();
      var cmd := BuildInitiateCommunication(0x00);
      var w := connection.Write(cmd.value);
      if w.Err? {
        return Err(w.error);
      }
      ghost var sent := connection.View();
      var response := WaitForResponse({0x72}, ResponsePolls);
      // the write went through, so the port is not faulty and the wait cannot raise
      WaitOnlyReads(sent, {0x72}, ResponsePolls);
      assert response.Ok?;
      if response.value.None? || Parse(InitiateCommunicationResponse, response.value.value).None? {
        return Ok(None);
      }
      panelInfo := Some(InfoOf(response.value.value));
      return Ok(panelInfo);
    }

    /** `initialize_communication()`. */
    method InitializeCommunication() returns (r: Result<bool>)
      modifies this, connection.serial
      ensures (r, State()) == Authenticate(old(State()), config)
    {
      if panelInfo.None? {
        return Ok(false);
      }
      var password := EncodePassword(PasswordSetting(config));
      if password.Err? {
        return Err(password.error);
      }
      var info := panelInfo.value;
      var cmd := BuildInitializeCommunicationMgsp(info.productId, info.firmware, info.panelId, password.value, 0x01, 0x00);
      if cmd.Err? {
        return Err(cmd.error);
      }
      var w := connection.Write(cmd.value);
      if w.Err? {
        return Err(w.error);
      }
      ghost var sent := connection.View();
      var response := WaitForResponse({0x10, 0x70}, ResponsePolls);
      // the write went through, so the port is not faulty and the wait cannot raise
      WaitOnlyReads(sent, {0x10, 0x70}, ResponsePolls);
      assert response.Ok?;
      if response.value.None? {
        return Ok(false);
      }
      if response.value.value[0] == 0x10 {
        authenticated := true;
        return Ok(true);
      }
      return Ok(false);
    }

    /** The shared body of the three commands: build, send, wait for 0x40-0x4F, True for 0x40. */
    method Perform(action: int, number: int) returns (r: Result<bool>)
      modifies connection.serial
      ensures (r, State()) == Act(old(State()), action, number)
    {
      var cmd := BuildPerformAction(action, number - 1, 0x01, 0x00);
      if cmd.Err? {
        return Err(cmd.error);
      }
      var response := SendCommand(cmd.value, Some(ActionReplies), ResponsePolls);
      if response.Err? {
        return Err(response.error);
      }
      return Ok(response.value.Some? && response.value.value[0] == 0x40);
    }

    /** `arm_partition(partition, mode)`. */
    method ArmPartition(partition: int, mode: string) returns (r: Result<bool>)
      modifies connection.serial
      ensures (r, State()) == Arm(old(State()), partition, mode)
    {
      if !authenticated {
        return Ok(false);
      }
      var code := Lookup(PartitionActions, mode);
      if code.None? {
        return Ok(false);
      }
      r := Perform(code.value, partition);
    }

    /** `disarm_partition(partition)`. */
    method DisarmPartition(partition: int) returns (r: Result<bool>)
      modifies connection.serial
      ensures (r, State()) == Disarm(old(State()), partition)
    {
      if !authenticated {
        return Ok(false);
      }
      var code := Lookup(PartitionActions, "disarm");
      assert PartitionActions[3].0 == "disarm";
      r := Perform(code.value, partition);
    }

    /** `bypass_zone(zone)`. */
    method BypassZone(zone: int) returns (r: Result<bool>)
      modifies connection.serial
      ensures (r, State()) == Bypass(old(State()), zone)
    {
      if !authenticated {
        return Ok(false);
      }
      var code := Lookup(ZoneActions, "bypass");
      r := Perform(code.value, zone);
    }

    /** `read_status(address, records)`. */
    method ReadStatusMemory(address: int, records: int) returns (r: Result<Option<seq<byte>>>)
      modifies connection.serial
      ensures (r, State()) == ReadStatus(old(State()), address, records)
    {
      if !authenticated {
        return Ok(None);
      }
      var cmd := BuildReadEeprom(address, records, 0x01, 0x00);
      if cmd.Err? {
        return Err(cmd.error);
      }
      var response := SendCommand(cmd.value, Some(EepromReplies), ResponsePolls);
      if response.Err? {
        return Err(response.error);
      }
      if response.value.None? || Parse(ReadEepromResponse, response.value.value).None? {
        return Ok(None);
      }
      return Ok(Some(BlobOf(Get(ReadEepromResponse, Data, response.value.value))));
    }

    /** One interval of `monitor_events` before its sleep. */
    method PollOnce() returns (heard: Result<Option<EventInfo>>)
      modifies connection.serial
      ensures (heard, connection.View()) == Poll(old(connection.View()))
    {
      heard := Ok(None);
      if connection.Available() > 0 {
        var data := connection.ReadVariableLength(37, None);
        if data.Err? {
          heard := Err(data.error);
        } else if |data.value| > 0 && 0xE0 <= data.value[0] <= 0xEF {
          heard := Ok(HandleLiveEvent(data.value));
        }
      }
    }

    /** `monitor_events(duration)` for `duration` intervals (0: no end), iterated for at most `horizon`. */
    method MonitorEvents(duration: nat, horizon: nat) returns (m: Monitoring)
      modifies connection.serial
      ensures (m, connection.View()) == Monitor(old(connection.View()), duration, 0, horizon)
    {
      var events: seq<EventInfo> := [];
      var elapsed: nat := 0;
      assert [] + Monitor(connection.View(), duration, 0, horizon).0.events
          == Monitor(connection.View(), duration, 0, horizon).0.events;
      while elapsed < horizon && !(duration > 0 && elapsed >= duration)
        invariant elapsed <= horizon
        invariant Continue(events, Monitor(connection.View(), duration, elapsed, horizon - elapsed))
               == Monitor(old(connection.View()), duration, 0, horizon)
        decreases horizon - elapsed
      {
        ghost var before := connection.View();
        var heard := PollOnce();
        if heard.Err? {
          assert events + [] == events;
          return Monitoring(events, Some(heard.error));
        }
        ghost var heardOn := connection.View();
        var found := Found(heard.value);
        connection.serial.Elapse();
        assert connection.View() == Tick(heardOn);
        ghost var rest := Monitor(connection.View(), duration, elapsed + 1, horizon - elapsed - 1);
        assert Monitor(before, duration, elapsed, horizon - elapsed) == Continue(found, rest) by {
          MonitorStep(before, duration, elapsed, horizon - elapsed);
        }
        ContinueAppend(events, found, rest);
        events := events + found;
        elapsed := elapsed + 1;
      }
      assert events + [] == events;
      return Monitoring(events, None);
    }
  }
}
