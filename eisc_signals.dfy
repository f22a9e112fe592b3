/** The handler for signal changes coming over the Ethernet intersystem
    link (myEISC_SigChange). Digital join 10 switches the display on or
    off, and a high on join 11 or join 12 selects HDMI1 or HDMI2. Each
    accepted request first writes a status message to string join 10 for
    the other processor, then drives the display. */
module EiscSignals {
  import opened Wrappers
  import opened DisplayCommands

  /** The kinds of signal change the link reports. */
  datatype SigEvent = BoolChange | StringChange | UShortChange

  /** A reported change: its kind, the join number of the signal that
      changed and, for a digital signal, its new value. */
  datatype SigEventArgs = SigEventArgs(event: SigEvent, join: nat, boolValue: bool)

  /** The digital joins the handler listens to, and the string join it
      reports on. */
  const POWER_JOIN: nat := 10
  const HDMI1_JOIN: nat := 11
  const HDMI2_JOIN: nat := 12
  const STATUS_JOIN: nat := 10

  /** The status messages, exactly as written to the status join; the two
      input messages begin with a space. */
  const STATUS_ON: string := "EISC says Turning unit on"
  const STATUS_OFF: string := "EISC says Turning unit off"
  const STATUS_HDMI1: string := " EISC says Switching to \"HDMI1\""
  const STATUS_HDMI2: string := " EISC says Switching to \"HDMI2\""

  /** myEISC_SigChange: what one signal change makes the controller do. */
  function SigChange(args: SigEventArgs): (r: seq<Effect>)
    ensures r != [] ==> r[0].Status? && r[0].join == STATUS_JOIN && NoStatus(r[1..])
    ensures r != [] ==> args.event.BoolChange? && POWER_JOIN <= args.join <= HDMI2_JOIN
  {
    match args.event
    case BoolChange =>
      if args.join == POWER_JOIN then
        if args.boolValue then [Status(STATUS_JOIN, STATUS_ON)] + SetDisplayPower(true)
        else [Status(STATUS_JOIN, STATUS_OFF)] + SetDisplayPower(false)
      else if args.join == HDMI1_JOIN then
        if args.boolValue then [Status(STATUS_JOIN, STATUS_HDMI1)] + SetDisplayInput("HDMI1") else []
      else if args.join == HDMI2_JOIN then
        if args.boolValue then [Status(STATUS_JOIN, STATUS_HDMI2)] + SetDisplayInput("HDMI2") else []
      else []
    case StringChange => []
    case UShortChange => []
  }

  /** The join map the controller documents: join 10 high turns the display
      on and low turns it off, join 11 switches to HDMI1 and join 12 to
      HDMI2. Nothing else is a request. */
  function Requested(args: SigEventArgs): Option<Command>
  {
    if !args.event.BoolChange? then None
    else if args.join == POWER_JOIN then Some(if args.boolValue then PowerOn else PowerOff)
    else if args.join == HDMI1_JOIN && args.boolValue then Some(InputHdmi1)
    else if args.join == HDMI2_JOIN && args.boolValue then Some(InputHdmi2)
    else None
  }

  /** The status message that announces each command. */
  function Announcement(c: Command): string
  {
    match c
    case PowerOn => STATUS_ON
    case PowerOff => STATUS_OFF
    case InputHdmi1 => STATUS_HDMI1
    case InputHdmi2 => STATUS_HDMI2
  }

  /** How many times each command is sent: power-on is repeated once the
      display has settled, every other command goes once. */
  function Repeats(c: Command): seq<seq<Byte>>
  {
    if c == PowerOn then [Bytes(c), Bytes(c)] else [Bytes(c)]
  }

  /** The handler does something exactly for the requests of the join map:
      it announces the request on the status join, then sends that
      request's command, with a settle pause between any two sends. */
  lemma SigChangeFollowsJoinMap(args: SigEventArgs)
    ensures SigChange(args) == [] <==> Requested(args).None?
    ensures Requested(args).Some? ==>
      var c, r := Requested(args).value, SigChange(args);
      r[0] == Status(STATUS_JOIN, Announcement(c)) && Sends(r[1..]) == Repeats(c) && SendsSettled(r)
  {
    var r := SigChange(args);
    if Requested(args).Some? {
      var c := Requested(args).value;
      assert r[1..] == if c.PowerOn? || c.PowerOff? then SetDisplayPower(c.PowerOn?) else SetDisplayInput(InputName(c));
      if c.PowerOn? || c.PowerOff? {
        PowerSends(c.PowerOn?);
        SettledAfterStatus(r);
      } else {
        InputNameSelects(c);
        assert Sends(r[1..]) == [Bytes(c)] + Sends([]);
      }
    }
  }

  /** A status write put in front of a settled list keeps it settled. */
  lemma SettledAfterStatus(r: seq<Effect>)
    requires r != [] && r[0].Status? && SendsSettled(r[1..])
    ensures SendsSettled(r)
  {
    forall i, j | 0 <= i < j < |r| && r[i].Send? && r[j].Send?
      ensures exists k | i < k < j :: r[k] == Sleep(SETTLE_DELAY_MS)
    {
      assert r[1..][i - 1].Send? && r[1..][j - 1].Send?;
      var k :| i - 1 < k < j - 1 && r[1..][k] == Sleep(SETTLE_DELAY_MS);
      assert r[k + 1] == Sleep(SETTLE_DELAY_MS);
    }
  }

  /** The four traces, byte for byte. */
  lemma ExactTraces()
    ensures SigChange(SigEventArgs(BoolChange, 10, true)) ==
      [Status(10, "EISC says Turning unit on"),
       Send([0x6B, 0x61, 0x20, 0x30, 0x30, 0x20, 0x30, 0x31, 0x0D]),
       Sleep(2000),
       Send([0x6B, 0x61, 0x20, 0x30, 0x30, 0x20, 0x30, 0x31, 0x0D])]
    ensures SigChange(SigEventArgs(BoolChange, 10, false)) ==
      [Status(10, "EISC says Turning unit off"),
       Send([0x6B, 0x61, 0x20, 0x30, 0x30, 0x20, 0x30, 0x30, 0x0D])]
    ensures SigChange(SigEventArgs(BoolChange, 11, true)) ==
      [Status(10, " EISC says Switching to \"HDMI1\""),
       Send([0x78, 0x62, 0x20, 0x30, 0x30, 0x20, 0x41, 0x30, 0x0D])]
    ensures SigChange(SigEventArgs(BoolChange, 12, true)) ==
      [Status(10, " EISC says Switching to \"HDMI2\""),
       Send([0x78, 0x62, 0x20, 0x30, 0x30, 0x20, 0x41, 0x31, 0x0D])]
  {
  }

  /** A low on an input join, a change on any other join, and a change of a
      string or analog signal do nothing at all. */
  lemma IgnoredChanges(args: SigEventArgs)
    ensures SigChange(args) == [] <==>
      !args.event.BoolChange? || !(args.join == POWER_JOIN || ((args.join == HDMI1_JOIN || args.join == HDMI2_JOIN) && args.boolValue))
  {
    SigChangeFollowsJoinMap(args);
  }

  /** Whatever the handler sends is a command of the table. */
  lemma SendsAreCommands(args: SigEventArgs)
    ensures forall i | 0 <= i < |Sends(SigChange(args))| :: Decode(Sends(SigChange(args))[i]).Some?
  {
    SigChangeFollowsJoinMap(args);
    var r := SigChange(args);
    if r != [] {
      var c := Requested(args).value;
      DecodeBytes(c, Bytes(c));
      assert r == [r[0]] + r[1..];
      SendsAppend([r[0]], r[1..]);
      assert Sends([r[0]]) == [];
    }
  }
}
