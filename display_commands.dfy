/** The display side of the controller: the four fixed RS-232 commands the
    processor sends to the screen through its COM port, and the two helpers
    that choose and send them, setDisplayPower and setDisplayInput. What
    they do is recorded as an ordered list of effects instead of being
    performed. */
module DisplayCommands {
  import opened Wrappers

  /** One byte on the serial line. */
  type Byte = b: int | 0 <= b < 0x100

  /** The carriage return that ends every command. */
  const CR: Byte := 0x0D

  /** The pause setDisplayPower makes between its two power-on sends, in
      milliseconds. */
  const SETTLE_DELAY_MS: nat := 2000

  /** The commands the controller can send. */
  datatype Command = PowerOn | PowerOff | InputHdmi1 | InputHdmi2

  /** The command table: the nine bytes sent for each command. */
  function Bytes(c: Command): (r: seq<Byte>)
    ensures |r| == 9 && r[8] == CR
    ensures forall i | 0 <= i < 8 :: 0x20 <= r[i] < 0x7F
    ensures r[2] == r[5] == 0x20 && r[3] == r[4] == 0x30
  {
    match c
    case PowerOn => [0x6B, 0x61, 0x20, 0x30, 0x30, 0x20, 0x30, 0x31, 0x0D]
    case PowerOff => [0x6B, 0x61, 0x20, 0x30, 0x30, 0x20, 0x30, 0x30, 0x0D]
    case InputHdmi1 => [0x78, 0x62, 0x20, 0x30, 0x30, 0x20, 0x41, 0x30, 0x0D]
    case InputHdmi2 => [0x78, 0x62, 0x20, 0x30, 0x30, 0x20, 0x41, 0x31, 0x0D]
  }

  /** The inverse of the command table: the two command letters pick power
      or input select, and the two data digits pick the setting. Anything
      else is not a command of the table. */
  function Decode(b: seq<Byte>): (r: Option<Command>)
    ensures r.Some? ==> |b| == 9 && b[8] == CR
  {
    if |b| != 9 || b[2] != 0x20 || b[3] != 0x30 || b[4] != 0x30 || b[5] != 0x20 || b[8] != CR then None
    else if b[0] == 0x6B && b[1] == 0x61 && b[6] == 0x30 then
      if b[7] == 0x31 then Some(PowerOn) else if b[7] == 0x30 then Some(PowerOff) else None
    else if b[0] == 0x78 && b[1] == 0x62 && b[6] == 0x41 then
      if b[7] == 0x30 then Some(InputHdmi1) else if b[7] == 0x31 then Some(InputHdmi2) else None
    else None
  }

  /** Every entry of the table reads back as its own command, and nothing
      but an entry of the table reads back as a command. */
  lemma DecodeBytes(c: Command, b: seq<Byte>)
    ensures Decode(Bytes(c)) == Some(c)
    ensures Decode(b) == Some(c) ==> b == Bytes(c)
  {
    if Decode(b) == Some(c) {
      assert b == [b[0], b[1], b[2], b[3], b[4], b[5], b[6], b[7], b[8]];
    }
  }

  /** Two commands with the same bytes are the same command. */
  lemma BytesInjective(c: Command, d: Command)
    ensures Bytes(c) == Bytes(d) <==> c == d
  {
    DecodeBytes(c, Bytes(d));
  }

  /** What the controller does, in order: a write to a string input join of
      the intersystem link, a send of bytes through the COM port, or a pause
      of the calling thread. */
  datatype Effect = Status(join: nat, text: string) | Send(bytes: seq<Byte>) | Sleep(ms: nat)

  /** The payloads sent in a list of effects, in order. */
  function Sends(trace: seq<Effect>): seq<seq<Byte>>
  {
    if trace == [] then []
    else (if trace[0].Send? then [trace[0].bytes] else []) + Sends(trace[1..])
  }

  /** The sends of two lists of effects run one after the other are the
      sends of the first followed by those of the second. */
  lemma {:induction false} SendsAppend(a: seq<Effect>, b: seq<Effect>)
    ensures Sends(a + b) == Sends(a) + Sends(b)
  {
    if a == [] {
      assert a + b == b;
    } else {
      assert (a + b)[1..] == a[1..] + b;
      SendsAppend(a[1..], b);
    }
  }

  /** No status write in a list of effects. */
  predicate NoStatus(trace: seq<Effect>)
  {
    forall i | 0 <= i < |trace| :: !trace[i].Status?
  }

  /** Any two sends in a list of effects have a settle pause between them. */
  predicate SendsSettled(trace: seq<Effect>)
  {
    forall i, j | 0 <= i < j < |trace| && trace[i].Send? && trace[j].Send? ::
      exists k | i < k < j :: trace[k] == Sleep(SETTLE_DELAY_MS)
  }

  /** setDisplayPower: power on sends the power-on command, waits for the
      display to settle and sends it again; power off sends the power-off
      command once. The helper writes no status. */
  function SetDisplayPower(power: bool): (r: seq<Effect>)
    ensures NoStatus(r) && r != [] && r[0].Send?
  {
    if power then [Send(Bytes(PowerOn)), Sleep(SETTLE_DELAY_MS), Send(Bytes(PowerOn))]
    else [Send(Bytes(PowerOff))]
  }

  /** What setDisplayPower sends: the power-on command twice with a settle
      pause between the two, or the power-off command once. */
  lemma PowerSends(power: bool)
    ensures Sends(SetDisplayPower(power)) == if power then [Bytes(PowerOn), Bytes(PowerOn)] else [Bytes(PowerOff)]
    ensures SendsSettled(SetDisplayPower(power))
    ensures power <==> exists k | 0 <= k < |SetDisplayPower(power)| :: SetDisplayPower(power)[k].Sleep?
  {
    var r := SetDisplayPower(power);
    if power {
      assert r[1..][1..][1..] == [];
      assert Sends(r[1..][1..]) == [Bytes(PowerOn)];
      assert Sends(r[1..]) == [Bytes(PowerOn)];
      assert r[1] == Sleep(SETTLE_DELAY_MS);
    } else {
      assert r[1..] == [];
      assert Sends(r) == [Bytes(PowerOff)] + [];
    }
  }

  /** The commands that select an input. */
  predicate IsInputSelect(c: Command)
  {
    c.InputHdmi1? || c.InputHdmi2?
  }

  /** The name setDisplayInput knows each input by. */
  function InputName(c: Command): string
    requires IsInputSelect(c)
  {
    if c.InputHdmi1? then "HDMI1" else "HDMI2"
  }

  /** setDisplayInput: the name of an input sends that input's select
      command once; any other name does nothing. The helper writes no
      status. */
  function SetDisplayInput(input: string): (r: seq<Effect>)
    ensures NoStatus(r) && |r| <= 1
    ensures r != [] ==> r[0].Send? && Decode(r[0].bytes).Some? && IsInputSelect(Decode(r[0].bytes).value)
  {
    if input == "HDMI1" then [Send(Bytes(InputHdmi1))]
    else if input == "HDMI2" then [Send(Bytes(InputHdmi2))]
    else []
  }

  /** Each input's name selects exactly that input. */
  lemma InputNameSelects(c: Command)
    requires IsInputSelect(c)
    ensures SetDisplayInput(InputName(c)) == [Send(Bytes(c))]
  {
    assert "HDMI2"[4] != "HDMI1"[4];
  }

  /** A name that is no input's name does nothing. */
  lemma UnknownInputIgnored(input: string)
    ensures SetDisplayInput(input) == [] <==> forall c | IsInputSelect(c) :: input != InputName(c)
  {
    if SetDisplayInput(input) != [] {
      var c := if input == "HDMI1" then InputHdmi1 else InputHdmi2;
      assert input == InputName(c);
    }
  }
}
