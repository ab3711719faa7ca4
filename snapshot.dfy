/**
 * One polling cycle of the PCS bridge, from the register snapshot returned by
 * the batch read to the (topic, payload) pairs handed to the MQTT client.
 *
 * A snapshot maps ECHONET Lite property codes (EPCs) to the hexadecimal text
 * of their values. Each field is read with `int(text, 16)` and then viewed as
 * an unsigned or a signed 32-bit word; the two packed registers 0xF5 and 0xF6
 * are cut into the Python slices `[0:8]` and `[8:16]` and each part is read on
 * its own. Any missing register or unreadable field stops the cycle before
 * anything is published.
 */
module PcsDecode {
  import opened Wrappers
  import opened Hex
  import opened Word32

  const GRID_MODE: int := 0xd0        // operation mode: 0x01 is independent (off-grid) mode
  const ENERGY_NORMAL: int := 0xe0    // measured cumulative energy, normal direction (Wh)
  const ENERGY_REVERSE: int := 0xe3   // measured cumulative energy, reverse direction (Wh)
  const INSTANT_POWER: int := 0xe7    // measured instantaneous power (W)
  const HOUSEHOLD_POWER: int := 0xf5  // packed: household-only power, power bought from the grid (W)
  const GRID_ENERGY: int := 0xf6      // packed: cumulative energy from and to the grid (Wh)

  /** The registers requested from the device every cycle, in request order. */
  const REQUESTED: seq<int> :=
    [GRID_MODE, ENERGY_NORMAL, ENERGY_REVERSE, INSTANT_POWER, HOUSEHOLD_POWER, GRID_ENERGY]

  const INDEPENDENT_MODE: int := 1

  /** Topic suffixes, in publication order; each topic is the configured base path followed by one. */
  const SUFFIXES: seq<string> := [
    "grid_connected",
    "Measured_cumulative_amount_of_electric_energy_normal_direction",
    "Measured_cumulative_amount_of_electric_energy_reverse_direction",
    "Measured_instantaneous_amount_of_electricity",
    "home_energy_from_grid",
    "home_only_energy_consumption",
    "cumulative_energy_normal_direction",
    "cumulative_energy_reverse_direction"
  ]

  type Snapshot = map<int, string>

  /** The exceptions a cycle can raise while decoding: KeyError and ValueError. */
  datatype DecodeError =
    | MissingRegister(epc: int)
    | InvalidLiteral(epc: int, text: string)

  /** What is published: the string "true"/"false" or an integer. */
  datatype Payload = Text(text: string) | Number(value: int)

  datatype Metric = Metric(topic: string, payload: Payload)

  /** Python's `s[i:j]` for 0 <= i <= j: the bounds are clamped to the length of s. */
  function Slice(s: string, i: nat, j: nat): (r: string)
    requires i <= j
    ensures |r| == if j <= |s| then j - i else if i <= |s| then |s| - i else 0
    ensures forall k | 0 <= k < |r| :: r[k] == s[i + k]
  {
    var hi := if j <= |s| then j else |s|;
    var lo := if i <= hi then i else hi;
    s[lo..hi]
  }

  function Lookup(res: Snapshot, epc: int): Result<string, DecodeError> {
    if epc in res then Success(res[epc]) else Failure(MissingRegister(epc))
  }

  /** `int(text, 16)` for the field of register epc. */
  function ParseField(epc: int, text: string): Result<nat, DecodeError> {
    match Parse(text)
    case Some(n) => Success(n)
    case None => Failure(InvalidLiteral(epc, text))
  }

  /** `ctypes.c_uint32(int(text, 16)).value` */
  function Unsigned(epc: int, text: string): (r: Result<int, DecodeError>)
    ensures r.Success? <==> |text| > 0 && IsHexString(text)
    ensures r.Success? ==> r.value == U32(Value(text))
    ensures r.Failure? ==> r.error == InvalidLiteral(epc, text)
  {
    var n :- ParseField(epc, text);
    Success(U32(n))
  }

  /** `ctypes.c_int32(int(text, 16)).value` */
  function Signed(epc: int, text: string): (r: Result<int, DecodeError>)
    ensures r.Success? <==> |text| > 0 && IsHexString(text)
    ensures r.Success? ==> r.value == I32(Value(text))
    ensures r.Failure? ==> r.error == InvalidLiteral(epc, text)
  {
    var n :- ParseField(epc, text);
    Success(I32(n))
  }

  /** Both halves of a packed register can be read; from 8 characters down the second half is empty. */
  predicate PairReadable(text: string) {
    && |Slice(text, 0, 8)| > 0 && IsHexString(Slice(text, 0, 8))
    && |Slice(text, 8, 16)| > 0 && IsHexString(Slice(text, 8, 16))
  }

  /** The half a failing pair read names: the first half unless that one can be read. */
  function FirstBadHalf(text: string): string {
    var first := Slice(text, 0, 8);
    if |first| > 0 && IsHexString(first) then Slice(text, 8, 16) else first
  }

  /** A packed register read as two signed words: characters [0:8] first, then [8:16]. */
  function SignedPair(epc: int, text: string): (r: Result<(int, int), DecodeError>)
    ensures r.Success? <==> PairReadable(text)
    ensures |text| <= 8 ==> r.Failure?
    ensures r.Failure? ==> r.error == InvalidLiteral(epc, FirstBadHalf(text))
  {
    var first :- Signed(epc, Slice(text, 0, 8));
    var second :- Signed(epc, Slice(text, 8, 16));
    Success((first, second))
  }

  /** A packed register read as two unsigned words: characters [0:8] first, then [8:16]. */
  function UnsignedPair(epc: int, text: string): (r: Result<(int, int), DecodeError>)
    ensures r.Success? <==> PairReadable(text)
    ensures |text| <= 8 ==> r.Failure?
    ensures r.Failure? ==> r.error == InvalidLiteral(epc, FirstBadHalf(text))
  {
    var first :- Unsigned(epc, Slice(text, 0, 8));
    var second :- Unsigned(epc, Slice(text, 8, 16));
    Success((first, second))
  }

  /** The grid_connected payload: "false" exactly in independent (off-grid) mode. */
  function GridConnected(mode: int): (r: string)
    ensures r == "true" || r == "false"
    ensures r == "false" <==> mode == INDEPENDENT_MODE
  {
    if mode == INDEPENDENT_MODE then "false" else "true"
  }

  /**
   * One cycle's decode: the fields are read in the order the source reads
   * them, and the first exception stops the cycle; otherwise the eight
   * metrics in publication order.
   */
  function Derive(basePath: string, res: Snapshot): (r: Result<seq<Metric>, DecodeError>)
    ensures r.Success? ==> |r.value| == |SUFFIXES|
    ensures r.Success? ==> forall i | 0 <= i < |SUFFIXES| :: r.value[i].topic == basePath + SUFFIXES[i]
  {
    var e0Text :- Lookup(res, ENERGY_NORMAL);
    var e0 :- Unsigned(ENERGY_NORMAL, e0Text);
    var e3Text :- Lookup(res, ENERGY_REVERSE);
    var e3 :- Unsigned(ENERGY_REVERSE, e3Text);
    var e7Text :- Lookup(res, INSTANT_POWER);
    var e7 :- Signed(INSTANT_POWER, e7Text);
    var modeText :- Lookup(res, GRID_MODE);
    var mode :- Signed(GRID_MODE, modeText);
    var f5Text :- Lookup(res, HOUSEHOLD_POWER);
    var household :- SignedPair(HOUSEHOLD_POWER, f5Text);
    var f6Text :- Lookup(res, GRID_ENERGY);
    var grid :- UnsignedPair(GRID_ENERGY, f6Text);
    Success([
      Metric(basePath + SUFFIXES[0], Text(GridConnected(mode))),
      Metric(basePath + SUFFIXES[1], Number(e0)),
      Metric(basePath + SUFFIXES[2], Number(e3)),
      Metric(basePath + SUFFIXES[3], Number(e7)),
      Metric(basePath + SUFFIXES[4], Number(-household.0)),
      Metric(basePath + SUFFIXES[5], Number(household.1)),
      Metric(basePath + SUFFIXES[6], Number(grid.0)),
      Metric(basePath + SUFFIXES[7], Number(grid.1))
    ])
  }
}
