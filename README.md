# Nichicon PCS to MQTT bridge: register decoding

This project models the decoding layer of the bridge that polls a Nichicon
multi-input power conditioning system (PCS) over ECHONET Lite and publishes
its readings over MQTT. It covers two pure parts of `NichiconPCS2MQTT.py`:

- one polling cycle, as a function. It takes the register snapshot returned
  by the batch read of EPCs 0xD0, 0xE0, 0xE3, 0xE7, 0xF5 and 0xF6 and gives
  either the eight (topic, payload) pairs handed to the MQTT client or the
  exception that stops the cycle. Each field is read with `int(text, 16)` and
  viewed through `ctypes.c_uint32` or `ctypes.c_int32`. The packed registers
  0xF5 and 0xF6 are cut into the Python slices `[0:8]` and `[8:16]`. The
  grid flag comes from 0xD0, and the first half of 0xF5 is published negated;
- `epc2str`, the name lookup for a property code. It tries the super-class
  table first, then the group → class → code table, and falls back to
  "Unknown". Both tables are parameters.

Files and modules:

- `wrappers.dfy` (`Wrappers`): `Option` and `Result`.
- `hex.dfy` (`Hex`): hex digit strings and their values, with the upper-case
  encoder `Encode` as the inverse of parsing.
- `word32.dfy` (`Word32`): the unsigned and two's-complement 32-bit views
  of an unbounded integer.
- `snapshot.dfy` (`PcsDecode`): the snapshot, the field decoders and
  `Derive`, the cycle itself. Its steps follow the source line by line.
- `snapshot_spec.dfy` (`PcsSpec`): a reference definition built from two
  tables. `READS` lists the fields in the order the source parses them.
  `RULES` gives the field and the 32-bit view of each published metric. The
  module proves that `Derive` equals this reference.
- `properties.dfy` (`PcsProperties`): the properties the bridge promises,
  stated for `Derive` and the field decoders.
- `epc.dfy` (`EpcNames`): `epc2str`.

Behaviour of the code worth knowing:

- Only the packed registers are sliced. A whole-register field of any
  length is accepted and reduced modulo 2^32, so a field longer than 8
  digits is silently cut to its low 32 bits.
- A packed register of 9 to 15 characters is accepted, with a shorter
  second half. Characters beyond the 16th are ignored. Only a packed
  register of at most 8 characters fails, because its second half is empty.
- The first signed half of 0xF5 is published negated as
  `home_energy_from_grid`, and the second half as
  `home_only_energy_consumption`. The comments beside that code describe the
  halves the other way round (household-only power first, power bought from
  the grid second); the model publishes what the code publishes.

## Model

| member | source | states |
|---|---|---|
| `Hex.Value` | NichiconPCS2MQTT.py:166 | the value of a k-digit hex string is below 16^k |
| `Hex.ParseEncode` | NichiconPCS2MQTT.py:166 | parsing the width-digit rendering of any n < 16^width gives n back |
| `Hex.EncodeValue` | NichiconPCS2MQTT.py:166 | an upper-case digit string is exactly the rendering of its own value at its own width |
| `Hex.ValueConcat` | NichiconPCS2MQTT.py:171-175 | the value of a + b is value(a) * 16^\|b\| + value(b) |
| `Hex.SplitValue` | NichiconPCS2MQTT.py:171-175 | cutting a digit string at k gives the quotient and the remainder of its value by 16^(\|s\|-k) |
| `Word32.U32` | NichiconPCS2MQTT.py:166-167 | `c_uint32(n).value` lies in [0, 2^32) and is congruent to n modulo 2^32 |
| `Word32.I32` | NichiconPCS2MQTT.py:168-172 | `c_int32(n).value` lies in [-2^31, 2^31) and is congruent to n modulo 2^32 |
| `Word32.U32Unique` | NichiconPCS2MQTT.py:166-167 | those two properties determine the unsigned view uniquely |
| `Word32.I32Unique` | NichiconPCS2MQTT.py:168-172 | those two properties determine the signed view uniquely |
| `Word32.I32OfU32` | NichiconPCS2MQTT.py:168-172 | the signed view is the unsigned view minus 2^32 when the unsigned view is at least 2^31, and equal to it otherwise |
| `Word32.ViewsOfCongruent` | NichiconPCS2MQTT.py:166-175 | both views depend only on the value modulo 2^32 |
| `Word32.U32OfWord` | NichiconPCS2MQTT.py:166-167 | a value already in [0, 2^32) is left as it is by the unsigned view |
| `PcsDecode.Slice` | NichiconPCS2MQTT.py:171-175 | Python's `s[i:j]` has length j-i clamped to the string and holds the characters of s from i on |
| `PcsDecode.SignedPair` | NichiconPCS2MQTT.py:171-172 | the two signed halves are read exactly when both slices `[0:8]` and `[8:16]` are non-empty hex strings; a register of at most 8 characters always fails; a failure is the ValueError of the first unreadable half |
| `PcsDecode.UnsignedPair` | NichiconPCS2MQTT.py:174-175 | as `SignedPair`, for the two unsigned halves of 0xF6 |
| `PcsDecode.GridConnected` | NichiconPCS2MQTT.py:177-179 | the flag is "true" or "false", and "false" exactly in independent mode (signed value 1) |
| `PcsDecode.Derive` | NichiconPCS2MQTT.py:161-189 | a successful cycle gives exactly 8 metrics, and the i-th topic is the base path followed by the i-th fixed suffix |
| `PcsSpec.FirstProblemIsFirst` | NichiconPCS2MQTT.py:166-175 | the first problem along a read sequence is absent exactly when every read succeeds, and otherwise it is the problem of the earliest failing read |
| `PcsSpec.DeriveFailureIsFirstProblem` | NichiconPCS2MQTT.py:161-175 | the cycle fails exactly when some field in `READS` cannot be read, with the KeyError or ValueError of the first such field in the order the source reads them |
| `PcsSpec.DeriveSuccessIsTable` | NichiconPCS2MQTT.py:166-189 | when every field can be read, the cycle publishes one metric per `RULES` entry, in publication order |
| `PcsSpec.DeriveIsByTable` | NichiconPCS2MQTT.py:161-189 | the cycle equals the table-driven reference on every snapshot |
| `PcsProperties.UnsignedDecode` | NichiconPCS2MQTT.py:166-167 | `c_uint32(int(text, 16))` succeeds exactly when the text is a non-empty hex string (either case), lies in [0, 2^32-1] and equals the parsed value modulo 2^32; otherwise it is a ValueError naming that text |
| `PcsProperties.SignedDecode` | NichiconPCS2MQTT.py:168-172 | a signed decode succeeds exactly when the unsigned one does, lies in [-2^31, 2^31-1], is congruent to the parsed value modulo 2^32 and is the unsigned decode minus 2^32 from 2^31 up; otherwise it is a ValueError naming the text |
| `PcsProperties.UnsignedOfEightDigits` | NichiconPCS2MQTT.py:174-175 | an 8-digit field is read unchanged by the unsigned view |
| `PcsProperties.AllOnesField` | NichiconPCS2MQTT.py:166-172 | "FFFFFFFF" is -1 signed and 4294967295 unsigned |
| `PcsProperties.PackedExample` | NichiconPCS2MQTT.py:171-172 | "00000001FFFFFFFF" decodes as the signed pair (1, -1) |
| `PcsProperties.PackedIsTwoWords` | NichiconPCS2MQTT.py:171-175 | the halves of a 16-digit packed register are the high and low 32-bit words of the number it spells, in either view |
| `PcsProperties.PackedHalvesIndependent` | NichiconPCS2MQTT.py:171-172 | the first half depends only on characters 0-7, the second only on the slice `[8:16]` |
| `PcsProperties.UnsignedHalvesIndependent` | NichiconPCS2MQTT.py:174-175 | the same for the unsigned halves of 0xF6 |
| `PcsProperties.DeriveFollowsRules` | NichiconPCS2MQTT.py:166-189 | each of the 8 published metrics equals the view its rule names, applied to the field its rule names |
| `PcsProperties.GridFlag` | NichiconPCS2MQTT.py:170-179 | `grid_connected` is "true" or "false", and it is "false" exactly when the signed decode of 0xD0 is 1 |
| `PcsProperties.HouseholdSignConvention` | NichiconPCS2MQTT.py:171-187 | `home_energy_from_grid` is the negated first signed half of 0xF5 and lies in [-(2^31-1), 2^31]; `home_only_energy_consumption` is the second half |
| `PcsProperties.GridEnergyHalves` | NichiconPCS2MQTT.py:174-189 | the two cumulative grid energies are the unsigned halves of 0xF6, in order, each in [0, 2^32) |
| `PcsProperties.DeriveFailsOnFirstProblem` | NichiconPCS2MQTT.py:161-199 | a cycle fails exactly when some field is missing (the KeyError of `res[epc]`), empty or not hex, and then with the exception of the first such field in reading order; otherwise all 8 metrics are produced |
| `PcsProperties.MissingRegisterFails` | NichiconPCS2MQTT.py:161-175 | a snapshot lacking any requested register fails (`res[epc]` raises KeyError), with an error about a requested register |
| `PcsProperties.MalformedFieldFails` | NichiconPCS2MQTT.py:166-175 | a field that is empty or holds a non-hex character makes the cycle fail |
| `PcsProperties.DeriveDependsOnRequestedOnly` | NichiconPCS2MQTT.py:166-189 | two snapshots that agree on the six requested registers give the same result |
| `EpcNames.ClassEntry` | NichiconPCS2MQTT.py:31 | `EPC_CODE[gc][cc][pc]` has a value exactly when all three keys are present |
| `EpcNames.EpcToString` | NichiconPCS2MQTT.py:24-33 | the lookup is total; a super-class code gets its super-class name, and a code found nowhere gets "Unknown" |
| `EpcNames.SuperTableWins` | NichiconPCS2MQTT.py:25-28 | a code in the super table gets that name whatever the group, the class and the class table |
| `EpcNames.ClassTableFallback` | NichiconPCS2MQTT.py:30-31 | any other code present at all three levels of the class table gets that entry |
| `EpcNames.MissingIsUnknown` | NichiconPCS2MQTT.py:30-33 | a code absent from the super table and missing at any level of the class table gets "Unknown" |
| `EpcNames.NameComesFromTables` | NichiconPCS2MQTT.py:24-33 | every name is a super-table entry, a class-table entry or "Unknown" |
| `EpcNames.UnknownExactlyWhenNotFound` | NichiconPCS2MQTT.py:24-33 | when no table entry is spelled "Unknown", the result is "Unknown" exactly when the code is found in neither table |

Determinism holds by construction: `Derive` is a function of the base path
and the snapshot. `DeriveDependsOnRequestedOnly` adds that only the six
requested registers matter.

## Left out

- Configuration loading and its exits (lines 37-59). This is file I/O. The
  topic base path (`DataPath`) is a parameter of `Derive`.
- The MQTT client, its callbacks, the connect retry loop and the `publish`
  calls (lines 62-91, 181-193). This is a network library. The model stops at
  the list of (topic, payload) pairs. It does not render integer payloads as
  the decimal text paho sends.
- A publish that raises part-way through the list (lines 192-193). The
  pairs published before it stay published and the rest are skipped. That
  behaviour belongs to the network library and is not modelled.
- The UDP server, discovery, the 300 × 10 ms wait, `getAllPropertyMaps`,
  `getIdentificationInformation`, `Factory` and `pcs.update` (lines 97-151,
  161). These are asynchronous network calls. The snapshot that `update`
  returns is the model's input, taken as a map from EPC to text. A reply
  whose values are not strings is not modelled.
- Building `instance_list` (lines 112-147). It walks the library's
  asynchronously filled state, and its result is never used. `epc2str`,
  which it calls, is modelled.
- The contents of `EPC_SUPER`, `EPC_CODE`, `EOJX_GROUP` and `EOJX_CLASS`.
  These are constants of the ECHONET library. The first two are parameters
  of `EpcToString`.
- The lenient forms `int(s, 16)` also accepts: a `0x` prefix, a sign,
  underscores between digits, surrounding whitespace and non-ASCII digits.
  The model accepts plain ASCII hex digits only and treats everything else
  as a ValueError.
- The `while True` loop itself, its timestamp, the summary `print` and the
  `time.sleep` (lines 158-160, 195-200). These are console I/O and timing.
  The exception the loop catches on line 198 is the `Failure` that `Derive`
  returns.
