/**
 * What one polling cycle promises: the 32-bit views of a field, the split of
 * the packed registers, the grid flag and the sign convention of the
 * published metrics, the failure cases, and that the result depends on the
 * requested registers alone.
 */
module PcsProperties {
  import opened Wrappers
  import opened Hex
  import opened Word32
  import opened PcsDecode
  import opened PcsSpec

  lemma EightDigitsAreOneWord()
    ensures Pow16(8) == TWO32
  {
  }

  // ---------------------------------------------------------------------------
  // Single fields

  /** `c_uint32(int(s, 16))`: in [0, 2^32) and the parsed value modulo 2^32. */
  lemma UnsignedDecode(epc: int, text: string)
    ensures Unsigned(epc, text).Success? <==> |text| > 0 && IsHexString(text)
    ensures Unsigned(epc, text).Success? ==>
      var v := Unsigned(epc, text).value;
      0 <= v < TWO32 && v == Value(text) % TWO32
    ensures Unsigned(epc, text).Failure? ==> Unsigned(epc, text).error == InvalidLiteral(epc, text)
  {
  }

  /** `c_int32(int(s, 16))`: in [-2^31, 2^31), and the unsigned view minus 2^32 from 2^31 up. */
  lemma SignedDecode(epc: int, text: string)
    ensures Signed(epc, text).Success? <==> Unsigned(epc, text).Success?
    ensures Signed(epc, text).Success? ==>
      var v, u := Signed(epc, text).value, Unsigned(epc, text).value;
      -TWO31 <= v < TWO31 && v == (if u >= TWO31 then u - TWO32 else u)
    ensures Signed(epc, text).Success? ==> (Value(text) - Signed(epc, text).value) % TWO32 == 0
    ensures Signed(epc, text).Failure? ==> Signed(epc, text).error == InvalidLiteral(epc, text)
  {
    if |text| > 0 && IsHexString(text) {
      I32OfU32(Value(text));
    }
  }

  /** A field of eight digits is read as it stands by the unsigned view. */
  lemma UnsignedOfEightDigits(epc: int, text: string)
    requires |text| == 8 && IsHexString(text)
    ensures Unsigned(epc, text) == Success(Value(text))
  {
    EightDigitsAreOneWord();
    U32OfWord(Value(text));
  }

  /** "FFFFFFFF" is -1 signed and 4294967295 unsigned. */
  lemma AllOnesField(epc: int)
    ensures Signed(epc, "FFFFFFFF") == Success(-1)
    ensures Unsigned(epc, "FFFFFFFF") == Success(4294967295)
  {
    AllDigitsF("FFFFFFFF");
    EightDigitsAreOneWord();
  }

  lemma OneField(epc: int)
    ensures Signed(epc, "00000001") == Success(1)
  {
    var s := "00000001";
    AllDigitsZero(s[..7]);
    assert s[7..] == "1";
    assert Value("1") == 1;
    ValueConcat(s[..7], s[7..]);
    assert s[..7] + s[7..] == s;
  }

  // ---------------------------------------------------------------------------
  // Packed registers

  /** "00000001FFFFFFFF" decodes as the signed pair (1, -1). */
  lemma PackedExample(epc: int)
    ensures SignedPair(epc, "00000001FFFFFFFF") == Success((1, -1))
  {
    var s := "00000001FFFFFFFF";
    assert Slice(s, 0, 8) == "00000001";
    assert Slice(s, 8, 16) == "FFFFFFFF";
    OneField(epc);
    AllOnesField(epc);
  }

  /**
   * The halves of a 16-digit packed register are the high and the low 32-bit
   * words of the 64-bit number it spells.
   */
  lemma PackedIsTwoWords(epc: int, text: string)
    requires |text| == 16 && IsHexString(text)
    ensures UnsignedPair(epc, text) == Success((Value(text) / TWO32, Value(text) % TWO32))
    ensures SignedPair(epc, text) == Success((I32(Value(text) / TWO32), I32(Value(text) % TWO32)))
  {
    EightDigitsAreOneWord();
    SplitValue(text, 8);
    assert Slice(text, 0, 8) == text[..8];
    assert Slice(text, 8, 16) == text[8..];
    U32OfWord(Value(text[..8]));
    U32OfWord(Value(text[8..]));
  }

  /** The first half depends only on characters 0-7 of the register, the second only on 8-15. */
  lemma PackedHalvesIndependent(epc: int, s: string, t: string)
    requires SignedPair(epc, s).Success? && SignedPair(epc, t).Success?
    ensures |s| > 8 && |t| > 8
    ensures s[..8] == t[..8] ==> SignedPair(epc, s).value.0 == SignedPair(epc, t).value.0
    ensures Slice(s, 8, 16) == Slice(t, 8, 16) ==> SignedPair(epc, s).value.1 == SignedPair(epc, t).value.1
  {
    assert |s| > 8 && |t| > 8 by {
      assert |Slice(s, 8, 16)| > 0 && |Slice(t, 8, 16)| > 0;
    }
    assert Slice(s, 0, 8) == s[..8] && Slice(t, 0, 8) == t[..8];
  }

  /** The same for the unsigned reading of 0xF6. */
  lemma UnsignedHalvesIndependent(epc: int, s: string, t: string)
    requires UnsignedPair(epc, s).Success? && UnsignedPair(epc, t).Success?
    ensures |s| > 8 && |t| > 8
    ensures s[..8] == t[..8] ==> UnsignedPair(epc, s).value.0 == UnsignedPair(epc, t).value.0
    ensures Slice(s, 8, 16) == Slice(t, 8, 16) ==> UnsignedPair(epc, s).value.1 == UnsignedPair(epc, t).value.1
  {
    assert |s| > 8 && |t| > 8 by {
      assert |Slice(s, 8, 16)| > 0 && |Slice(t, 8, 16)| > 0;
    }
    assert Slice(s, 0, 8) == s[..8] && Slice(t, 0, 8) == t[..8];
  }

  // ---------------------------------------------------------------------------
  // The published metrics

  /** A successful cycle publishes, for each suffix in order, the metric its rule derives. */
  lemma DeriveFollowsRules(basePath: string, res: Snapshot)
    requires Derive(basePath, res).Success?
    ensures |Derive(basePath, res).value| == |RULES| == |SUFFIXES| == 8
    ensures forall i | 0 <= i < |RULES| ::
      (Derive(basePath, res).value[i]
        == Metric(basePath + SUFFIXES[i], Render(RULES[i].view, Raw(res, RULES[i].source))))
  {
    DeriveIsByTable(basePath, res);
  }

  /** grid_connected is "false" exactly when the signed view of 0xD0 is 1 (independent mode). */
  lemma GridFlag(basePath: string, res: Snapshot)
    requires Derive(basePath, res).Success?
    ensures GRID_MODE in res && IsHexString(res[GRID_MODE])
    ensures var p := Derive(basePath, res).value[0].payload;
      p == Text("false") || p == Text("true")
    ensures Derive(basePath, res).value[0].payload == Text("false")
      <==> Signed(GRID_MODE, res[GRID_MODE]) == Success(INDEPENDENT_MODE)
  {
    DeriveIsByTable(basePath, res);
    FirstProblemIsFirst(res, READS);
    assert READS[3] == Whole(GRID_MODE);
    assert Problem(res, READS[3]).None?;
  }

  /**
   * home_energy_from_grid is the negated first half of 0xF5 and
   * home_only_energy_consumption its second half; negating an unbounded
   * integer moves the range to [-(2^31 - 1), 2^31].
   */
  lemma HouseholdSignConvention(basePath: string, res: Snapshot)
    requires Derive(basePath, res).Success?
    ensures HOUSEHOLD_POWER in res && SignedPair(HOUSEHOLD_POWER, res[HOUSEHOLD_POWER]).Success?
    ensures var (first, second) := SignedPair(HOUSEHOLD_POWER, res[HOUSEHOLD_POWER]).value;
      var m := Derive(basePath, res).value;
      && m[4].payload == Number(-first)
      && m[5].payload == Number(second)
      && -(TWO31 - 1) <= -first <= TWO31
  {
    DeriveIsByTable(basePath, res);
    FirstProblemIsFirst(res, READS);
    assert READS[4] == Half(HOUSEHOLD_POWER, 0) && READS[5] == Half(HOUSEHOLD_POWER, 8);
    assert Problem(res, READS[4]).None? && Problem(res, READS[5]).None?;
  }

  /** The cumulative grid energies are the unsigned halves of 0xF6, in order. */
  lemma GridEnergyHalves(basePath: string, res: Snapshot)
    requires Derive(basePath, res).Success?
    ensures GRID_ENERGY in res && UnsignedPair(GRID_ENERGY, res[GRID_ENERGY]).Success?
    ensures var (normal, reverse) := UnsignedPair(GRID_ENERGY, res[GRID_ENERGY]).value;
      var m := Derive(basePath, res).value;
      && m[6].payload == Number(normal) && m[7].payload == Number(reverse)
      && 0 <= normal < TWO32 && 0 <= reverse < TWO32
  {
    DeriveIsByTable(basePath, res);
    FirstProblemIsFirst(res, READS);
    assert READS[6] == Half(GRID_ENERGY, 0) && READS[7] == Half(GRID_ENERGY, 8);
    assert Problem(res, READS[6]).None? && Problem(res, READS[7]).None?;
  }

  // ---------------------------------------------------------------------------
  // Failure

  /**
   * A cycle fails exactly when some field cannot be read, and then with the
   * exception of the first such field in reading order; it never yields part
   * of the metric list.
   */
  lemma DeriveFailsOnFirstProblem(basePath: string, res: Snapshot)
    ensures Derive(basePath, res).Failure? <==> !Readable(res)
    ensures Derive(basePath, res).Failure? ==>
      exists k | 0 <= k < |READS| ::
        && Problem(res, READS[k]) == Some(Derive(basePath, res).error)
        && forall j | 0 <= j < k :: Problem(res, READS[j]).None?
  {
    DeriveFailureIsFirstProblem(basePath, res);
    FirstProblemIsFirst(res, READS);
  }

  /**
   * A snapshot lacking a requested register fails, with the exception of a
   * requested register read no later than the missing one.
   */
  lemma MissingRegisterFails(basePath: string, res: Snapshot, epc: int)
    requires epc in REQUESTED && epc !in res
    ensures Derive(basePath, res).Failure?
    ensures Derive(basePath, res).error.epc in REQUESTED
  {
    DeriveFailsOnFirstProblem(basePath, res);
    var k := if epc == ENERGY_NORMAL then 0 else if epc == ENERGY_REVERSE then 1
      else if epc == INSTANT_POWER then 2 else if epc == GRID_MODE then 3
      else if epc == HOUSEHOLD_POWER then 4 else 6;
    assert READS[k].epc == epc;
    assert Problem(res, READS[k]).Some?;
    var e := Derive(basePath, res).error;
    var k' :| 0 <= k' < |READS| && Problem(res, READS[k']) == Some(e);
    assert e.epc == READS[k'].epc;
  }

  /** A field that is empty or holds a non-hex character makes the cycle fail. */
  lemma MalformedFieldFails(basePath: string, res: Snapshot, k: nat)
    requires k < |READS| && FieldText(res, READS[k]).Some?
    requires var t := FieldText(res, READS[k]).value; |t| == 0 || !IsHexString(t)
    ensures Derive(basePath, res).Failure?
  {
    DeriveFailsOnFirstProblem(basePath, res);
  }

  // ---------------------------------------------------------------------------
  // Dependence on the snapshot

  /** Two snapshots that agree on the requested registers agree on every read of the table. */
  lemma SameReads(basePath: string, res: Snapshot, res': Snapshot)
    requires forall epc | epc in REQUESTED :: (epc in res <==> epc in res')
    requires forall epc | epc in REQUESTED && epc in res :: res[epc] == res'[epc]
    ensures ByTable(basePath, res) == ByTable(basePath, res')
  {
    forall k | 0 <= k < |READS| ensures FieldText(res, READS[k]) == FieldText(res', READS[k]) {
      assert READS[k].epc in REQUESTED;
    }
    SameFirstProblem(res, res', READS);
    forall i | 0 <= i < |RULES| ensures Raw(res, RULES[i].source) == Raw(res', RULES[i].source) {
      assert RULES[i].source in READS;
    }
    if FirstProblem(res, READS).None? {
      var m, m' := ByTable(basePath, res).value, ByTable(basePath, res').value;
      assert |m| == |m'|;
      forall i | 0 <= i < |m| ensures m[i] == m'[i] {
        assert Raw(res, RULES[i].source) == Raw(res', RULES[i].source);
      }
      assert m == m';
    }
  }

  lemma {:induction false} SameFirstProblem(res: Snapshot, res': Snapshot, fs: seq<FieldRef>)
    requires forall k | 0 <= k < |fs| :: FieldText(res, fs[k]) == FieldText(res', fs[k])
    ensures FirstProblem(res, fs) == FirstProblem(res', fs)
    decreases |fs|
  {
    if fs != [] {
      assert FieldText(res, fs[0]) == FieldText(res', fs[0]);
      SameFirstProblem(res, res', fs[1..]);
    }
  }

  /** Registers that were not requested do not affect the result. */
  lemma DeriveDependsOnRequestedOnly(basePath: string, res: Snapshot, res': Snapshot)
    requires forall epc | epc in REQUESTED :: (epc in res <==> epc in res')
    requires forall epc | epc in REQUESTED && epc in res :: res[epc] == res'[epc]
    ensures Derive(basePath, res) == Derive(basePath, res')
  {
    DeriveIsByTable(basePath, res);
    DeriveIsByTable(basePath, res');
    SameReads(basePath, res, res');
  }
}
