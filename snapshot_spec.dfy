/**
 * An independent, table-driven statement of what one polling cycle decodes:
 * which fields are read and in which order, which register and view each
 * published metric comes from, and the properties that follow for Derive.
 */
module PcsSpec {
  import opened Wrappers
  import opened Hex
  import opened Word32
  import opened PcsDecode

  /** A field the cycle reads: a whole register, or the 8-character slice starting at `start`. */
  datatype FieldRef = Whole(epc: int) | Half(epc: int, start: nat)

  /** How a metric views the value of its field. */
  datatype View = GridFlag | UnsignedView | SignedView | NegatedSigned

  datatype Rule = Rule(source: FieldRef, view: View)

  /** The fields in the order the source parses them. */
  const READS: seq<FieldRef> := [
    Whole(ENERGY_NORMAL), Whole(ENERGY_REVERSE), Whole(INSTANT_POWER), Whole(GRID_MODE),
    Half(HOUSEHOLD_POWER, 0), Half(HOUSEHOLD_POWER, 8), Half(GRID_ENERGY, 0), Half(GRID_ENERGY, 8)
  ]

  /** One rule per entry of SUFFIXES, in publication order. */
  const RULES: seq<Rule> := [
    Rule(Whole(GRID_MODE), GridFlag),
    Rule(Whole(ENERGY_NORMAL), UnsignedView),
    Rule(Whole(ENERGY_REVERSE), UnsignedView),
    Rule(Whole(INSTANT_POWER), SignedView),
    Rule(Half(HOUSEHOLD_POWER, 0), NegatedSigned),
    Rule(Half(HOUSEHOLD_POWER, 8), SignedView),
    Rule(Half(GRID_ENERGY, 0), UnsignedView),
    Rule(Half(GRID_ENERGY, 8), UnsignedView)
  ]

  /** The text of a field, or None when its register is absent. */
  function FieldText(res: Snapshot, f: FieldRef): Option<string> {
    if f.epc !in res then None
    else match f
      case Whole(_) => Some(res[f.epc])
      case Half(_, start) => Some(Slice(res[f.epc], start, start + 8))
  }

  /** The exception reading field f raises, if any. */
  function Problem(res: Snapshot, f: FieldRef): Option<DecodeError> {
    match FieldText(res, f)
    case None => Some(MissingRegister(f.epc))
    case Some(t) => if |t| > 0 && IsHexString(t) then None else Some(InvalidLiteral(f.epc, t))
  }

  /** The first exception along a sequence of reads. */
  function FirstProblem(res: Snapshot, fs: seq<FieldRef>): Option<DecodeError> {
    if fs == [] then None
    else if Problem(res, fs[0]).Some? then Problem(res, fs[0])
    else FirstProblem(res, fs[1..])
  }

  /** The number a readable field denotes (0 for a field that is not readable). */
  function Raw(res: Snapshot, f: FieldRef): nat {
    match FieldText(res, f)
    case None => 0
    case Some(t) => if IsHexString(t) then Value(t) else 0
  }

  function Render(view: View, n: nat): Payload {
    match view
    case GridFlag => Text(GridConnected(I32(n)))
    case UnsignedView => Number(U32(n))
    case SignedView => Number(I32(n))
    case NegatedSigned => Number(-I32(n))
  }

  /** The reference cycle: fail with the first problem, or publish one metric per rule. */
  function ByTable(basePath: string, res: Snapshot): Result<seq<Metric>, DecodeError> {
    match FirstProblem(res, READS)
    case Some(e) => Failure(e)
    case None => Success(seq(|RULES|, i requires 0 <= i < |RULES| =>
      Metric(basePath + SUFFIXES[i], Render(RULES[i].view, Raw(res, RULES[i].source)))))
  }

  /** A snapshot every field of which can be read. */
  predicate Readable(res: Snapshot) {
    forall k | 0 <= k < |READS| :: Problem(res, READS[k]).None?
  }

  // ---------------------------------------------------------------------------
  // Derive agrees with the table.

  lemma {:induction false} FirstProblemIsFirst(res: Snapshot, fs: seq<FieldRef>)
    ensures FirstProblem(res, fs).None? <==> forall k | 0 <= k < |fs| :: Problem(res, fs[k]).None?
    ensures FirstProblem(res, fs).Some? ==>
      exists k | 0 <= k < |fs| :: Problem(res, fs[k]) == FirstProblem(res, fs)
        && forall j | 0 <= j < k :: Problem(res, fs[j]).None?
    decreases |fs|
  {
    if fs != [] && Problem(res, fs[0]).None? {
      FirstProblemIsFirst(res, fs[1..]);
      if FirstProblem(res, fs[1..]).Some? {
        var k :| 0 <= k < |fs[1..]| && Problem(res, fs[1..][k]) == FirstProblem(res, fs[1..])
          && forall j | 0 <= j < k :: Problem(res, fs[1..][j]).None?;
        assert Problem(res, fs[k + 1]) == FirstProblem(res, fs);
        assert forall j | 0 <= j < k + 1 :: Problem(res, fs[j]).None? by {
          forall j | 0 <= j < k + 1 ensures Problem(res, fs[j]).None? {
            if j > 0 { assert fs[j] == fs[1..][j - 1]; }
          }
        }
      } else {
        forall k | 0 <= k < |fs| ensures Problem(res, fs[k]).None? {
          if k > 0 { assert fs[k] == fs[1..][k - 1]; }
        }
      }
    }
  }

  lemma UnsignedField(res: Snapshot, f: FieldRef, t: string)
    requires FieldText(res, f) == Some(t)
    ensures Unsigned(f.epc, t).Success? <==> Problem(res, f).None?
    ensures Unsigned(f.epc, t).Failure? ==> Unsigned(f.epc, t).error == Problem(res, f).value
    ensures Unsigned(f.epc, t).Success? ==> Number(Unsigned(f.epc, t).value) == Render(UnsignedView, Raw(res, f))
  {
  }

  lemma SignedField(res: Snapshot, f: FieldRef, t: string)
    requires FieldText(res, f) == Some(t)
    ensures Signed(f.epc, t).Success? <==> Problem(res, f).None?
    ensures Signed(f.epc, t).Failure? ==> Signed(f.epc, t).error == Problem(res, f).value
    ensures Signed(f.epc, t).Success? ==> Signed(f.epc, t).value == I32(Raw(res, f))
  {
  }

  /** The first problem along READS, unrolled. */
  lemma FirstProblemOfReads(res: Snapshot)
    ensures FirstProblem(res, READS) ==
      if Problem(res, READS[0]).Some? then Problem(res, READS[0])
      else if Problem(res, READS[1]).Some? then Problem(res, READS[1])
      else if Problem(res, READS[2]).Some? then Problem(res, READS[2])
      else if Problem(res, READS[3]).Some? then Problem(res, READS[3])
      else if Problem(res, READS[4]).Some? then Problem(res, READS[4])
      else if Problem(res, READS[5]).Some? then Problem(res, READS[5])
      else if Problem(res, READS[6]).Some? then Problem(res, READS[6])
      else Problem(res, READS[7])
  {
    var s1 := READS[1..];
    var s2 := s1[1..];
    var s3 := s2[1..];
    var s4 := s3[1..];
    var s5 := s4[1..];
    var s6 := s5[1..];
    var s7 := s6[1..];
    assert s7[1..] == [];
    assert FirstProblem(res, s7) == Problem(res, READS[7]);
    assert FirstProblem(res, s6) == if Problem(res, READS[6]).Some? then Problem(res, READS[6]) else FirstProblem(res, s7);
    assert FirstProblem(res, s5) == if Problem(res, READS[5]).Some? then Problem(res, READS[5]) else FirstProblem(res, s6);
    assert FirstProblem(res, s4) == if Problem(res, READS[4]).Some? then Problem(res, READS[4]) else FirstProblem(res, s5);
    assert FirstProblem(res, s3) == if Problem(res, READS[3]).Some? then Problem(res, READS[3]) else FirstProblem(res, s4);
    assert FirstProblem(res, s2) == if Problem(res, READS[2]).Some? then Problem(res, READS[2]) else FirstProblem(res, s3);
    assert FirstProblem(res, s1) == if Problem(res, READS[1]).Some? then Problem(res, READS[1]) else FirstProblem(res, s2);
  }

  /** A packed register fails as its two reads in the table do, first half first. */
  lemma PairProblems(res: Snapshot, epc: int)
    requires epc in res
    ensures var first, second := Problem(res, Half(epc, 0)), Problem(res, Half(epc, 8));
      var r, u := SignedPair(epc, res[epc]), UnsignedPair(epc, res[epc]);
      && (r.Failure? <==> first.Some? || second.Some?)
      && (u.Failure? <==> first.Some? || second.Some?)
      && (r.Failure? ==> r.error == (if first.Some? then first.value else second.value))
      && (u.Failure? ==> u.error == (if first.Some? then first.value else second.value))
  {
    var t := res[epc];
    SignedField(res, Half(epc, 0), Slice(t, 0, 8));
    SignedField(res, Half(epc, 8), Slice(t, 8, 16));
    UnsignedField(res, Half(epc, 0), Slice(t, 0, 8));
    UnsignedField(res, Half(epc, 8), Slice(t, 8, 16));
  }

  /** Once the four whole registers are read, Derive fails as the packed reads do. */
  lemma DerivePackedFailure(basePath: string, res: Snapshot)
    requires forall k | 0 <= k < 4 :: Problem(res, READS[k]).None?
    ensures Derive(basePath, res).Failure? <==> FirstProblem(res, READS).Some?
    ensures Derive(basePath, res).Failure? ==> Derive(basePath, res).error == FirstProblem(res, READS).value
  {
    FirstProblemOfReads(res);
    assert Problem(res, READS[0]).None? && Problem(res, READS[1]).None?;
    assert Problem(res, READS[2]).None? && Problem(res, READS[3]).None?;
    UnsignedField(res, Whole(ENERGY_NORMAL), res[ENERGY_NORMAL]);
    UnsignedField(res, Whole(ENERGY_REVERSE), res[ENERGY_REVERSE]);
    SignedField(res, Whole(INSTANT_POWER), res[INSTANT_POWER]);
    SignedField(res, Whole(GRID_MODE), res[GRID_MODE]);
    if HOUSEHOLD_POWER in res {
      PairProblems(res, HOUSEHOLD_POWER);
    }
    if GRID_ENERGY in res {
      PairProblems(res, GRID_ENERGY);
    }
  }

  /** Derive fails exactly as the table's first problem says. */
  lemma DeriveFailureIsFirstProblem(basePath: string, res: Snapshot)
    ensures Derive(basePath, res).Failure? <==> FirstProblem(res, READS).Some?
    ensures Derive(basePath, res).Failure? ==> Derive(basePath, res).error == FirstProblem(res, READS).value
  {
    FirstProblemOfReads(res);
    if Problem(res, READS[0]).Some? {
      if ENERGY_NORMAL in res { UnsignedField(res, READS[0], res[ENERGY_NORMAL]); }
    } else if Problem(res, READS[1]).Some? {
      UnsignedField(res, READS[0], res[ENERGY_NORMAL]);
      if ENERGY_REVERSE in res { UnsignedField(res, READS[1], res[ENERGY_REVERSE]); }
    } else if Problem(res, READS[2]).Some? {
      UnsignedField(res, READS[0], res[ENERGY_NORMAL]);
      UnsignedField(res, READS[1], res[ENERGY_REVERSE]);
      if INSTANT_POWER in res { SignedField(res, READS[2], res[INSTANT_POWER]); }
    } else if Problem(res, READS[3]).Some? {
      UnsignedField(res, READS[0], res[ENERGY_NORMAL]);
      UnsignedField(res, READS[1], res[ENERGY_REVERSE]);
      SignedField(res, READS[2], res[INSTANT_POWER]);
      if GRID_MODE in res { SignedField(res, READS[3], res[GRID_MODE]); }
    } else {
      DerivePackedFailure(basePath, res);
    }
  }

  /** The table's metrics, rule by rule. */
  lemma ByTableMetrics(basePath: string, res: Snapshot)
    requires FirstProblem(res, READS).None?
    ensures ByTable(basePath, res) == Success(TableList(basePath, res))
  {
    var m := ByTable(basePath, res).value;
    var l := TableList(basePath, res);
    assert |m| == |l| == 8;
    assert m[0] == l[0] && m[1] == l[1] && m[2] == l[2] && m[3] == l[3];
    assert m[4] == l[4] && m[5] == l[5] && m[6] == l[6] && m[7] == l[7];
    assert m == l;
  }

  /** The eight metrics of RULES, written out one by one. */
  function TableList(basePath: string, res: Snapshot): seq<Metric> {
    [ Metric(basePath + SUFFIXES[0], Render(GridFlag, Raw(res, Whole(GRID_MODE)))),
      Metric(basePath + SUFFIXES[1], Render(UnsignedView, Raw(res, Whole(ENERGY_NORMAL)))),
      Metric(basePath + SUFFIXES[2], Render(UnsignedView, Raw(res, Whole(ENERGY_REVERSE)))),
      Metric(basePath + SUFFIXES[3], Render(SignedView, Raw(res, Whole(INSTANT_POWER)))),
      Metric(basePath + SUFFIXES[4], Render(NegatedSigned, Raw(res, Half(HOUSEHOLD_POWER, 0)))),
      Metric(basePath + SUFFIXES[5], Render(SignedView, Raw(res, Half(HOUSEHOLD_POWER, 8)))),
      Metric(basePath + SUFFIXES[6], Render(UnsignedView, Raw(res, Half(GRID_ENERGY, 0)))),
      Metric(basePath + SUFFIXES[7], Render(UnsignedView, Raw(res, Half(GRID_ENERGY, 8)))) ]
  }

  /** When every field can be read, each decoder returns the view of the field's number. */
  lemma FieldsDecode(res: Snapshot)
    requires FirstProblem(res, READS).None?
    ensures GRID_MODE in res && ENERGY_NORMAL in res && ENERGY_REVERSE in res
    ensures INSTANT_POWER in res && HOUSEHOLD_POWER in res && GRID_ENERGY in res
    ensures Unsigned(ENERGY_NORMAL, res[ENERGY_NORMAL]) == Success(U32(Raw(res, Whole(ENERGY_NORMAL))))
    ensures Unsigned(ENERGY_REVERSE, res[ENERGY_REVERSE]) == Success(U32(Raw(res, Whole(ENERGY_REVERSE))))
    ensures Signed(INSTANT_POWER, res[INSTANT_POWER]) == Success(I32(Raw(res, Whole(INSTANT_POWER))))
    ensures Signed(GRID_MODE, res[GRID_MODE]) == Success(I32(Raw(res, Whole(GRID_MODE))))
    ensures SignedPair(HOUSEHOLD_POWER, res[HOUSEHOLD_POWER])
      == Success((I32(Raw(res, Half(HOUSEHOLD_POWER, 0))), I32(Raw(res, Half(HOUSEHOLD_POWER, 8)))))
    ensures UnsignedPair(GRID_ENERGY, res[GRID_ENERGY])
      == Success((U32(Raw(res, Half(GRID_ENERGY, 0))), U32(Raw(res, Half(GRID_ENERGY, 8)))))
  {
    FirstProblemIsFirst(res, READS);
    assert Problem(res, READS[0]).None? && Problem(res, READS[1]).None?;
    assert Problem(res, READS[2]).None? && Problem(res, READS[3]).None?;
    assert Problem(res, READS[4]).None? && Problem(res, READS[5]).None?;
    assert Problem(res, READS[6]).None? && Problem(res, READS[7]).None?;
    var t5, t6 := res[HOUSEHOLD_POWER], res[GRID_ENERGY];
    UnsignedField(res, Whole(ENERGY_NORMAL), res[ENERGY_NORMAL]);
    UnsignedField(res, Whole(ENERGY_REVERSE), res[ENERGY_REVERSE]);
    SignedField(res, Whole(INSTANT_POWER), res[INSTANT_POWER]);
    SignedField(res, Whole(GRID_MODE), res[GRID_MODE]);
    SignedField(res, Half(HOUSEHOLD_POWER, 0), Slice(t5, 0, 8));
    SignedField(res, Half(HOUSEHOLD_POWER, 8), Slice(t5, 8, 16));
    UnsignedField(res, Half(GRID_ENERGY, 0), Slice(t6, 0, 8));
    UnsignedField(res, Half(GRID_ENERGY, 8), Slice(t6, 8, 16));
  }

  lemma DeriveOfReadable(basePath: string, res: Snapshot)
    requires FirstProblem(res, READS).None?
    ensures Derive(basePath, res) == Success(TableList(basePath, res))
  {
    FieldsDecode(res);
  }

  /** When every field can be read, Derive publishes the table's metrics. */
  lemma DeriveSuccessIsTable(basePath: string, res: Snapshot)
    requires FirstProblem(res, READS).None?
    ensures Derive(basePath, res) == ByTable(basePath, res)
  {
    DeriveOfReadable(basePath, res);
    ByTableMetrics(basePath, res);
  }

  /** Derive computes exactly the reference cycle. */
  lemma DeriveIsByTable(basePath: string, res: Snapshot)
    ensures Derive(basePath, res) == ByTable(basePath, res)
  {
    DeriveFailureIsFirstProblem(basePath, res);
    if FirstProblem(res, READS).None? {
      DeriveSuccessIsTable(basePath, res);
    }
  }
}
