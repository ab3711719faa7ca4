/**
 * `epc2str`: the human-readable name of an ECHONET Lite property code (EPC)
 * of an object of group `gc` and class `cc`. The library's super-class table
 * is tried first, then its group -> class -> code table; a code found in
 * neither is "Unknown". The two tables are parameters of the model.
 */
module EpcNames {
  import opened Wrappers

  /** Property names shared by every object class (the super class). */
  type SuperTable = map<int, string>

  /** Property names per class group and class. */
  type CodeTable = map<int, map<int, map<int, string>>>

  const UNKNOWN: string := "Unknown"

  /** `code[gc][cc][pc]`, or None where any of the three subscripts raises KeyError. */
  function ClassEntry(code: CodeTable, gc: int, cc: int, pc: int): (r: Option<string>)
    ensures r.Some? <==> gc in code && cc in code[gc] && pc in code[gc][cc]
  {
    if gc !in code then None
    else if cc !in code[gc] then None
    else if pc !in code[gc][cc] then None
    else Some(code[gc][cc][pc])
  }

  /** Total: there is no input for which the lookup fails. */
  function EpcToString(super: SuperTable, code: CodeTable, gc: int, cc: int, pc: int): (name: string)
    ensures pc in super ==> name == super[pc]
    ensures pc !in super && ClassEntry(code, gc, cc, pc).None? ==> name == UNKNOWN
  {
    if pc in super then super[pc]
    else match ClassEntry(code, gc, cc, pc)
      case Some(n) => n
      case None => UNKNOWN
  }

  /** A code of the super class has its super-class name whatever the group, class and class table. */
  lemma SuperTableWins(super: SuperTable, code: CodeTable, code': CodeTable,
                       gc: int, cc: int, gc': int, cc': int, pc: int)
    requires pc in super
    ensures EpcToString(super, code, gc, cc, pc) == super[pc]
    ensures EpcToString(super, code, gc, cc, pc) == EpcToString(super, code', gc', cc', pc)
  {
  }

  /** Otherwise a code present at all three levels of the class table has that name. */
  lemma ClassTableFallback(super: SuperTable, code: CodeTable, gc: int, cc: int, pc: int)
    requires pc !in super
    requires gc in code && cc in code[gc] && pc in code[gc][cc]
    ensures EpcToString(super, code, gc, cc, pc) == code[gc][cc][pc]
  {
  }

  /** A code missing from the super table and from the class table at any level is "Unknown". */
  lemma MissingIsUnknown(super: SuperTable, code: CodeTable, gc: int, cc: int, pc: int)
    requires pc !in super
    requires gc !in code || cc !in code[gc] || pc !in code[gc][cc]
    ensures EpcToString(super, code, gc, cc, pc) == UNKNOWN
  {
  }

  /** Every name is a table entry or "Unknown". */
  lemma NameComesFromTables(super: SuperTable, code: CodeTable, gc: int, cc: int, pc: int)
    ensures var name := EpcToString(super, code, gc, cc, pc);
      || name == UNKNOWN
      || (pc in super && name == super[pc])
      || (gc in code && cc in code[gc] && pc in code[gc][cc] && name == code[gc][cc][pc])
  {
  }

  /** No table entry is spelled "Unknown". */
  predicate NoUnknownEntry(super: SuperTable, code: CodeTable) {
    && (forall p | p in super :: super[p] != UNKNOWN)
    && (forall g, c, p | g in code && c in code[g] && p in code[g][c] :: code[g][c][p] != UNKNOWN)
  }

  /** With tables that never use the name "Unknown", "Unknown" means exactly that the code was not found. */
  lemma UnknownExactlyWhenNotFound(super: SuperTable, code: CodeTable, gc: int, cc: int, pc: int)
    requires NoUnknownEntry(super, code)
    ensures EpcToString(super, code, gc, cc, pc) == UNKNOWN
      <==> pc !in super && !(gc in code && cc in code[gc] && pc in code[gc][cc])
  {
    if pc in super {
      assert super[pc] != UNKNOWN;
    } else if gc in code && cc in code[gc] && pc in code[gc][cc] {
      assert code[gc][cc][pc] != UNKNOWN;
    }
  }
}
