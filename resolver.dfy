/** Addressing-mode resolution of one instruction word in Pass 2. */
module Resolver {
  import opened Wrappers
  import opened Diagnostics
  import opened Syntax
  import opened Symbols

  /** A use-list slot: the imported name and whether an E-mode operand has
      referred to it in this module. */
  datatype Use = Use(sym: string, used: bool)

  /** The outcome of resolving one word: the memory-map entry, and the use
      list and symbol entries as they are afterwards. */
  datatype Resolution = Resolution(info: MemInfo, uses: seq<Use>, table: map<string, SymInfo>)

  function Opcode(instr: nat): nat { instr / 1000 }

  function Operand(instr: nat): nat { instr % 1000 }

  /** Resolves word `instr` under `mode`, in a module of `size` instructions
      at base `base`, against its use list and the symbol table. Only the
      slot an E-mode operand names, and the entry of the symbol in it, are
      touched, and then only to be marked used. */
  function Resolve(mode: char, instr: nat, base: nat, size: nat, uses: seq<Use>,
                   table: map<string, SymInfo>): (r: Resolution)
    requires IsMode(mode)
  {
    var opcode, operand := Opcode(instr), Operand(instr);
    if opcode >= 10 then
      Resolution(MemInfo(9999, Some(if mode == 'I' then IllegalImmediate else IllegalOpcode), ""), uses, table)
    else if mode == 'R' then
      if operand >= size then Resolution(MemInfo(opcode * 1000 + base, Some(RelativeTooBig), ""), uses, table)
      else Resolution(MemInfo(instr + base, None, ""), uses, table)
    else if mode == 'E' then
      if operand >= |uses| then Resolution(MemInfo(instr, Some(ExternalTooBig), ""), uses, table)
      else
        var sym := uses[operand].sym;
        var uses' := uses[operand := Use(sym, true)];
        if sym in table then
          Resolution(MemInfo(opcode * 1000 + table[sym].val, None, sym), uses', table[sym := table[sym].(used := true)])
        else
          Resolution(MemInfo(opcode * 1000, Some(Undefined), sym), uses', table)
    else if mode == 'A' then
      if operand >= MachineSize then Resolution(MemInfo(opcode * 1000, Some(AbsoluteTooBig), ""), uses, table)
      else Resolution(MemInfo(instr, None, ""), uses, table)
    else
      Resolution(MemInfo(instr, None, ""), uses, table)
  }

  /** Only the slot an E-mode operand names, and the entry of the symbol in
      it, are touched, and then only to be marked used; the opcode check
      comes first. */
  lemma ResolveFrame(mode: char, instr: nat, base: nat, size: nat, uses: seq<Use>, table: map<string, SymInfo>)
    requires IsMode(mode)
    ensures var r := Resolve(mode, instr, base, size, uses, table);
            && |r.uses| == |uses|
            && (forall i :: 0 <= i < |uses| ==> r.uses[i].sym == uses[i].sym)
            && (forall i :: 0 <= i < |uses| && r.uses[i] != uses[i] ==>
                  mode == 'E' && i == Operand(instr) && Opcode(instr) < 10 && r.uses[i].used)
            && (r.info.err == Some(IllegalImmediate) || r.info.err == Some(IllegalOpcode) <==> Opcode(instr) >= 10)
            && r.table.Keys == table.Keys
            && (forall s :: s in table && r.table[s] != table[s] ==>
                  r.table[s] == table[s].(used := true) && mode == 'E' && s == r.info.sym)
  {
  }

  /** An E-mode word with a valid opcode refers to use-list slot `slot`. */
  predicate Refers(ins: Instr, slot: nat)
  {
    ins.mode == 'E' && Opcode(ins.word) < 10 && Operand(ins.word) == slot
  }

  /** Two use lists that name the same symbols in the same slots. */
  predicate SameNames(u: seq<Use>, u': seq<Use>)
  {
    |u| == |u'| && forall i :: 0 <= i < |u| ==> u[i].sym == u'[i].sym
  }

  /** Two symbol tables with the same names and values (flags aside). */
  predicate SameValues(t: map<string, SymInfo>, t': map<string, SymInfo>)
  {
    t.Keys == t'.Keys && forall s :: s in t ==> t[s].val == t'[s].val
  }

  lemma SameNamesTrans(u: seq<Use>, u': seq<Use>, u'': seq<Use>)
    requires SameNames(u, u') && SameNames(u', u'')
    ensures SameNames(u, u'')
  {
  }

  lemma SameValuesTrans(t: map<string, SymInfo>, t': map<string, SymInfo>, t'': map<string, SymInfo>)
    requires SameValues(t, t') && SameValues(t', t'')
    ensures SameValues(t, t'')
  {
  }

  /** Resolution leaves names and values alone, and the word it produces
      depends on them only: the used flags of the slots and the symbols do
      not change it. */
  lemma ResolveIgnoresFlags(mode: char, instr: nat, base: nat, size: nat,
                            uses: seq<Use>, table: map<string, SymInfo>,
                            uses': seq<Use>, table': map<string, SymInfo>)
    requires IsMode(mode) && SameNames(uses, uses') && SameValues(table, table')
    ensures var r := Resolve(mode, instr, base, size, uses, table);
            && r.info == Resolve(mode, instr, base, size, uses', table').info
            && SameNames(uses, r.uses) && SameValues(table, r.table)
  {
    var r := Resolve(mode, instr, base, size, uses, table);
    forall s | s in table ensures table[s].val == r.table[s].val {
      if r.table[s] != table[s] {
        assert r.table[s] == table[s].(used := true);
      }
    }
  }

  /** A slot ends up marked used exactly when it already was, or the word
      refers to it. */
  lemma ResolveMarksUse(mode: char, instr: nat, base: nat, size: nat,
                        uses: seq<Use>, table: map<string, SymInfo>, slot: nat)
    requires IsMode(mode) && slot < |uses|
    ensures Resolve(mode, instr, base, size, uses, table).uses[slot].used
            <==> uses[slot].used || Refers(Instr(mode, instr), slot)
  {
  }

  /** A defined symbol ends up marked used exactly when it already was, or
      the word refers to a slot that names it. */
  lemma ResolveMarksSymbol(mode: char, instr: nat, base: nat, size: nat,
                           uses: seq<Use>, table: map<string, SymInfo>, s: string)
    requires IsMode(mode) && s in table
    ensures Resolve(mode, instr, base, size, uses, table).table[s].used
            <==> table[s].used || (Refers(Instr(mode, instr), Operand(instr)) && Operand(instr) < |uses|
                                   && uses[Operand(instr)].sym == s)
  {
  }

  lemma OpcodeOperandOf(op: nat, v: nat)
    requires v < 1000
    ensures Opcode(op * 1000 + v) == op && Operand(op * 1000 + v) == v
  {
  }

  /** With a module that fits the machine and symbol values inside it, a
      word with a valid opcode keeps that opcode, and its operand becomes an
      absolute address: a relative one lands inside its module, an external
      one on the symbol's value, an absolute one inside the machine. */
  lemma ResolveKeepsOpcode(mode: char, instr: nat, base: nat, size: nat,
                           uses: seq<Use>, table: map<string, SymInfo>)
    requires IsMode(mode) && Opcode(instr) < 10 && base + size <= MachineSize
    requires forall s :: s in table ==> 0 <= table[s].val <= MachineSize
    ensures var r := Resolve(mode, instr, base, size, uses, table);
            && r.info.val >= 0 && Opcode(r.info.val) == Opcode(instr)
            && (mode == 'R' && r.info.err.None? ==> base <= Operand(r.info.val) < base + size)
            && (mode == 'E' && r.info.err.None? ==> r.info.sym in table && Operand(r.info.val) == table[r.info.sym].val)
            && (mode == 'A' ==> Operand(r.info.val) < MachineSize)
  {
    var r := Resolve(mode, instr, base, size, uses, table);
    var op, operand := Opcode(instr), Operand(instr);
    assert instr == op * 1000 + operand;
    if mode == 'R' {
      if operand >= size {
        OpcodeOperandOf(op, base);
      } else {
        assert r.info.val == op * 1000 + (operand + base);
        OpcodeOperandOf(op, operand + base);
      }
    } else if mode == 'E' {
      if operand < |uses| {
        var sym := uses[operand].sym;
        if sym in table {
          OpcodeOperandOf(op, table[sym].val);
        } else {
          OpcodeOperandOf(op, 0);
        }
      }
    } else if mode == 'A' {
      if operand >= MachineSize {
        OpcodeOperandOf(op, 0);
      }
    }
  }
}
