/** The linker's three tiers of diagnostics as structured values: fatal parse
    errors (with coordinates), semantic errors attached to a memory-map or
    symbol-table line, and warnings. The console wording of each is not modelled. */
module Diagnostics {
  import opened Wrappers

  /** Fatal parse errors; declared in the order of their numeric codes 0..6. */
  datatype ParseErrorKind =
    | NumExpected
    | SymExpected
    | AddrExpected
    | SymTooLong
    | TooManyDefInModule
    | TooManyUseInModule
    | TooManyInstr

  /** A fatal parse error at a 1-based line and offset. */
  datatype ParseError = ParseError(kind: ParseErrorKind, line: nat, offset: nat)

  /** Semantic errors; declared in the order of their numeric codes 0..6. */
  datatype LinkError =
    | AbsoluteTooBig
    | RelativeTooBig
    | ExternalTooBig
    | Undefined
    | MultiplyDefined
    | IllegalImmediate
    | IllegalOpcode

  /** Warnings, each naming the 1-based module it concerns. */
  datatype Warning =
    | TooBig(moduleNum: nat, sym: string, val: int, max: int)
    | Redefined(moduleNum: nat, sym: string)
    | UnusedUse(moduleNum: nat, sym: string)
    | UnusedDef(moduleNum: nat, sym: string)

  /** One resolved instruction word: its value, its semantic error if any, and
      the symbol its E-mode operand named (empty for the other modes), which
      an Undefined error message shows. */
  datatype MemInfo = MemInfo(val: int, err: Option<LinkError>, sym: string)
}
