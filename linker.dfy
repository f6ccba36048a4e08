/** The linker as a whole: Pass 1 over the input, a rewind, then Pass 2
    with the table Pass 1 built. A parse error ends the run after Pass 1;
    Pass 2 runs only on input that Pass 1 read to its end. */
module Linker {
  import opened Wrappers
  import opened Diagnostics
  import opened Syntax
  import opened Symbols
  import opened Memory
  import opened Scanner
  import opened Linking
  import FirstPass
  import SecondPass

  /** What a run that gets through Pass 1 prints after the Pass 1 warnings:
      the symbol-table listing, Pass 2's memory-map lines and use-list
      warnings in order, then the defined-but-never-used warnings. */
  datatype Report = Report(listing: seq<SymbolLine>, output: seq<Output>, unused: seq<Warning>)

  /** The whole linker on the lines of an input file. The Pass 1 warnings
      are printed whether or not a parse error follows; everything else is
      what Pass1Symbols and LinkFrom give for the modules Parse reads. */
  method Run(input: seq<string>) returns (pass1Warnings: seq<Warning>, r: Result<Report, ParseError>)
    ensures var (mods, err) := Parse(input);
            var (st, ws) := Pass1Symbols(mods);
            && pass1Warnings == ws && (forall s :: s in st.syms ==> s in st.table)
            && (err.Some? ==> r == Err(err.value))
            && (err.None? ==> && r.Ok? && AllValid(mods)
                              && r.value.listing == Listing(st)
                              && var img := LinkFrom(mods, 0, 0, st.table, [], []);
                                 && (forall s :: s in st.syms ==> s in img.table)
                                 && r.value.output == img.out && r.value.unused == UnusedDefs(st.syms, img.table))
  {
    var symTab := new SymTab();
    var memMap := new MemMap();
    var tz := new Tokenizer(input);
    var listing;
    pass1Warnings, listing := FirstPass.Pass1(tz, symTab);
    ghost var mods := Parse(input).0;
    if listing.Err? {
      return pass1Warnings, Err(listing.error);
    }
    assert tz.IsEnd();
    var ok := tz.BackToBeginning();
    assert ok;
    var out, unused := SecondPass.Pass2(tz, symTab, memMap, mods);
    r := Ok(Report(listing.value, out, unused));
  }
}
