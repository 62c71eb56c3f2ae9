/** The parse flags passed to argument matching: single bits of an unsigned int, combined with |. */
module ParseFlags {

  /** parse_flags_t is an unsigned int. */
  type Flags = bv32

  const FlagsDefault: Flags := 0

  /** Generate arguments, with a count of 0, even for values that were not given. */
  const FlagGenerateEmptyArgs: Flags := 1 << 0

  /** Allow long options to be given as an unambiguous prefix. */
  const FlagResolveUnambiguousPrefixes: Flags := 1 << 1

  /** Exactly one bit of the word is set. */
  predicate IsSingleBit(b: Flags)
  {
    b != 0 && b & (b - 1) == 0
  }

  /** The flag bit `flag` is set in `flags`. */
  predicate Has(flags: Flags, flag: Flags)
  {
    flags & flag != 0
  }

  /** Combining flags with bitwise or: the combination asks for exactly what either part asks for. */
  function Combine(a: Flags, b: Flags): (r: Flags)
    ensures Has(r, FlagGenerateEmptyArgs) <==> Has(a, FlagGenerateEmptyArgs) || Has(b, FlagGenerateEmptyArgs)
    ensures Has(r, FlagResolveUnambiguousPrefixes) <==>
              Has(a, FlagResolveUnambiguousPrefixes) || Has(b, FlagResolveUnambiguousPrefixes)
  {
    a | b
  }

  /** The two flags are distinct single bits, and the default sets neither of them. */
  lemma FlagsAreDistinctBits()
    ensures IsSingleBit(FlagGenerateEmptyArgs) && IsSingleBit(FlagResolveUnambiguousPrefixes)
    ensures FlagGenerateEmptyArgs & FlagResolveUnambiguousPrefixes == 0
    ensures !Has(FlagsDefault, FlagGenerateEmptyArgs) && !Has(FlagsDefault, FlagResolveUnambiguousPrefixes)
  {
  }

  /** Each flag can be tested on its own: setting one never sets or clears the other. */
  lemma FlagsIndependent(f: Flags)
    ensures Has(Combine(f, FlagGenerateEmptyArgs), FlagGenerateEmptyArgs)
    ensures Has(Combine(f, FlagGenerateEmptyArgs), FlagResolveUnambiguousPrefixes) <==>
              Has(f, FlagResolveUnambiguousPrefixes)
    ensures Has(Combine(f, FlagResolveUnambiguousPrefixes), FlagResolveUnambiguousPrefixes)
    ensures Has(Combine(f, FlagResolveUnambiguousPrefixes), FlagGenerateEmptyArgs) <==>
              Has(f, FlagGenerateEmptyArgs)
  {
  }
}
