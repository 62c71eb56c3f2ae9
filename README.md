# docopt_fish value types, in Dafny

docopt_fish turns a docopt usage text into an argument parser and matches
argv against it. Its public header declares a few value types whose
behaviour is stated in doc comments; this project models those and proves
what the comments promise:

- `range_t`, a `{start, length}` span of the usage text with `end()`,
  `empty()`, `==`, `!=` and an in-place `merge` (module `Ranges`). The
  struct is the class `Ranges.Range`; its value is the datatype
  `Ranges.Span`. `size_t` is a natural below 2^64 (module `CTypes`), so the
  overflow on which `end()` dies is an explicit precondition.
- `base_argument_t`, a `{count, values}` record with `value()` (module
  `Arguments`). `count` is a 32-bit `unsigned int`. The string type is an
  abstract `seq<char>`.
- the parse flags `flag_generate_empty_args` and
  `flag_resolve_unambiguous_prefixes`, single bits of an `unsigned int`
  (`bv32`) combined with `|` (module `ParseFlags`), and the
  `argument_status_t` enumeration (`Arguments.ArgumentStatus`).

The indices a range covers are the half-open interval `[start, start +
length)` (`Ranges.Covered`). The header's promise for `merge` is that the
receiver becomes the smallest range holding every index of either operand.
This is stated as `IsSmallestCover`, which is independent of how `Merged`
computes its result. The proofs show that `Merged` satisfies it, and that
any non-empty range satisfying it equals `Merged`.

The bodies of `end`, `empty`, `==`, `!=` and `merge` are not in the header.
Where the doc comment leaves a case open, the model decides it as follows:

- `merge` with an empty `rhs` keeps the receiver as it is, even when the
  receiver is empty too ("Empty ranges are discarded").
- `merge` of a non-empty `rhs` into an empty receiver copies `rhs`.
- `merge` of two non-empty ranges requires both ends to fit a `size_t`.
  It works through `end()`, which dies on overflow.
- `==` compares `start` and `length`.

## Model

| member | source | states |
|---|---|---|
| `ParseFlags.Combine` | docopt/docopt_fish.h:8-17 | or-ing flag words sets each of the two flags exactly when either operand sets it |
| `ParseFlags.FlagsAreDistinctBits` | docopt/docopt_fish.h:8-16 | each flag is a single bit, the two bits differ, and `flags_default` sets neither |
| `ParseFlags.FlagsIndependent` | docopt/docopt_fish.h:11-15 | adding one flag to any word sets it and leaves the other flag as it was |
| `Ranges.Range.constructor` | docopt/docopt_fish.h:30 | the default range has start 0 and length 0 and is empty |
| `Ranges.Range.Init` | docopt/docopt_fish.h:31 | the two-argument constructor stores the given start and length |
| `Ranges.Range.End` | docopt/docopt_fish.h:33-34 | needs start + length to fit a size_t; the result is one past the last covered index: an index is covered iff start <= i < end, and end == start iff the range is empty |
| `Ranges.Range.Empty` | docopt/docopt_fish.h:36-37 | empty iff the range covers no index |
| `Ranges.Range.Equals` | docopt/docopt_fish.h:39-40 | two ranges are equal iff they have the same start and cover the same indices |
| `Ranges.Range.NotEquals` | docopt/docopt_fish.h:39-41 | `!=` is the negation of `==` for every pair of ranges |
| `Ranges.Range.Merge` | docopt/docopt_fish.h:43-44 | the receiver becomes `Merged(old value, rhs)`, the smallest range containing every index of either range; an empty rhs leaves the receiver unchanged; a non-empty rhs merged into an empty receiver replaces it |
| `Ranges.Merged` | docopt/docopt_fish.h:43-44 | empty operands are discarded; the result is empty only when both operands are; when neither operand's end overflows, neither does the result's |
| `Ranges.MergedIsSmallestCover` | docopt/docopt_fish.h:43-44 | the merged range contains both operands and lies within every range that contains both |
| `Ranges.SmallestCoverIsMerged` | docopt/docopt_fish.h:43-44 | every non-empty range with that property is the merged range, so the property determines merge |
| `Ranges.MergeSelf` | docopt/docopt_fish.h:43-44 | `r.merge(r)` leaves `r` unchanged |
| `Ranges.MergeCommutes` | docopt/docopt_fish.h:43-44 | unless both operands are empty, the order of the operands does not matter |
| `Ranges.MergeDisjoint` | docopt/docopt_fish.h:43-44 | merging two disjoint ranges covers both of them and the gap between them, from the first start to the second end |
| `Arguments.Value` | docopt/docopt_fish.h:85-88 | `value()` yields the first captured value iff there is one; on an empty `values` it fails with out_of_range |
| `Arguments.DefaultArgumentHasNoValue` | docopt/docopt_fish.h:90-91 | a default-constructed argument has count 0, no values, and `value()` fails on it |
| `Arguments.SingleValue` | docopt/docopt_fish.h:82-88 | an argument with a single value gives that value back, whatever its count |

## Left out

- `argument_parser_t::create`, `validate_arguments` and the destructor: they delegate to `docopt_impl`, which the header only declares. docopt_impl is not part of this model, and neither are the tokenizer, grammar parser and matcher it holds.
- `docopt_parse` and `docopt_wparse`: they are one-shot wrappers over that same implementation.
- `error_t`: a plain record with no behaviour.
- The `string_t` template parameter and its `std::string`/`std::wstring` instances: text is an abstract `seq<char>`.
- The fatal abort of `end()` on overflow is a precondition, not a modelled crash.
- How the matcher fills `count` and `values` (one increment per occurrence, the default value kept with count 0): that happens in docopt_impl.
