# reduce — a verified model of fraction reduction by divisor enumeration

The program reads lines such as `12 16`. It parses each line into a fraction and prints
the fraction reduced, as `3/4`. This project models the program's core in Dafny and
proves properties of it.

- **Divisor enumeration** (`src/divisors.rs`):
  - `InclusiveRange` is a counting iterator.
  - `DivisorIterator` is a pull iterator over the divisors of a number. Its cursor `last` holds the next divisor to hand out. Each step hands out the cursor, then scans `last + 1 ..= n` for the next value that divides `n`.
  - Both are classes whose `Next` methods update their fields. The scan is a loop over an `InclusiveRange`.
  - The ghost functions `Remaining` and `Outputs` give what each iterator still has to yield. `Range`, `FirstDivisor` and `DivisorsFrom` specify them.
- **Fractions** (`src/fraction.rs`):
  - `Fraction` is a datatype with the two tags `Raw` and `Reduced`. Its members are the constructor `New`, the accessors, tag-blind equality, the `"a/b"` rendering, and `Reduce`.
  - The free function `reduce` is the method `ReduceParts`. It drives two `DivisorIterator`s through an ascending two-pointer intersection. The intersection's external crate appears only through its contract, the function `Intersect` with its lemma. The method keeps the running `max` and divides both parts by it.
  - `ReduceParts` is proved equal to the function `ReducePair`. For positive parts, `ReducePair` is proved to divide by gcd(a, b) and to leave a coprime pair.
  - `FromStr` pulls fields from `SpaceSplit`, a model of `str::split(' ')`, with early returns. It is proved equal to `ParseFraction`, a function over the list of fields.
- **Shared parts:**
  - Rust's `i32` is the subset type `Int32`.
  - `Option` and `Result` are datatypes.
  - Decimal rendering and parsing of an `i32` are stated abstractly and shown to round-trip (module `Text`).
  - The gcd reference definition and the divisibility facts used in the proofs are in module `Arith`.

Reduction is naturally described in terms of the magnitudes of the two parts. The code,
however, hands the signed parts straight to `DivisorIterator::new`
(`src/fraction.rs:99-100`). For a part `n <= 1` the scan range `2 ..= n` is empty,
so the iterator yields `[1]` only. The model follows the code:
- a fraction with a part at most 1, such as `-12/16`, or a fraction with a zero part, keeps its parts;
- such a fraction is still tagged `Reduced`;
- lowest terms are guaranteed only when both parts are positive; `-12/16` comes back as `-12/16`, which is not in lowest terms.

`ReducePairOfAtMostOne`, `ReduceRaw` and `ReduceNegativeTwelveSixteenths` state this.

## Model

| member | source | states |
|---|---|---|
| `DivisorSequence.Range` | src/divisors.rs:49-58 | an inclusive range yields `hi - lo + 1` values `lo, lo+1, …, hi` in order, and none when `lo > hi` |
| `DivisorSequence.InclusiveRange.constructor` | src/divisors.rs:38-43 | the new range holds `current` and `max` and still yields `current ..= max` |
| `DivisorSequence.InclusiveRange.Next` | src/divisors.rs:49-58 | past `max` it yields `None` and leaves `current` alone; otherwise it yields `current` and advances it by exactly one; what is handed out plus what remains is what remained before |
| `DivisorSequence.FirstDivisor` | src/divisors.rs:24 | definition, for `lo >= 1`, of the scan `InclusiveRange::new(lo, hi).filter(n % d == 0).nth(0)`: the first value of `lo ..= hi` that divides `n`, or `None`; its meaning is proved in `FirstDivisorInRange` |
| `DivisorSequence.FirstDivisorInRange` | src/divisors.rs:24 | for `lo >= 1`, `filter(n % d == 0).nth(0)` over `lo ..= hi` finds the least divisor of `n` in the range, and `None` means no value of the range divides `n` |
| `DivisorSequence.DivisorsFrom` | src/divisors.rs:19-28 | definition of what an iterator with cursor `Some(c)` yields: `c`, then what the iterator yields from the next divisor found by the scan, and nothing once the scan finds none; its meaning is proved in `DivisorsFromExact` |
| `DivisorSequence.Divisors` | src/divisors.rs:8-28 | definition of what `DivisorIterator::new(n)` yields: the sequence from cursor 1; its meaning is proved in `DivisorsExact` and `DivisorsOfAtMostOne` |
| `DivisorSequence.DivisorsFromExact` | src/divisors.rs:19-28 | from cursor `c >= 1` the iterator yields `c` first, strictly ascending, then exactly the divisors of `n` above `c` up to `n` |
| `DivisorSequence.DivisorsMembership` | src/divisors.rs:24 | for `n >= 1` a value is yielded exactly when it is a positive divisor of `n` |
| `DivisorSequence.NoneBetweenNeighbours` | src/divisors.rs:24 | in an ascending list that holds every divisor, no divisor lies strictly between two neighbours |
| `DivisorSequence.DivisorsExact` | src/divisors.rs:8-28 | for `n >= 1` the sequence is strictly ascending, starts at 1, ends at `n`, is exactly the set of positive divisors, and skips no divisor |
| `DivisorSequence.DivisorsOfAtMostOne` | src/divisors.rs:20-24 | for `n <= 1` the iterator yields 1 and then nothing |
| `DivisorSequence.DivisorsOfPowerOfTwo` | src/divisors.rs:19-28 | the divisors of 2^k are exactly the powers of two 1, 2, …, 2^k |
| `DivisorSequence.DivisorsOf4096` | src/divisors.rs:66-70 | the divisors of 4096 are the thirteen powers of two from 1 to 4096 |
| `DivisorSequence.DivisorIterator.constructor` | src/divisors.rs:8-13 | a new iterator has cursor `Some(1)` and will yield all divisors of `n` |
| `DivisorSequence.DivisorIterator.Next` | src/divisors.rs:19-28 | each call hands out the head of what is still to come; once exhausted it keeps returning `None` with the cursor `None`; a returned value is below the new cursor, which is at most `n` |
| `DivisorSequence.CollectDivisors` | src/divisors.rs:67 | collecting the iterator gives exactly the divisor sequence |
| `Ordered.Intersect` | src/fraction.rs:101 | definition standing for `AscendingIntersection`: compare the heads, emit and advance both when equal, otherwise drop the smaller head, stop when either side is empty; its contract is proved in `IntersectIsAscendingIntersection` |
| `Ordered.IntersectIsAscendingIntersection` | src/fraction.rs:101 | on strictly ascending inputs the two-pointer merge is strictly ascending and holds exactly the values in both |
| `Ordered.MaxFrom` | src/fraction.rs:103 | the fold behind `max` returns the running maximum or an element of the rest, at least every value seen |
| `Ordered.MaxOf` | src/fraction.rs:103 | `max` is `None` exactly on an empty sequence, and otherwise an element that is at least every element |
| `Ordered.MaxOfMergeStep` | src/fraction.rs:101-103 | one merge step (equal heads emitted, a smaller head skipped) keeps the maximum of what remains |
| `Text.ShowNatRoundTrip` | src/fraction.rs:50 | the decimal digits of a natural number denote that number |
| `Text.ShowInt` | src/fraction.rs:50 | definition of the `Display` rendering of an integer: `-` followed by the digits of the magnitude for a negative value, the digits alone otherwise; its properties are proved in `ParseShowInt`, `ShowIntInjective` and `ShowIntHasNoSeparator` |
| `Text.ParseInt` | src/fraction.rs:61-62 | definition of `str::parse::<i32>`: an optional `+` or `-`, one or more ASCII digits, and a value inside the `i32` range, else `None`; proved to invert `ShowInt` in `ParseShowInt` |
| `Text.ShowIntHasNoSeparator` | src/fraction.rs:50 | the rendering of an integer has neither ' ' nor '/' in it |
| `Text.ParseShowInt` | src/fraction.rs:61-62 | parsing the rendering of an `i32` gives it back |
| `Text.ShowIntInjective` | src/fraction.rs:50 | distinct `i32` values render differently |
| `Text.Fields` | src/fraction.rs:59 | splitting on ' ' gives at least one field and no field contains ' ' |
| `Text.JoinFields` | src/fraction.rs:59 | joining the fields with ' ' gives the line back |
| `Text.FieldsOfJoin` | src/fraction.rs:59 | splitting the join of space-free fields gives those fields back |
| `Text.FirstField` | src/fraction.rs:59-61 | the first field ends at the first space, or is the whole line |
| `Text.SpaceSplit.constructor` | src/fraction.rs:59 | the split iterator starts with all the fields of the line |
| `Text.SpaceSplit.Next` | src/fraction.rs:61-73 | each call hands out the next field, and `None` once all are gone |
| `Fractions.Fraction.New` | src/fraction.rs:14-16 | `new` yields the `Raw` tag with both parts unchanged |
| `Fractions.Fraction.Numerator` | src/fraction.rs:28-32 | definition of `numerator`: the first part, whatever the tag; see `AccessorsReturnParts` |
| `Fractions.Fraction.Denominator` | src/fraction.rs:34-38 | definition of `denominator`: the second part, whatever the tag; see `AccessorsReturnParts` |
| `Fractions.AccessorsReturnParts` | src/fraction.rs:28-38 | `numerator` and `denominator` return the stored parts for either tag |
| `Fractions.Fraction.Reduce` | src/fraction.rs:18-26 | the result is always tagged `Reduced`; a `Reduced` fraction comes back unchanged; a `Raw` one gets the parts of the free `reduce` |
| `Fractions.ReduceIdempotent` | src/fraction.rs:18-26 | `f.reduce().reduce() == f.reduce()`, tag included |
| `Fractions.ReduceRaw` | src/fraction.rs:18-26 | for positive parts the reduced fraction is coprime with the same ratio; with a part at most 1 the parts are kept under the `Reduced` tag |
| `Fractions.CommonDivisorsMembers` | src/fraction.rs:99-101 | the intersection of the two divisor sequences holds exactly the values in both, always contains 1, and holds only positive values |
| `Fractions.CommonDivisors` | src/fraction.rs:99-101 | definition of the ascending intersection of the divisor sequences of the two signed parts; its members are given in `CommonDivisorsMembers` |
| `Fractions.LargestCommonDivisor` | src/fraction.rs:101-104 | `max().unwrap_or(1)` of the common divisors is at least 1, so the division never divides by zero |
| `Fractions.Quot` | src/fraction.rs:106 | `i32` division by a positive divisor truncates toward zero (the remainder has the sign of `a` and is smaller than the divisor), is exact when the divisor divides, and never leaves the `i32` range |
| `Fractions.ReducePair` | src/fraction.rs:98-107 | definition of the free `reduce`: both parts divided, with truncating `i32` division, by the largest common divisor, or by 1 when there is none; its properties are proved in `LargestCommonDivisorIsGcd`, `ReducePairLowestTerms`, `ReducePairOfAtMostOne`, `ReducePairOfCoprime` and `ReducePairIdempotent`, and `ReduceParts` is proved to compute it |
| `Fractions.LargestCommonDivisorIsGcd` | src/fraction.rs:98-107 | for positive parts the largest common divisor found is gcd(a, b) |
| `Fractions.ReducePairLowestTerms` | src/fraction.rs:98-107 | for positive parts `reduce(a, b) == (a / gcd, b / gcd)`, both positive, coprime and in the ratio a : b |
| `Fractions.ReducePairOfAtMostOne` | src/fraction.rs:98-107 | if either part is at most 1, `reduce` returns its input |
| `Fractions.ReducePairOfCoprime` | src/fraction.rs:98-107 | a coprime pair of positive parts is its own reduction |
| `Fractions.ReducePairIdempotent` | src/fraction.rs:98-107 | reducing the result of `reduce` changes nothing |
| `Fractions.ReduceTwelveSixteenths` | src/fraction.rs:114-118 | 12/16 reduces to `Reduced(3, 4)`, equal to `new(3, 4)` |
| `Fractions.ReduceThirteenSixteenths` | src/fraction.rs:120-125 | 13/16 reduces to `Reduced(13, 16)`, equal to `new(13, 16)` |
| `Fractions.ReduceNegativeTwelveSixteenths` | src/fraction.rs:98-107 | -12/16 comes back as `Reduced(-12, 16)`: a negative part is not reduced |
| `Fractions.ReduceParts` | src/fraction.rs:98-107 | walking both divisor iterators in step, keeping the largest common value and dividing by it, gives exactly `ReducePair(a, b)` |
| `Fractions.Fraction.Equals` | src/fraction.rs:41-45 | definition of `eq`: equal numerators and equal denominators, whatever the tags; proved an equivalence in `EqualsIsEquivalence` |
| `Fractions.Fraction.ToString` | src/fraction.rs:47-53 | definition of `fmt`: the numerator, `/`, and the denominator, whatever the tag; proved to agree with `Equals` in `ToStringMatchesEquals` |
| `Fractions.EqualsIsEquivalence` | src/fraction.rs:41-45 | equality is reflexive, symmetric and transitive, and `Raw(n, d)` equals `Reduced(n, d)` |
| `Fractions.ToStringMatchesEquals` | src/fraction.rs:47-53 | the rendering ignores the tag, and two fractions render alike exactly when they are equal |
| `Fractions.ToStringExample` | src/fraction.rs:47-53 | `Reduced(3, 4)` renders as `3/4` and `Raw(-12, 16)` as `-12/16` |
| `Fractions.FromStr` | src/fraction.rs:58-78 | the step-by-step parser with early returns answers exactly what `ParseFraction` does on the list of fields |
| `Fractions.ParseFraction` | src/fraction.rs:58-78 | definition of `from_str` over the fields of the line: parse the first field, else `IntParse`; then the second, missing giving `TooFewParts` and unparsable giving `IntParse`; then a third field gives `TooManyParts`; otherwise `Raw` of the two numbers; its outcomes are characterised in `ParseFractionSucceeds`, `ParseFractionTooFewParts` and `ParseFractionErrors` |
| `Fractions.FieldsOfUnspaced` | src/fraction.rs:59 | a line is a single field exactly when it has no space |
| `Fractions.ParseFractionSucceeds` | src/fraction.rs:58-78 | parsing succeeds exactly on two fields that are both integers, and yields `Raw` of them |
| `Fractions.ParseFractionTooFewParts` | src/fraction.rs:61-71 | `TooFewParts` is returned exactly for a space-free line that is an integer |
| `Fractions.ParseFractionErrors` | src/fraction.rs:61-75 | `TooManyParts` is returned exactly when there are more than two fields and the first two are integers; `IntParse` exactly when the first field is not an integer, or a second field is present and is not one |
| `Fractions.ParseShowPair` | src/fraction.rs:58-78 | the two parts written with one space between them parse back to `Raw` of them |
| `Fractions.ParseFractionCountsFields` | src/fraction.rs:58-78 | `"12 16"` parses; `"12"` is `TooFewParts`; `"12 16 20"` is `TooManyParts` |
| `Fractions.ParseFractionChecksNumbersFirst` | src/fraction.rs:59-69 | `"x"`, `"x 16"`, `"12 x 20"`, `""` and `"12  16"` give `IntParse`: a field is parsed before the number of fields is checked, and an empty line or a doubled space gives an empty field |

## Left out

- `src/main.rs`, the driver, is not modelled. It reads lines from a file or from standard input, trims each line (`src/main.rs:13`), silently drops the lines that fail to parse, and prints the reduced fractions.
- The crate `iter_ord` is not part of this model. `AscendingIntersection` is represented by its contract: the function `Ordered.Intersect`, a two-pointer merge, with `IntersectIsAscendingIntersection`. Its own implementation, and its laziness, are not modelled.
- `Text.ParseInt` is its own definition of integer parsing, not a copy of `str::parse::<i32>`:
  - it accepts exactly an optional `+` or `-` followed by one or more ASCII digits, within the `i32` range;
  - Rust's exact rules are the standard library's, which is not part of this model;
  - the boxed `ParseIntError` carried by `FractionError::IntParse` (`src/fraction.rs:63`, `src/fraction.rs:83`) is dropped, so `IntParse` carries no payload.
- The `Display` implementation of `FractionError` (`src/fraction.rs:88-96`) is not modelled. It forwards the parse error's text, which is the standard library's.
- The `fmt::Formatter` and `write!` machinery is not modelled. Rendering is the pure function `Fraction.ToString`, over an abstract decimal rendering `Text.ShowInt`.
- The derived `Debug` implementations are not modelled. The O(n) cost of each divisor-scan step is not modelled either.
- `DivisorSequence.DivisorIterator.Next`: requires `value < i32::MAX`. With `value == i32::MAX`, the `last + 1` at `src/divisors.rs:24` and the `current += 1` at `src/divisors.rs:55` overflow `i32`: Rust panics in a debug build and wraps in a release build. Neither outcome is modelled.
- `DivisorSequence.InclusiveRange.Next`: requires `current < i32::MAX` whenever it yields a value, for the same reason (`src/divisors.rs:55`).
- `DivisorSequence.CollectDivisors`: requires `n < i32::MAX`, for the overflow of the iterator it drives.
- `Fractions.ReduceParts`: requires both parts below `i32::MAX`, for the overflow of the two iterators it drives.
- `Fractions.Fraction.Reduce`: requires the parts of a `Raw` fraction to be below `i32::MAX`, for the same overflow.
