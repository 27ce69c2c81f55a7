# Shamir secret sharing over GF(256), modelled in Dafny

This project models the algebraic core of the `fractus` Shamir secret-sharing repository and
proves its properties.

- **Field.** The field is GF(256), the AES field of FIPS 197 section 4.2 (reduction polynomial
  x^8 + x^4 + x^3 + x + 1).
  - Addition and subtraction are XOR.
  - Multiplication, inverse and division read a 256-entry logarithm table and a doubled
    510-entry exponential table generated by 0x03.
  - Both tables are written out row by row, as in the source.
- **Secret sharing.**
  - The dealer draws one random polynomial per secret byte.
  - The evaluator produces the 255 shares at x = 1..255.
  - Lagrange interpolation at zero recovers the constant terms.
- **The library's `Shamir` facade** validates the threshold and appends a big-endian CRC-32 to
  the secret before splitting. On recovery it checks the shares in a fixed order and then checks
  the checksum.
- **The older top-level `Shamir(u8)`** deals without a checksum. Its `recover` counts distinct
  x-coordinates but interpolates every share it is given.
- **Three pieces of the command-line tool:**
  - the share-set validation and threshold fallback of `recover`;
  - the share-set analysis and sufficiency verdict of `info`;
  - the format detection and `ShareData` conversions of `formats.rs`.

Modules, one per file:

| module | file | models |
|---|---|---|
| `Results` | results.dfy | `Option` and `Result` |
| `GF256Tables` | gf256_tables.dfy | the LOG and EXP tables and the facts read off them |
| `GF256` | gf256.dfy | the field element and its operations, and the field laws |
| `Shares` | share.dfy | `Share`, its accessors and its byte encoding |
| `Poly` | poly.dfy | Horner evaluation, `random_polynomial`, `evaluator`, `interpolate`, `validate_polynomials` |
| `Lagrange` | lagrange.dfy | the proof that interpolation returns the constant terms |
| `ShareSets` | share_sets.dfy | the distinct x-coordinates of a share list |
| `Sharing` | sharing.dfy | `Shamir::new`, `split_with_rng`, `recover` |
| `Legacy` | legacy.dfy | the older `dealer_rng` and `recover` |
| `CliRecover` | cli_recover.dfy | `validate_shares` and the threshold fallback |
| `CliInfo` | cli_info.dfy | `analyze_share_set` and the recovery verdict |
| `Formats` | formats.dfy | `extension`, `detect`, `ShareData` |

Modelling choices:

- **Table product checked independently.** The tables are not trusted. `ExpIsPower` proves that
  EXP[i] is the i-th power of 0x03. "Times 0x03" is computed without any table, as
  b XOR xtime(b) (FIPS 197 section 4.2.1). So the table product is tied to a definition that
  distributes over XOR. Distributivity, associativity and the inverse laws are proved from that.
- **Table reads.** `Log`, `Mul` and `Inverse` read the tables through `Lookup`, a walk up to the
  index. `LookupIsIndex` proves that it returns the entry at that index.
- **Panics become preconditions.**
  - `inverse(0)` and division by zero panic, so `Inverse` and `Div` require a nonzero argument.
  - `interpolate` indexes every share at each byte position of the first share, so `Interpolate`
    requires every share to be at least that long.
- **Randomness and CRC-32 are parameters.**
  - The random number generator is a sequence of draws in 1..255. Each operation returns what is
    left of it.
  - CRC-32 is a function parameter `crc` returning a 32-bit word.
  - The "current time" of `ShareData::new` is a string parameter.
  - `is_base64` is a predicate parameter of `Detect`.
- **Iterators become sequences.** The lazy share iterator is the sequence of all 255 shares.
  `take(n)` is a prefix, and an arbitrary choice of distinct shares is `Pick`.
- **The legacy module's `field` and `poly` submodules** (src/shamir/field.rs and
  src/shamir/poly.rs) are not part of this model. The legacy dealer and `recover` use the
  library's field and polynomial code instead.

## Model

| member | source | states |
|---|---|---|
| GF256Tables.LogInverse | crates/shamir/src/gf256.rs:10-27 | for every nonzero byte a, LOG[a] < 255 and EXP[LOG[a]] = a |
| GF256Tables.ExpStep | crates/shamir/src/gf256.rs:31-66 | every EXP entry after the first is the previous one times the generator 0x03 |
| GF256Tables.ExpPeriodic | crates/shamir/src/gf256.rs:49-65 | the second 255 EXP entries repeat the first 255 |
| GF256Tables.ExpZero | crates/shamir/src/gf256.rs:32 | EXP[0] = 1 |
| GF256.ExpIsPower | crates/shamir/src/gf256.rs:31-66 | EXP[i] is 0x03 to the power i for every i < 510, with the power computed without tables |
| GF256.GeneratorOrder | crates/shamir/src/gf256.rs:49-65 | 0x03 to the power 255 is one, so the exponential table wraps around after 255 entries |
| GF256.NonZeroOrder | crates/shamir/src/gf256.rs:497-513 | every nonzero a multiplied by itself with the table product gives a^255 = 1 (its order divides 255) and a^256 = a |
| GF256.PowerAsRepeat | crates/shamir/src/gf256.rs:507-510 | the n-th table power of a nonzero a is the generator applied n times LOG[a] times |
| GF256.LogIsPower | crates/shamir/src/gf256.rs:10-27 | every nonzero a is 0x03 to the power LOG[a] |
| GF256.ExpOfLog | crates/shamir/src/gf256.rs:10-66 | EXP[LOG[a]] = a for nonzero a |
| GF256.Log | crates/shamir/src/gf256.rs:171-172 | the logarithm of a nonzero element is below 255 |
| GF256.MulByLogs | crates/shamir/src/gf256.rs:171-173 | for nonzero a and b, LOG[a] + LOG[b] < 510, so the product reads inside the EXP table, and it is EXP at that index |
| GF256.Mul | crates/shamir/src/gf256.rs:167-175 | the product is ZERO exactly when an operand is ZERO |
| GF256.MulZero | crates/shamir/src/gf256.rs:221-227 | a * 0 = 0 * a = 0 |
| GF256.MulIsPower | crates/shamir/src/gf256.rs:171-173 | for nonzero a and b the product is 0x03 to the power LOG[a] + LOG[b] |
| GF256.MulAsPow | crates/shamir/src/gf256.rs:167-175 | for nonzero a, a * b is b multiplied by 0x03 LOG[a] times |
| GF256.LogOne | crates/shamir/src/gf256.rs:11 | LOG[1] = 0 |
| GF256.MulOne | crates/shamir/src/gf256.rs:351-356 | ONE is a two-sided identity of multiplication |
| GF256.MulComm | crates/shamir/src/gf256.rs:336-343 | multiplication is commutative |
| GF256.MulAssoc | crates/shamir/src/gf256.rs:345-349 | multiplication is associative |
| GF256.MulDistributes | crates/shamir/src/gf256.rs:367-384 | multiplication distributes over addition on both sides |
| GF256.LeftDistributes | crates/shamir/src/gf256.rs:378-380 | a * (b + c) = a * b + a * c |
| GF256.AddLaws | crates/shamir/src/gf256.rs:280-308 | addition is commutative and associative, ZERO is its identity and every element is its own negative |
| GF256.AddComm | crates/shamir/src/gf256.rs:281-288 | addition is commutative |
| GF256.AddAssoc | crates/shamir/src/gf256.rs:290-294 | addition is associative |
| GF256.AddIdentity | crates/shamir/src/gf256.rs:296-307 | a + 0 = 0 + a = a and a + a = 0 |
| GF256.SubUndoesAdd | crates/shamir/src/gf256.rs:153-159 | subtracting b undoes adding b, and adding b undoes subtracting it |
| GF256.Add | crates/shamir/src/gf256.rs:142-149 | XOR of the bytes; its laws are stated by GF256.AddComm, GF256.AddAssoc, GF256.AddIdentity and GF256.AddLaws |
| GF256.Sub | crates/shamir/src/gf256.rs:152-159 | the same as addition; GF256.SubUndoesAdd states that each undoes the other |
| GF256.Inverse | crates/shamir/src/gf256.rs:100-104 | the inverse of a nonzero element is nonzero and a * inverse(a) = 1 |
| GF256.InverseOfLog | crates/shamir/src/gf256.rs:102-103 | the inverse is EXP[255 - LOG[a]], read at an index from 1 to 255 |
| GF256.InverseUnique | crates/shamir/src/gf256.rs:387-394 | an element has at most one multiplicative inverse |
| GF256.InverseInvolutive | crates/shamir/src/gf256.rs:614-625 | inverse(inverse(a)) = a for nonzero a |
| GF256.InverseInjective | crates/shamir/src/gf256.rs:627-631 | distinct nonzero elements have distinct inverses |
| GF256.InverseOfOne | crates/shamir/src/gf256.rs:397 | inverse(1) = 1 |
| GF256.InverseOfTwo | crates/shamir/src/gf256.rs:398 | inverse(2) = 141 |
| GF256.InverseOfThree | crates/shamir/src/gf256.rs:399 | inverse(3) = 246 |
| GF256.Div | crates/shamir/src/gf256.rs:183-186 | for nonzero b, (a / b) * b = a |
| GF256.DivSelf | crates/shamir/src/gf256.rs:430-434 | a / a = 1 for nonzero a |
| GF256.DivByOne | crates/shamir/src/gf256.rs:424-428 | a / 1 = a |
| GF256.Sum | crates/shamir/src/gf256.rs:189-193 | the XOR fold from ZERO; GF256.SumAppend and Poly.EvaluateAtOne state its value |
| GF256.SumAppend | crates/shamir/src/gf256.rs:189-193 | the XOR fold of a concatenation is the sum of the two folds |
| GF256.Product | crates/shamir/src/gf256.rs:195-199 | the product fold from ONE is ZERO exactly when a factor is ZERO |
| GF256.AddExample | crates/shamir/src/gf256.rs:211 | 3 + 5 = 6 |
| GF256.MulExamples | crates/shamir/src/gf256.rs:206-218 | 3 * 5 = 15 and 2 * 3 = 6 |
| GF256.SquareExamples | crates/shamir/src/gf256.rs:468-470 | 2 * 2 = 4 and 4 * 4 = 16 |
| GF256.LogThree | crates/shamir/src/gf256.rs:11 | LOG[3] = 1: 0x03 is the generator |
| GF256.LogTwo | crates/shamir/src/gf256.rs:11 | LOG[2] = 25 |
| Shares.New | crates/shamir/src/share.rs:18-20 | stores x and y; Shares.AccessorsOfNew states that the accessors give them back |
| Shares.X | crates/shamir/src/share.rs:23-25 | the x-coordinate, stated by Shares.AccessorsOfNew |
| Shares.Y | crates/shamir/src/share.rs:28-30 | the y-values, stated by Shares.AccessorsOfNew |
| Shares.AccessorsOfNew | crates/shamir/src/share.rs:18-30 | `x()` and `y()` return what `new` stored |
| Shares.Len | crates/shamir/src/share.rs:33-35 | the encoded length is at least one |
| Shares.IsEmpty | crates/shamir/src/share.rs:38-40 | a share is empty exactly when its length is one, that is when it has no y-values |
| Shares.Bytes | crates/shamir/src/share.rs:48 | the bytes of the y-values, one per value, in order |
| Shares.Elements | crates/shamir/src/share.rs:62 | the field elements of the bytes, one per byte, in order |
| Shares.ToBytes | crates/shamir/src/share.rs:45-50 | the encoding has length `len()`, starts with x and is x followed by the y bytes |
| Shares.FromBytes | crates/shamir/src/share.rs:56-64 | fails with its message exactly on fewer than 2 bytes; otherwise the share encodes back to the input and is not empty |
| Shares.TryFrom | crates/shamir/src/share.rs:83-85 | fails exactly on fewer than 2 bytes and otherwise decodes the input |
| Shares.DecodeEncode | crates/shamir/src/share.rs:104-112 | decoding the encoding of a share with y-values gives the share back; an empty share's encoding does not decode |
| Shares.EncodeDecode | crates/shamir/src/share.rs:45-64 | encoding the decoded share gives back any input of at least 2 bytes |
| Shares.ShareExamples | crates/shamir/src/share.rs:92-119 | a share with three y-values has length 4 and is not empty; 0 and 1 bytes do not decode, 2 bytes do |
| Legacy.LegacyEncodingExamples | src/shamir/share.rs:9-53 | the legacy encoder and decoder are the library's: x = 1, y = [2, 3] encodes to [1, 2, 3] and decodes back; one byte does not decode |
| Poly.Evaluate | crates/shamir/src/poly.rs:197-205 | Horner's rule from the leading coefficient; Lagrange.EvaluateIsPowerSum, Poly.EvaluateAtZero and Poly.EvaluateAtOne state its value |
| Poly.EvaluateAtZero | crates/shamir/src/poly.rs:197-205 | the empty polynomial is ZERO; otherwise evaluation at zero is the last (constant) coefficient |
| Poly.EvaluateAtOne | crates/shamir/src/poly.rs:197-205 | evaluation at one is the XOR of the coefficients |
| Lagrange.EvaluateIsPowerSum | crates/shamir/src/poly.rs:197-205 | the Horner fold equals the sum of each coefficient times x to the power of its degree |
| Lagrange.CubicExpansion | crates/shamir/src/poly.rs:382-397 | Horner on four coefficients is a*x^3 + b*x^2 + c*x + d |
| Lagrange.HornerExample | crates/shamir/src/poly.rs:385-396 | the Horner value of 3x^3 + 2x^2 + x + 5 at 2 is the expanded sum the test writes out |
| Poly.EvaluateExamples | crates/shamir/src/poly.rs:251-260 | 2x^2 + 3x + 5 is 5 at zero and 4 at one |
| Poly.RandomPolynomial | crates/shamir/src/poly.rs:110-131 | t coefficients for t >= 1 and one for t = 0; the secret is last, the others are the next draws and nonzero; exactly t - 1 draws are consumed |
| Poly.PointOf | crates/shamir/src/poly.rs:160 | the j-th evaluation point is j + 1 |
| Poly.Evaluator | crates/shamir/src/poly.rs:159-168 | 255 shares; share j has x = j + 1 and one y-value per polynomial, polynomial i evaluated at x |
| Poly.BasisFactors | crates/shamir/src/poly.rs:70-77 | the filter keeps at most one factor per share |
| Poly.LagrangeTerms | crates/shamir/src/poly.rs:64-82 | one term per share |
| Poly.LagrangeAtZero | crates/shamir/src/poly.rs:64-82 | the sum of y_j times its basis factors at zero; Lagrange.LagrangeAtNode and Lagrange.LagrangeReproduces state its value |
| Poly.Interpolation | crates/shamir/src/poly.rs:35-50 | one Lagrange value per byte position of the first share; Poly.InterpolationAt and Lagrange.InterpolationRecovers state its value |
| Poly.Interpolate | crates/shamir/src/poly.rs:35-50 | empty input gives no bytes; otherwise as many bytes as the first share has y-values, equal to the interpolation function |
| Poly.InterpolationAt | crates/shamir/src/poly.rs:43-46 | byte i of the result is the Lagrange value at zero for byte position i |
| Poly.ValidatePolynomials | crates/shamir/src/poly.rs:218-243 | an empty list is an error; Ok exactly when every polynomial has the expected length and no longer-than-one polynomial leads with zero; an error names the first offending polynomial |
| Lagrange.EvaluateMulLinear | crates/shamir/src/poly.rs:70-77 | multiplying by the linear factor (x - r) multiplies every value by (z - r) |
| Lagrange.DivisionIdentity | crates/shamir/src/poly.rs:64-82 | p(x) = q(x) * (x - r) + p(r), where q is the synthetic quotient |
| Lagrange.Vanishing | crates/shamir/src/poly.rs:64-82 | a polynomial with no more coefficients than it has distinct roots is zero everywhere |
| Lagrange.BasisAtOwnNode | crates/shamir/src/poly.rs:68-77 | the basis polynomial of share j is one at x_j |
| Lagrange.BasisAtOtherNode | crates/shamir/src/poly.rs:68-77 | the basis polynomial of share j is zero at every other share's x |
| Lagrange.FactorsAtZero | crates/shamir/src/poly.rs:70-77 | the basis factors at zero are x_m / (x_j - x_m), the factors the source multiplies |
| Lagrange.LagrangeAtNode | crates/shamir/src/poly.rs:64-82 | with distinct x-coordinates the Lagrange sum at x_k is y_k |
| Lagrange.LagrangeReproduces | crates/shamir/src/poly.rs:64-82 | if shares with distinct x lie on a polynomial with no more coefficients than shares, the Lagrange value at zero is its constant term |
| Lagrange.InterpolationRecovers | crates/shamir/src/poly.rs:35-50 | interpolating such shares returns the constant terms of all polynomials |
| Lagrange.PickDistinct | crates/shamir/src/poly.rs:159-168 | distinct evaluator positions give shares with distinct x-coordinates and one y-value per polynomial |
| Lagrange.EvaluatorRoundTrip | crates/shamir/src/poly.rs:334-353 | any k distinct evaluator shares of polynomials with at most k coefficients interpolate to their constant terms |
| Lagrange.FirstSharesRoundTrip | crates/shamir/src/poly.rs:313-353 | the first k evaluator shares interpolate to the constant terms |
| Lagrange.InterpolateConstantExample | crates/shamir/src/poly.rs:283-292 | the constant 5 at x = 1, 2 interpolates to [5] |
| Lagrange.InterpolateLine | crates/shamir/src/poly.rs:295-310 | two points of x + c at distinct x interpolate to c |
| Lagrange.InterpolateLinearExample | crates/shamir/src/poly.rs:295-310 | (1, 4) and (2, 7) interpolate to [5] |
| ShareSets.KeysOfDistinct | crates/shamir/src/lib.rs:218-227 | shares with distinct x-coordinates have as many keys as shares |
| ShareSets.KeysWithRepeat | src/shamir/mod.rs:104 | a repeated x-coordinate leaves fewer keys than shares |
| Sharing.New | crates/shamir/src/lib.rs:81-91 | fails with InvalidThreshold exactly at threshold 0; otherwise `threshold()` returns the argument |
| Sharing.Threshold | crates/shamir/src/lib.rs:89-91 | the stored threshold; Sharing.New states that it is the one given |
| Sharing.NewExamples | crates/shamir/src/lib.rs:272-276 | 0 is rejected; 1 and 255 are accepted |
| Sharing.BigEndianRoundTrip | crates/shamir/src/lib.rs:133 | the four big-endian bytes read back as the checksum word |
| Sharing.BigEndianInjective | crates/shamir/src/lib.rs:254-258 | comparing checksum bytes is comparing checksums |
| Sharing.WithChecksum | crates/shamir/src/lib.rs:133-134 | the data is the secret followed by four checksum bytes |
| Sharing.ConsumedIsProduct | crates/shamir/src/lib.rs:137-140 | n polynomials consume n * (t - 1) draws |
| Sharing.BuildPolys | crates/shamir/src/lib.rs:137-140 | one polynomial per byte in order: byte as constant term; the other coefficients of polynomial i are, in order, the draws after the (t - 1) * i consumed before it; the rest of the draws is returned |
| Sharing.SplitWithRng | crates/shamir/src/lib.rs:124-143 | EmptyInput exactly for an empty secret, with no draws used; otherwise the evaluator shares of the polynomials built for secret and checksum, whose coefficients are the draws in order |
| Sharing.SplitDeterministic | crates/shamir/src/lib.rs:124-148 | the same data and the same draws give the same polynomials and so the same shares |
| Sharing.SplitShareShape | crates/shamir/src/lib.rs:133-142 | every split share has x = j + 1 and secret-length + 4 y-values |
| Sharing.ConstantTermsOfSplit | crates/shamir/src/lib.rs:137-140 | the constant terms of the split polynomials are the split data |
| Sharing.StructuralError | crates/shamir/src/lib.rs:213-228 | none exactly when every share passes; otherwise the error of the first share that fails |
| Sharing.StructuralAt | crates/shamir/src/lib.rs:217-227 | the check stops at the first failing share |
| Sharing.AllFine | crates/shamir/src/lib.rs:213-228 | every share passes exactly when all have the first share's length and all x-coordinates differ |
| Sharing.CheckShares | crates/shamir/src/lib.rs:213-228 | the validation loop returns that first error, or none |
| Sharing.Recovery | crates/shamir/src/lib.rs:199-263 | empty input is InsufficientShares(t, 0); success only from at least t valid shares, returning the secret whose data with checksum is the interpolation of the first t |
| Sharing.Recover | crates/shamir/src/lib.rs:199-263 | the method computes that result |
| Sharing.RecoveryStructuralError | crates/shamir/src/lib.rs:217-227 | the first structural error wins over the count and the checksum |
| Sharing.RecoveryTooFew | crates/shamir/src/lib.rs:230-235 | valid shares fewer than t give InsufficientShares(t, count) |
| Sharing.RecoveryAccepts | crates/shamir/src/lib.rs:238-262 | if the first t interpolate to a secret with its checksum, that secret is returned |
| Sharing.ChecksumSplit | crates/shamir/src/lib.rs:250-258 | bytes ending in the checksum of the rest are that rest with its checksum |
| Sharing.RecoveryRejectsChecksum | crates/shamir/src/lib.rs:246-259 | otherwise, too short included, the result is ChecksumMismatch |
| Sharing.SplitRecover | crates/shamir/src/lib.rs:285-299 | after a split at t >= 1, any t or more distinct shares in any order recover the secret |
| Sharing.SplitRecoverFirst | crates/shamir/src/lib.rs:285-299 | the first k shares, t <= k <= 255, recover the secret |
| Sharing.SplitTooFew | crates/shamir/src/lib.rs:302-320 | fewer than t distinct split shares give InsufficientShares(t, count) |
| Sharing.RecoveryAppendedDuplicate | crates/shamir/src/lib.rs:323-337 | appending a copy of the first share gives DuplicateShares with its x |
| Legacy.DealerRng | src/shamir/mod.rs:33-46 | one polynomial per secret byte, no checksum, coefficients taken from the draws in order, the evaluator's shares |
| Legacy.DealtShareShape | src/shamir/mod.rs:38-45 | every dealt share has one y-value per secret byte |
| Legacy.LegacyRecovery | src/shamir/mod.rs:87-114 | a length mismatch is an error; so is no key or fewer keys than the threshold; success interpolates every share given |
| Legacy.Collect | src/shamir/mod.rs:92-107 | the loop fails exactly on a length mismatch and otherwise keeps all keys and every share |
| Legacy.Recover | src/shamir/mod.rs:87-114 | the method computes that result |
| Legacy.ZeroThresholdAccepts | src/shamir/mod.rs:109 | `Shamir(0)` succeeds on any nonempty, length-consistent input |
| Legacy.TooFewDistinct | src/shamir/mod.rs:109-110 | fewer distinct x than the threshold is "Not enough shares" |
| Legacy.RepeatRefused | src/shamir/mod.rs:144-154 | at most t shares with a repeated x are refused |
| Legacy.DealtRefused | src/shamir/mod.rs:136-154 | 254 dealt shares, or 255 with one duplicate, at threshold 255 are refused |
| Legacy.DealRecover | src/shamir/mod.rs:87-114 | any t or more distinct dealt shares recover the secret |
| Legacy.DealRecoverAll | src/shamir/mod.rs:156-162 | all 255 shares at threshold 255 recover the secret |
| Legacy.TwoCopiesInterpolateToZero | src/shamir/mod.rs:112 | two copies of one share interpolate to zero |
| Legacy.DuplicateRecoversZero | src/shamir/mod.rs:104-112 | two copies of a one-byte share recover [0] at threshold 1 |
| Legacy.DuplicateRecoversWrongSecret | src/shamir/mod.rs:104-112 | a dealt share recovers [7], and that share twice recovers [0] |
| Legacy.Dedup | src/shamir/mod.rs:104-105 | keeps one share per x, the same keys, only given shares |
| Legacy.DedupRecovery | src/shamir/mod.rs:87-114 | the same errors as `recover`, and success interpolates one share per x |
| Legacy.CollectDistinct | src/shamir/mod.rs:92-107 | the loop that keeps only the first share per key |
| Legacy.DedupRecover | src/shamir/mod.rs:87-114 | the method computes the deduplicating recovery |
| Legacy.DedupRecoverDealt | src/shamir/mod.rs:87-114 | dealt shares with at least t distinct x, duplicates included, recover the secret |
| CliRecover.FirstLengthMismatch | crates/cli/src/commands/recover.rs:211-216 | the first share whose length differs from the first share's, or none |
| CliRecover.FirstLengthMismatchAt | crates/cli/src/commands/recover.rs:211-216 | the length loop reports the first mismatching share |
| CliRecover.FirstRepeat | crates/cli/src/commands/recover.rs:219-228 | the first share that repeats an earlier x, or none |
| CliRecover.FirstRepeatAt | crates/cli/src/commands/recover.rs:219-228 | the duplicate loop reports the first repeat |
| CliRecover.Validation | crates/cli/src/commands/recover.rs:205-231 | NoShares exactly for empty input; Ok exactly for equal lengths and distinct x; a length error gives the 1-based first mismatch; a duplicate error gives x and the 1-based position of the first repeat |
| CliRecover.ValidateShares | crates/cli/src/commands/recover.rs:205-231 | the two loops compute that result |
| CliRecover.AgreesWithLibrary | crates/cli/src/commands/recover.rs:205-231 | it accepts the same nonempty share lists as the library's check |
| CliRecover.OrderDiffersFromLibrary | crates/cli/src/commands/recover.rs:210-228 | a duplicate before a length mismatch: the tool reports the length, the library the duplicate |
| CliRecover.DefaultThreshold | crates/cli/src/commands/recover.rs:57-62 | the explicit threshold, else the share count cast to a byte; CliRecover.DefaultThresholdAccepted and CliRecover.DefaultThresholdWraps state its value |
| CliRecover.DefaultThresholdAccepted | crates/cli/src/commands/recover.rs:57-62 | an explicit threshold is kept; without one, 1 to 255 shares give their count, which `Shamir::new` accepts |
| CliRecover.DefaultThresholdWraps | crates/cli/src/commands/recover.rs:57-62 | the count is cast to a byte: a multiple of 256 gives 0, which `Shamir::new` rejects, and 257 gives 1 |
| CliInfo.YLength | crates/cli/src/commands/info.rs:156-164 | the common length exactly when there are shares and all lengths agree |
| CliInfo.CountPositive | crates/cli/src/commands/info.rs:167-170 | an x is counted exactly when some share has it |
| CliInfo.CountRepeated | crates/cli/src/commands/info.rs:173-174 | a count above one means two shares share that x |
| CliInfo.CountXs | crates/cli/src/commands/info.rs:167-172 | the map has one entry per distinct x, each with its number of shares, and its size is the number of distinct x |
| CliInfo.DuplicateIssues | crates/cli/src/commands/info.rs:173-180 | one issue with its count for every x counted more than once, no other issue, none twice |
| CliInfo.FirstThreshold | crates/cli/src/commands/info.rs:183-185 | the first recorded threshold, or none if none is recorded |
| CliInfo.InferredThreshold | crates/cli/src/commands/info.rs:183-186 | the first recorded threshold if there is one; with none recorded, the share count modulo 256 |
| CliInfo.AnalyzeShareSet | crates/cli/src/commands/info.rs:148-196 | total and distinct counts, the common length, the threshold (never none), and the length issue first, then the duplicate issues |
| CliInfo.NoDuplicatesIffDistinct | crates/cli/src/commands/info.rs:173-180 | no duplicate issue exactly when all x-coordinates differ |
| CliInfo.Sufficient | crates/cli/src/commands/info.rs:261-272 | unknown without a threshold, else whether the distinct x reach it; CliInfo.VerdictOfAnalysis states it for an analysed set |
| CliInfo.VerdictOfAnalysis | crates/cli/src/commands/info.rs:261-272 | the verdict is always known, and sufficient exactly when the distinct x reach the inferred threshold |
| CliInfo.DistinctSetSufficient | crates/cli/src/commands/info.rs:261-272 | 1 to 255 distinct shares without recorded threshold are sufficient |
| CliInfo.DuplicateNotSufficient | crates/cli/src/commands/info.rs:261-272 | at recorded threshold 3, two distinct shares plus a copy are insufficient |
| CliInfo.WrappedThresholdSufficient | crates/cli/src/commands/info.rs:183-186 | 256 shares without recorded threshold infer threshold 0 and are judged sufficient |
| Formats.Extension | crates/cli/src/formats.rs:26-33 | the file extension of each output format; Formats.ExtensionsDistinct states that they differ |
| Formats.ExtensionsDistinct | crates/cli/src/formats.rs:26-33 | the four formats have four different extensions |
| Formats.TrimBounds | crates/cli/src/formats.rs:38 | only whitespace before and after the trimmed span, and none at its ends |
| Formats.Trim | crates/cli/src/formats.rs:38 | the trimmed text neither starts nor ends with whitespace |
| Formats.TrimPadded | crates/cli/src/formats.rs:38 | trimming whitespace-padded text gives the text back |
| Formats.TrimIdempotent | crates/cli/src/formats.rs:38 | trimming twice is trimming once |
| Formats.Detect | crates/cli/src/formats.rs:37-52 | each outcome exactly when the earlier tests fail and its own holds: JSON for trimmed text in braces; hex for only hex digits and whitespace; then base64 if `is_base64` accepts; otherwise the error; never binary |
| Formats.BlankIsHex | crates/cli/src/formats.rs:42-46 | empty or blank content is hex |
| Formats.HexDigitsDetected | crates/cli/src/formats.rs:42-46 | hex digits with whitespace between and around them are hex whatever `is_base64` says |
| Formats.ObjectDetected | crates/cli/src/formats.rs:40-41 | a padded braced text is JSON |
| Formats.DetectTrimmed | crates/cli/src/formats.rs:38 | detection depends only on the trimmed text |
| Formats.NewShareData | crates/cli/src/formats.rs:81-113 | x and y copied; id, threshold, total and time present exactly with metadata; id truncated to a byte; no description |
| Formats.IntoShare | crates/cli/src/formats.rs:115-123 | x and every y byte become the field elements they name |
| Formats.IntoShareOfNew | crates/cli/src/formats.rs:81-123 | storing a share and converting it back gives the share |
| Formats.ToBytes | crates/cli/src/formats.rs:125-128 | x followed by y |
| Formats.FromBytes | crates/cli/src/formats.rs:130-143 | fails exactly on fewer than 2 bytes with the prefixed message; otherwise x and y from the bytes and no metadata |
| Formats.ToBytesOfFromBytes | crates/cli/src/formats.rs:125-143 | bytes of length 2 or more come back unchanged |
| Formats.FromBytesOfToBytes | crates/cli/src/formats.rs:125-143 | a record with y-bytes comes back with its x and y and without metadata |
| Formats.EmptyRecordLost | crates/cli/src/formats.rs:125-143 | a record without y-bytes encodes to bytes that do not decode |

## Left out

- Random number generation (ChaCha8, `thread_rng`, `Uniform`): the draws are a parameter, so no statistical property is modelled.
- Poly.RandomPolynomial, Sharing.BuildPolys, Sharing.SplitWithRng, Legacy.DealerRng: these require enough draws for all the coefficients, because a real generator never runs out.
- CRC-32 (`crc32fast`) is a parameter. Its bit-level algorithm is not modelled.
- The security claims (fewer than t shares reveal nothing, the collision probability of the checksum) are probabilistic, not functional.
- `split` and `dealer` only call `split_with_rng` and `dealer_rng` with the thread generator, so they are not modelled separately.
- Lazy iterators are modelled as the finite sequence of 255 shares and its prefixes. Ownership and cloning are not modelled.
- CliInfo.DuplicateIssues: the order of the duplicate issues is left open, because the source takes them from a `HashMap`.
- CliInfo.CountXs: the map is keyed by field elements rather than by their bytes, which are in one-to-one correspondence.
- CliInfo.AnalyzeShareSet: the per-share `ShareInfo` records are passed through unchanged. Only their thresholds enter the model, as a list.
- `ShareData`'s hex and base64 encodings, and `is_base64`, are left out because they call into other crates. `is_base64` is a parameter of `Detect`.
- `ShareData::new` reads the clock. The time is a parameter.
- `Display` implementations and error-message formatting are left out, except the fixed messages that `from_bytes`, the legacy `recover` and `detect` return.
- File, stdin and stdout input and output, `verify_recovery`, and the table, JSON and YAML printing of the command-line tool are left out.
- CliRecover.DefaultThreshold carries no contract of its own. Its behaviour is stated by CliRecover.DefaultThresholdAccepted and CliRecover.DefaultThresholdWraps.
- src/shamir/field.rs and src/shamir/poly.rs are not part of this model. The legacy module is modelled over the library's field and polynomial code.

## Findings

| source | as written | input that shows it | evidently intended | confidence | as-written member | corrected member |
|---|---|---|---|---|---|---|
| src/shamir/mod.rs:104-112 | the legacy `recover` counts distinct x-coordinates, but it keeps every share, duplicates included, and interpolates them all; two equal shares cancel in the Lagrange sum | secret [7] dealt at `Shamir(1)`; recovering from the first share twice returns Ok([0]) instead of Ok([7]) | interpolate one share per x-coordinate, so that any set with at least t distinct x-coordinates recovers the secret (the documented promise) | not executed | Legacy.DuplicateRecoversWrongSecret | Legacy.DedupRecoverDealt |
