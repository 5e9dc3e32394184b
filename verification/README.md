# loan-contract client helpers in Dafny

This project models the two pure helpers that the loan-contract test suite uses
to talk to the `LoanContract` escrow: the signature normaliser `fixSignature`
and the record decoder `LoanToObject` (both in `test/helpers.js`).

- `Signature.FixSignature` normalises an Ethereum ECDSA signature written as a
  `0x`-prefixed hex string laid out r‖s‖v. It reads the recovery byte v from
  characters 130..132. A v below 27 is raised by 27, so the 0/1 form becomes
  27/28. The result is the unchanged 130-character prefix followed by v in
  lower-case hex. The helpers in module `Hex` model the two JavaScript
  conversions involved, as the helper uses them: `parseInt(_, 16)` on the two
  digits of v, and `Number.prototype.toString(16)` on a value below 256.
- `LoanView.LoanToObject` turns the contract getter's tuple
  `[amount, receiver, ttl, status]` into an object. The status ordinal
  0..5 becomes one of the names Empty, Created, Approved, Canceled, Refused and
  Completed. Any other ordinal fails with `invalid status`. The other three
  fields pass through unchanged.

Each helper is tied to an inverse or to a fixed point by lemmas:
- `ToHex` is read back by `ParseHex`.
- `FixSignature` is idempotent. Two signatures normalise alike exactly when
  they share r and s and their v bytes denote the same high-range value.
- `LoanToObject` is inverted by `ObjectToLoan`, and `Name` by `StatusFromName`.

Files: `wrappers.dfy` (Result/Option), `hex.dfy`, `signature.dfy`,
`loan_view.dfy`.

## Model

| member | source | states |
|---|---|---|
| Hex.DigitValue | test/helpers.js:10 | a hex digit of either case is worth less than 16; a non-zero lower-case digit is worth more than 0; an upper-case digit is worth at least 10 |
| Hex.UpperDigitValue | test/helpers.js:10 | an upper-case digit `A`..`F` is worth exactly what its lower-case twin is, and `toString(16)` writes it back as that lower-case twin |
| Hex.LowerDigit | test/helpers.js:14 | the digit `toString(16)` writes for a value below 16 is lower-case and reads back as that value; it is `0` exactly for zero |
| Hex.LowerDigitOfValue | test/helpers.js:14 | every lower-case digit is the one written for its own value |
| Hex.ParseHex | test/helpers.js:10 | `parseInt(s, 16)` on n >= 1 hex digits is below 16^n, so the two v digits give a byte |
| Hex.ParsePair | test/helpers.js:10 | two digits are read as high digit times sixteen plus low digit |
| Hex.ToHex | test/helpers.js:14 | `toString(16)` writes at least one lower-case digit, with no leading zero unless the number is zero |
| Hex.ParseToHex | test/helpers.js:10-14 | reading back what `toString(16)` writes gives the same number |
| Hex.ToHexOfByte | test/helpers.js:14 | a value from 16 to 255 is written as exactly two digits, high then low |
| Hex.ToHexOfParsedPair | test/helpers.js:10-14 | a two-digit lower-case string with a non-zero first digit is re-written unchanged after being parsed |
| Signature.RecoveryByte | test/helpers.js:10 | the v read from characters 130..132 is below 256 |
| Signature.NormalizeRecovery | test/helpers.js:11-13 | the normalised v is at least 27; a v below 27 is raised by exactly 27; any other v is kept |
| Signature.FixSignature | test/helpers.js:6-16 | the output is 132 characters long and keeps the first 130 characters; its v is lower-case hex whose value is the normalised input v; anything after character 132 is dropped |
| Signature.LowRecoveryRaised | test/helpers.js:10-15 | a v below 27 comes out 27 higher; v = 0 is written `1b` and v = 1 is written `1c` |
| Signature.HighRecoveryKept | test/helpers.js:11-15 | a v of 27 or more keeps its value; if written in lower case the signature comes back as its first 132 characters |
| Signature.FixSignatureIdempotent | test/helpers.js:6-16 | normalising an already normalised signature changes nothing |
| Signature.SameAfterFix | test/helpers.js:7-15 | two signatures normalise to the same string if and only if they share the 130-character prefix and their v bytes normalise to the same value |
| Signature.LowAndHighAgree | test/helpers.js:7-13 | the low (0/1) and high (27/28) spellings of one signature normalise to the same string |
| LoanView.Code | test/helpers.js:23-41 | every status has an ordinal from 0 to 5 |
| LoanView.Name | test/helpers.js:23-41 | the name written for a status reads back as that same status, so no two statuses share a name |
| LoanView.DecodeStatus | test/helpers.js:22-45 | an ordinal decodes if and only if it is at most 5, to the status with that ordinal; any other ordinal fails with `invalid status` |
| LoanView.StatusFromNameSound | test/helpers.js:23-41 | a name that is recognised is the name of the status it reads as |
| LoanView.LoanToObject | test/helpers.js:18-53 | succeeds if and only if the ordinal is at most 5; amount, receiver and ttl pass through unchanged; the status field is a name whose status has the tuple's ordinal; otherwise fails with `invalid status` |
| LoanView.ObjectToLoan | test/helpers.js:18-53 | an object maps back to a tuple exactly when its status is one of the six names, and the ordinal is then at most 5 |
| LoanView.StatusTable | test/helpers.js:23-41 | ordinals 0..5 decode to Empty, Created, Approved, Canceled, Refused and Completed, with those names |
| LoanView.DecodeCode | test/helpers.js:23-44 | decoding a status's own ordinal returns that status |
| LoanView.NameInjective | test/helpers.js:23-41 | two statuses have the same name if and only if they are equal, and each name reads back as its status |
| LoanView.LoanRoundTrip | test/helpers.js:18-53 | a tuple with a valid ordinal, viewed as an object and mapped back, is the same tuple |
| LoanView.ObjectRoundTrip | test/helpers.js:18-53 | an object with a valid status name is the view of the tuple it maps back to |

## Left out

- `signMessage` (test/helpers.js:2-4): an asynchronous call into `web3.eth.sign`, which applies the "Ethereum Signed Message" prefix. Only the `fixSignature` step it delegates to is modelled.
- The `LoanContract` lifecycle (request, approve, take, refuse, cancel and the sponsored variants) and its escrow transfers: the contract's Solidity source is not part of this model.
- test/tests.js: integration tests against a deployed chain, made of balance queries, event-log reads, hashing and transactions. This is I/O, not helper logic.
- Hashing, function-selector encoding and ECDSA recovery: foreign cryptographic primitives.
- migrations/1_initial_migration.js: deployment tooling.
- Hex.ParseHex: exact on every natural number; JavaScript's `parseInt` works on doubles and is exact only below 2^53. The helper reads two digits, so the two agree there.
- Hex.ToHex: exact on every natural number; JavaScript's `toString(16)` is exact only below 2^53. The helper writes values below 256, so the two agree there.
- Signature.FixSignature: counts characters as Unicode scalar values, while JavaScript's `slice` counts UTF-16 code units. The positions of v agree whenever the first 132 characters lie in the Basic Multilingual Plane, as every hex signature's do; a prefix holding other characters is not modelled.
- Signature.FixSignature: requires at least 132 characters and two hex digits at 130..132. `parseInt`'s behaviour on other input is not modelled: NaN, or a value read from a partial prefix of digits.
- LoanView.LoanToObject: amount and ttl are carried as opaque values. The big-number `.toString()` conversion to decimal is not modelled. The status ordinal is taken as a natural number rather than as the decimal string the `switch` compares.
