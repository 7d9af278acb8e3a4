# Verified models of the translation embedder, `PowerOf` and the private DAO vote

Three parts of the repository, each as a Dafny model with proofs about it. `dafny verify dfyconfig.toml` checks everything.

**The translation embedder** (`translations/generate_translations_header.c`) prints a C++ header that holds a list of
files. The generator is modelled as it is written: an output stream, a loop over the arguments, a loop over the bytes.
A second, independent model reads C++: a lexer that takes one character at a time and follows sections 5.2, 5.4, 5.12,
5.13.3 and 5.13.5 of ISO/IEC 14882:2017 (a hexadecimal escape takes as many digits as there are; adjacent literals are
joined after their escapes are converted), a preprocessor for the include guard, then a reader for the declarations, and an
interpreter for the walk over the table. Neither model mentions the other. The theorems connect them: whatever the files are, the header that the
generator prints, read by the C++ rules, is a program whose lookup returns the bytes that went in.

**`tools::PowerOf`** (`src/common/powerof.h`) is the recursive template with 64-bit wrap-around.

**The private DAO vote** (`src/governance`) is a tally over Paillier ciphertexts that a committee decrypts with a
threshold key that no member holds. The model covers the algebra of key generation, encryption, the running aggregate,
partial decryption, combination with integer Lagrange weights, the final division, and the certificate's arithmetic. The
theorems go through all of it: from the dealt polynomials, and from the votes on the chain, to the published result. Number theory that the argument
rests on (Lagrange interpolation, Euclid's lemma, Fermat's theorem, inverses modulo a square) is proved here too.

Where the code does not do what one would expect, the model keeps the code, shows a concrete input and gives the exact
condition:

- An empty file makes a header that does not compile, whatever the names are (`EmptyFileBreaks`, `EmptyFileLost`).
- Names are printed without escapes. For every list of C-string names, the header reads back as the files if and only if
  no file is empty and no name has a quote, a backslash or a line break (`RoundTripIff`). The first name that has one is
  filed under a shorter name, if the header compiles at all (`IllegalNameMisfiled`). A name with a backslash and an `n`
  compiles, and the lookup of that name then finds nothing (`EscapedNameMisfiled`).
- `lagrange_interpolate_zero` truncates every term on its own. That is exact for every polynomial of low enough degree if
  and only if all weights of the members are integers (`ExactIffIntegral`). They are for members 1 to k, which is how it
  is called (`InterpolatesFirst`), but not for members 1 and 3 (`TruncationLoses`).
- `rollback_block` removes an aggregate that has become the identity, and then skips later votes for it. A block that is
  applied and rolled back restores the table if and only if no aggregate that the table held is the identity on the way
  back (`LedgerRestoredIff`, `ApplyAndRollback`). In terms of the votes: an aggregate with any weight or balance is always
  restored (`HeldVotesRestored`, `HeldTableRestored`); one without is restored unless, at some point, only votes without
  weight and balance are left in it whose randomness and blindings cancel (`VotesRestoredIff`, with the input
  `RowLostOnTheWayBack`). The comment in the code says that such a row never existed before.
- The quorum threshold is the percentage of the supply if and only if the product fits in 128 bits (`QuorumExactIff`,
  with the input `QuorumOverflows`).
- `dao_dkg_lagrange_mu` refuses subsets of one member, although the header speaks of subsets of any size. For subsets of 1
  to 16 that, and asking for others than members, is all that it refuses (`MuExistsIff`).

Files: `Numerals` to `Lookup` below are the embedder (`CppLexer`, `CppPreprocessor` and `CppHeader` are the reader, `HeaderText` and
`Generator` the printer, the others connect them); `ModArith` and `PowerOf` the template; `Lagrange`, `Interpolation`,
`Polynomials`, `Truncation`, `SignedPower`, `Paillier`, `Threshold`, `Primes`, `KeyGeneration`, `KeyHiding`,
`Tally`, `Election`, `VoteLedger`, `Contributions` and `LedgerTally` the vote.

## Model

| member | source | states |
|---|---|---|
| Generator.Generate | translations/generate_translations_header.c:37-87 | The output is the specified text: the whole header if every argument opens, else the preamble and the definitions before the first one that does not. Success is returned exactly when all open; no output file, no output and failure. |
| Generator.WriteBytes | translations/generate_translations_header.c:56-64 | The byte loop appends exactly the chunked text of these bytes, for any bytes, and counts them. |
| Generator.WriteFile | translations/generate_translations_header.c:54-65 | One name definition and one data definition with the byte count are appended, and nothing else. |
| Generator.WriteTable | translations/generate_translations_header.c:70-82 | Table, null row, lookup function and guard are appended for any number of arguments. |
| Generator.FailurePrefix | translations/generate_translations_header.c:49-68 | A run that stops has written a proper prefix of what any run with the same files before that point writes when all files open. |
| Numerals.DecimalValue | translations/generate_translations_header.c:54-65 | Reading back a printed decimal number gives the number. |
| Numerals.DecimalInjective | translations/generate_translations_header.c:54-76 | Different numbers are printed differently, so symbols with different numbers differ. |
| LiteralReading.EscapedRun | translations/generate_translations_header.c:63 | Whatever byte came before, the greedy reader takes an escape as exactly one more byte. |
| LiteralReading.DataBodyRun | translations/generate_translations_header.c:56-64 | Streaming invariant: after any k >= 1 bytes the reader stands inside an open literal and has read exactly those bytes, sixteen to a literal. |
| LiteralReading.DataLexes | translations/generate_translations_header.c:56-65 | One closing quote after any k >= 1 bytes makes the text complete literals that hold the lines of sixteen bytes. |
| LiteralReading.DataRoundTrip | translations/generate_translations_header.c:55-65 | For every non-empty byte sequence, also with 0x00 and 0xff, the emitted literals read back after joining as exactly those bytes. |
| DataLayout.DataSize | translations/generate_translations_header.c:56-65 | The data of n >= 1 bytes takes 4n + 5 ceil(n/16) characters with its closing quote. |
| DataLayout.EscapeAt | translations/generate_translations_header.c:57-65 | Escape safety: the escape of byte k stands at a fixed offset, has two digits, and is followed by a backslash or a quote, also at a line break. |
| DataLayout.DataQuotes | translations/generate_translations_header.c:56-65 | Literal balance: two quotes for each line of sixteen bytes, but one unmatched quote for no bytes. |
| HeaderComplete.HeaderLexes | translations/generate_translations_header.c:45-82 | The whole header splits into exactly the intended tokens and directives, with no token running into the next, for any names that are one literal each. |
| HeaderMeaning.GuardWorks | translations/generate_translations_header.c:45-82 | The printed guard around any tokens: they are all there where its macro is not defined, and nothing of them where it is; `<string>` is included before any of them. |
| EndToEnd.IncludedTwice | translations/generate_translations_header.c:45-82 | Included where the macro of the guard is not defined, whatever other macros are, the header means the files and defines that macro; included once more it adds nothing. |
| HeaderMeaning.SymbolsDiffer | translations/generate_translations_header.c:54-55 | A name symbol is never a data symbol, and symbols of different arguments differ. |
| HeaderMeaning.KnownFresh | translations/generate_translations_header.c:49-55 | The symbols of a later argument are not yet defined by the earlier ones, so no symbol is defined twice. |
| HeaderMeaning.KnownHas | translations/generate_translations_header.c:54-77 | Symbol resolution: the symbols with number i stand for the name and the data of argument i. |
| HeaderMeaning.ReadTable | translations/generate_translations_header.c:73-79 | The printed rows, read with any definitions, are the pairs that the symbols stand for, in order, and then the null row; they fail exactly if a symbol is not defined. |
| LookupReading.ReadLookup | translations/generate_translations_header.c:25-35 | The text of the lookup reads as a walk that stops at a null name, compares names, copies the data on a match and returns true, else false. |
| EndToEnd.HeaderSpells | translations/generate_translations_header.c:45-82 | The header of any files whose printed names are one literal each means these files, under the names that the literals stand for. |
| EndToEnd.HeaderMeans | translations/generate_translations_header.c:45-82 | The printed header of any readable files, read by the C++ rules, is the program with these rows and this walk. |
| EndToEnd.WalkFinds | translations/generate_translations_header.c:28-34 | From any row on, the pointer walk is a first-match search over the remaining files; it ends inside the table. |
| EndToEnd.FirstMatchIsFirst | translations/generate_translations_header.c:28-33 | The search finds the first file of that name, never a later duplicate. |
| EndToEnd.FirstMatchNone | translations/generate_translations_header.c:34 | Nothing is found exactly when no file has the name. |
| EndToEnd.EmbeddedFilesAreFound | translations/generate_translations_header.c:25-82 | End to end: for all readable files, every name and every old `data`, calling the lookup of the header that was read back gives true with the bytes of the first file of that name, or false with `data` unchanged. |
| EndToEnd.HeaderInjective | translations/generate_translations_header.c:45-82 | Different lists of readable files never give the same header. |
| Conditions.EmptyFileBreaks | translations/generate_translations_header.c:56-65 | One empty file anywhere, and nothing can be read from the header, for any names and any other files. |
| Conditions.HeaderReadsIff | translations/generate_translations_header.c:45-82 | No header with an empty file reads. With printable names the header means the files if and only if no file is empty. |
| Conditions.EmptyFileLost | translations/generate_translations_header.c:56-65 | The header of one empty file does not read. |
| Conditions.NameReadsIff | translations/generate_translations_header.c:54 | The printed literal alone stands for the name if and only if the name has no quote, backslash or line break. |
| RoundTrip.NameLine | translations/generate_translations_header.c:54 | The line of a name that has one of them, whatever else is in it, leaves the lexer between tokens or is wrong, and all its literals together are shorter than the name. |
| RoundTrip.ReadsPrintedTable | translations/generate_translations_header.c:65-80 | No definition or table that a name smuggles in is taken for the printed one: a header that reads at all has all its definitions before the printed table. |
| RoundTrip.IllegalNameMisfiled | translations/generate_translations_header.c:54-77 | For any files, the first name that is not printable is filed under a shorter name, if the header reads at all. |
| RoundTrip.RoundTripIff | translations/generate_translations_header.c:45-82 | For every list of C-string names and contents, the header reads back as exactly these files if and only if no file is empty and no name has a quote, backslash or line break. |
| RoundTrip.EscapedNameMisfiled | translations/generate_translations_header.c:25-54 | A name with a backslash and an `n`, for any text around them: the header reads, files the contents under the name with a line feed, and the lookup of the given name returns false. |
| Conditions.QuotedNameLost | translations/generate_translations_header.c:54 | The literal of one name with a quote does not stand for that name. |
| Lookup.FindEmbeddedFile | translations/generate_translations_header.c:26-35 | The walk over the array never reads past the null row, is the function read from the header, returns the first match, and leaves the table alone, and `data` too when it returns false. |
| Lookup.GeneratedTableTerminated | translations/generate_translations_header.c:75-79 | Every generated table has a null row right after the rows of the files and none before. |
| PowerOf.IsPower | src/common/powerof.h:7-25 | For all 64-bit a and b the value is the mathematical power modulo 2^64. |
| PowerOf.ExactIff | src/common/powerof.h:7-25 | The value is the power itself if and only if the power is below 2^64. |
| PowerOf.AddsExponents | src/common/powerof.h:13 | Adding exponents multiplies values, with wrap-around. |
| PowerOf.MultipliesExponents | src/common/powerof.h:13 | Multiplying exponents is a power of a power. |
| PowerOf.DistributesOverTimes | src/common/powerof.h:13 | A power of a product that wraps is the product of the powers. |
| PowerOf.ZeroIff | src/common/powerof.h:7-25 | For a base 2^k times an odd number the value is zero if and only if k times the exponent is at least 64. |
| PowerOf.Collapse | src/common/powerof.h:7-25 | An even base gives zero from exponent 64 on; an odd base always gives an odd value. |
| Lagrange.LagrangeMu | src/governance/dao_threshold.cpp:79-141 | For any subset the loop returns the weight that times the denominator is 16! times the numerator, or nothing if the subset is too small, lacks the member, or the division is not exact. |
| Lagrange.MuExists | src/governance/dao_threshold.h:47-62 | 16! clears the denominators: for every member of every subset of two or more of 1 to 16 the division is exact. |
| Lagrange.MuExistsIff | src/governance/dao_threshold.cpp:84-88 | For subsets of 1 to 16 a weight is returned if and only if the subset has two members and the member is one of them. |
| Interpolation.WeightsAddToOne | src/governance/dao_threshold.h:54-59 | For any different points the Lagrange weights at zero add up to one. |
| Interpolation.Interpolates | src/governance/dao_threshold.h:54-59 | For any different points and any polynomial of lower degree than their number, the weighted values add up to the value at zero. |
| Interpolation.SharesInterpolate | src/governance/dao_threshold.h:79-88 | The integer weights of any subset, times the shares, add up to 16! times the secret. |
| SignedPower.ModExpIff | src/governance/dao_threshold.cpp:24-46 | Exponentiation fails exactly if the exponent is negative and the base has no inverse; with other exponents it is the power, for any base. |
| SignedPower.ModExpIsPower | src/governance/dao_threshold.cpp:24-46 | On a base with an inverse, exponentiation never fails, for exponents of either sign, and is the signed power. |
| Paillier.EncryptIff | src/governance/dao_paillier.cpp:173-189 | A number can be encrypted exactly if it is from 0 to below N and the randomness is positive and has an inverse. |
| Paillier.EncryptIsCipher | src/governance/dao_paillier.cpp:60-97 | Encryption in the steps of the code gives (1 + mN) r^N modulo N^2. |
| Paillier.CipherProduct | src/governance/dao_paillier.cpp:233-258 | Multiplying ciphertexts adds plaintexts and multiplies randomness. |
| Paillier.CipherPower | src/governance/dao_threshold.cpp:24-46 | Raising a ciphertext to any power, also a negative one with the inverted base, multiplies the plaintext and raises the randomness. |
| Threshold.Combine | src/governance/dao_threshold.cpp:187-245 | The loop refuses mismatched or too small subsets and otherwise returns the weighted product, or nothing as soon as one weight or power does not exist. |
| Threshold.CombineAnySubset | src/governance/dao_threshold.h:79-88 | For every subset that is large enough for the degree and every unit c, honest partial decryptions combine to c^(4 Delta^2 f(0)) modulo N^2, whichever members answer. |
| Threshold.FinalizeSolves | src/governance/dao_threshold.cpp:271-287 | For any combination, also a dishonest one or zero, the result times -4 Delta^2 theta is L(C) modulo N, and it exists exactly if that factor has an inverse. |
| Threshold.Decrypts | src/governance/dao_threshold.cpp:247-299 | With a working key, the final division applied to the combination gives exactly the plaintext, for every plaintext, randomness and subset; it fails only if theta has no inverse. |
| Truncation.InterpolateZero | src/governance/dao_dkg.cpp:4027-4078 | For any members the two loops compute the sum of the weighted shares, each divided with truncation, a division by zero leaving the term as it is; for different members this is the interpolation with Lagrange weights. Empty or mismatched input is refused. |
| Truncation.RepeatedMember | src/governance/dao_dkg.cpp:4066-4070 | A member that is given twice: the shares times minus the member are added up undivided. |
| Truncation.ExactIffIntegral | src/governance/dao_dkg.cpp:4024-4078 | For any different members the truncating interpolation is exact on all polynomials of low enough degree if and only if every weight is an integer. |
| Truncation.TruncationLoses | src/governance/dao_dkg.cpp:4066-4070 | The shares of 2 - x at members 1 and 3 interpolate to 1 and not to 2. |
| Truncation.InterpolatesFirst | src/governance/dao_dkg.cpp:4024-4078 | The members 1 to k have integer weights, so their shares interpolate exactly, for every k and every degree below k. |
| Primes.Annihilates | src/governance/dao_dkg.cpp:3281-3296 | The N-th power of any unit, raised to (p-1)(q-1), is one modulo N^2. |
| KeyGeneration.ModulusReconstructed | src/governance/dao_dkg.cpp:4861-4883 | The shares of the first 2t - 1 members reconstruct to the product of the two primes, for all dealt polynomials, if no share is negative. |
| KeyGeneration.ThetaReconstructed | src/governance/dao_dkg.cpp:5882-5919 | The theta shares of the first 2t - 1 members reconstruct to Delta (p-1)(q-1) beta + N times the blinding value, for all dealt polynomials. |
| KeyGeneration.KeyGenerated | tests/unit_tests/dao_dkg_e2e.cpp:363-404 | The key shares lie on one polynomial of degree below the threshold; its value at zero is minus theta modulo N and removes every N-th power modulo N^2. |
| KeyGeneration.FinalDivisionExists | src/governance/dao_dkg.cpp:5922-5938 | With primes above 16 and theta prime to N, the divisor 4 Delta^2 theta of the final step has an inverse. |
| KeyHiding.ComputedLocally | src/governance/dao_dkg.cpp:3526-3551 | What a member sends and its key share depend only on the shares that were dealt to it and on public values. |
| KeyHiding.ZeroShifts | src/governance/dao_dkg.cpp:3535-3548 | Another mask changes the theta share of member i by exactly the change of the mask at i. |
| KeyHiding.MaskShifts | src/governance/dao_dkg.cpp:2536-2562 | The same for the share of the modulus and its mask. |
| KeyHiding.BroadcastsHide | src/governance/dao_dkg.cpp:3535-3548 | What the masks are for: of any two deals with the same modulus and theta, the first with another mask sends exactly the theta shares of the second, so they reveal theta alone. |
| KeyHiding.ModulusSharesHide | src/governance/dao_dkg.cpp:2536-2562 | The same for the shares of the modulus: they reveal the modulus alone. |
| KeyHiding.FewSharesHide | src/governance/dao_dkg.cpp:3858-3875 | Fewer key shares than the threshold do not determine the key: for any such members another deal gives them the same shares and another key. |
| Tally.AddIff | src/governance/dao_paillier.cpp:207-239 | Two numbers can be added exactly if both are from 1 to below N^2 and have an inverse modulo N. |
| Tally.AggregateIsCipher | src/governance/vote_manager.cpp:650-663 | Adding up the ciphertexts of any votes never fails and gives a ciphertext of the sum of the plaintexts. |
| Tally.ChannelDecrypts | src/governance/dao_tally.cpp:830-839 | A channel decrypts to the sum of its plaintexts modulo N, whichever qualified members answer. |
| Tally.QuorumExactIff | src/governance/dao_tally.cpp:432-433 | The 128-bit threshold is the percentage of the supply, rounded down, if and only if the product fits. |
| Tally.QuorumOverflows | src/governance/dao_tally.cpp:432-433 | A supply of 2^127 and ten percent give a threshold of zero. |
| Tally.EvaluateDecides | src/governance/dao_tally.cpp:419-439 | For every percentage up to 100, and no other, there is an outcome: the quorum is met exactly if the balance reaches the percentage of the supply, rounded down; the majority exactly if yes exceeds no; it passes exactly if both are met. |
| Tally.VerifyConserves | src/governance/dao_tally.cpp:841-871 | Whatever was decrypted, in an accepted result the claimed totals are the decrypted ones, yes and no add up to the total weight and differ by the signed total, and quorum, majority and passing follow the governance rule. |
| Tally.DecodeNearest | src/governance/dao_tally.cpp:98-131 | The signed decoding of any plaintext is the number nearest to zero that it stands for, if 128 bits can hold it. |
| Tally.DecodeDifference | src/governance/dao_tally.cpp:98-131 | The signed decoding gives back sign and size of any difference of totals within the weight limit. |
| Tally.VerifyCounts | src/governance/dao_tally.cpp:841-871 | The encoded totals of any votes are accepted if and only if the certificate claims the open totals, the weight is within the limit and the percentage is at most 100; then yes, no, quorum, majority and passing are those of counting the votes openly. |
| Tally.VotesAreCounted | src/governance/dao_tally.h:11-19 | With a working key, for all votes, all randomness, any claim and any qualified members for each channel: the same holds of what the committee decrypts. |
| Election.ElectionIsExact | src/governance/dao_tally.h:11-19 | The same from key generation on: dealt polynomials, modulus and theta as the driver reconstructs them from what the members send, key shares, votes, aggregation, threshold decryption, decoding and result. |
| VoteLedger.VoteRestoredIff | src/governance/vote_manager.cpp:169-243 | One vote, applied and rolled back, restores the aggregate if and only if the aggregate was not an identity row. |
| VoteLedger.ApplyAllMultiplies | src/governance/vote_manager.cpp:638-673 | The valid votes of a block multiply the aggregate by the product of their parts, and none is refused. |
| VoteLedger.RollbackAllIs | src/governance/vote_manager.cpp:169-243 | Rolling back a block gives the aggregate before it, or no row if the aggregate is the identity at some point on the way. |
| VoteLedger.InvalidIgnored | src/governance/vote_manager.cpp:178-195 | Votes that have no valid ciphertexts change nothing when a block is rolled back, wherever they stand in it. |
| VoteLedger.BlockRestoredIff | src/governance/vote_manager.cpp:169-243 | A block restores an aggregate if and only if there was none before, or it is never the identity on the way back. |
| VoteLedger.NoDoubleVote | src/governance/vote_proof_verifier.cpp:396-406 | Every accepted input uses up a nullifier of its own: the nullifiers grow by exactly the number of inputs that voted, for any blocks. |
| VoteLedger.AcceptedFresh | src/governance/vote_proof_verifier.cpp:396-406 | The nullifiers of accepted votes were not used before, and accepted votes have valid ciphertexts. |
| VoteLedger.AcceptedSound | src/governance/vote_proof_verifier.cpp:266-406 | The votes that are taken one by one are the longest beginning of the block in which every vote is proven and has valid ciphertexts, no nullifier is zero or occurs twice anywhere, and none was used before for its proposal. |
| VoteLedger.Ledger.ApplyBlock | src/governance/vote_manager.cpp:30-78 | A block succeeds if and only if all its votes are proven with valid ciphertexts, no nullifier is zero or occurs twice in the block, and none was used before for its proposal; else it stops at the first vote that breaks this. For each proposal the row is the old one with the votes before that applied in order; exactly their nullifiers are added; rows stay valid. |
| VoteLedger.Ledger.RollbackBlock | src/governance/vote_manager.cpp:80-253 | For each proposal the row is the old one with the votes of the block taken back in order; a vote that is not valid changes no row; exactly the nullifiers of the block are removed; rows stay valid. |
| VoteLedger.Ledger.ApplyAndRollback | src/governance/vote_manager.cpp:30-253 | A block that is applied and rolled back always restores the nullifiers, and restores the rows if and only if no row was the identity on the way back. |
| VoteLedger.LedgerRestoredIff | src/governance/vote_manager.cpp:210-241 | A block that is applied and rolled back restores the whole table if and only if no aggregate that it held is the identity on the way back. |
| Contributions.EncryptIsPart | src/governance/dao_wallet_v2.cpp:256-300 | What a voter encrypts, a negative number as its remainder modulo N, is the ciphertext of that number. |
| Contributions.RowIsEncrypted | src/governance/dao_wallet_v2.cpp:290-300 | Which part stands where: weight, signed weight and balance, each encrypted and committed to in its own place. |
| Contributions.CommitmentSameIff | src/governance/dao_wallet_v2.cpp:285-288 | Two commitments are equal exactly if the differences of values and blindings cancel over the generators. |
| Contributions.OneIff | src/governance/vote_manager.cpp:219-235 | With a working key a ciphertext is one if and only if it holds zero and its randomness vanishes. |
| Contributions.AggregateHoldsTotals | src/governance/vote_manager.cpp:638-673 | The aggregate, ciphertexts and commitments together, always is that of the totals of the votes that were applied. |
| Contributions.VotesRestoredIff | src/governance/vote_manager.cpp:210-241 | A block restores an aggregate if and only if at no point on the way back all votes left in it have no weight and no balance and their randomness and blindings cancel. |
| Contributions.HeldVotesRestored | src/governance/vote_manager.cpp:210-241 | An aggregate with any weight or any balance is restored after any block whose totals stay below N. |
| Contributions.HeldTableRestored | src/governance/vote_manager.cpp:210-241 | So is a whole table in which every proposal has some weight or some balance. |
| Contributions.RowLostOnTheWayBack | src/governance/vote_manager.cpp:210-241 | A row of one vote without weight and balance, and a block whose second vote is such a vote with opposite randomness and blinding: after apply and rollback the row is missing. |
| LedgerTally.RowIsAggregate | src/governance/vote_manager.cpp:638-673 | The row of a proposal holds exactly the aggregates of the weight, signed and balance ciphertexts of its votes, for any valid votes. |
| LedgerTally.CastIsSealed | src/governance/dao_wallet_v2.cpp:248-300 | Votes cast with weight, signed weight and balance are sealed as the tally takes them, a negative weight as N minus it. |
| LedgerTally.LedgerIsCounted | src/governance/dao_tally.h:4-19 | From the chain to the result: the votes applied to the aggregate of a proposal, its three ciphertexts decrypted by any qualified members, the verifier accepts exactly their open totals and decides by the governance rule. |
| LedgerTally.BlockIsCounted | src/governance/vote_manager.cpp:30-78 | The same for one proposal of any block that the ledger has taken, also with votes on other proposals in between. |

## Left out

- Generator.Generate: requires that the counts fit a C `int`; a longer argument list or file overflows the counters, which C leaves undefined.
- Generator.Generate: files are opened and read as values (an argument either opens with its bytes or does not open); read and write errors, which the program ignores, are not modelled.
- EndToEnd.EmbeddedFilesAreFound: requires names without quote, backslash, line break or null character and files that are not empty; `RoundTripIff` says that nothing less will do.
- Conditions.HeaderReadsIff: says when a header with other names than printable ones does not read only for empty files; such a name can print any C++ text, so that no condition on single characters decides whether the header compiles. `RoundTripIff` decides whether it means the files.
- The rest of C++: line splices (a backslash at the end of a line is refused), trigraphs, universal character names, comments, raw and prefixed literals, carriage returns and declarations other than those of the header. A `#` starts a directive wherever it stands outside a literal.
- The rest of the preprocessor: the reader takes one `#ifndef` around the whole text, definitions of macros without replacement and `#include <string>`, and refuses everything else; macros are not expanded, since the header uses none.
- RoundTrip.RoundTripIff: for names with a line break it rests on that refusal, since such a name can print further conditionals, of which a compiler would make more than the reader does.
- Lookup.FindEmbeddedFile: requires a table with a null row; on any other table the pointer runs off its end.
- `PowerOf` instantiation limits of compilers (template depth).
- Truncation.ExactIffIntegral: requires different members; with equal ones, which no caller passes, the code divides by zero and ignores the error.
- Threshold.Decrypts: partial decryptions are honest; the proofs that come with them, their transcripts and the checks of a dishonest member are not modelled.
- KeyGeneration.ModulusReconstructed: requires shares that are not negative, as the code says they are; they are sent without their sign.
- KeyGeneration.KeyGenerated: the polynomials are dealt honestly and their values at zero are different primes; sieving, primality checks, secret sharing over a group, commitments and zero-knowledge proofs are not modelled.
- Resharing of the key, its evidence and the sessions of the committee.
- OpenSSL's big numbers are integers; `BN_mod_inverse` is a search for an inverse, a greatest common divisor of one is the existence of an inverse, and allocation failures and byte encodings of 256 and 512 bytes are not modelled.
- Tally.VotesAreCounted: of the verifier it has the claimed totals, the limits and the result; the hash of the aggregates and the proofs of the partial decryptions are not modelled, nor are the wallet's own 64-bit sums.
- VoteLedger.Ledger.ApplyBlock: one tally key for all proposals; whether the signatures and proofs of a vote hold is an input; vote records and votes of the first version are not modelled.
- VoteLedger.Ledger.RollbackBlock: a commitment on the curve is represented by its discrete logarithm in the prime-order subgroup, so only the group structure is modelled.
- The rest of the repository: consensus, wallet, mining, networking, name service, and constants such as those of `src/cryptonote_config.h`, which would only add easy members.
