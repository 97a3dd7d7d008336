# capgo in Dafny

capgo issues proof-of-work CAPTCHA challenges, redeems solved ones for single-use tokens, and validates
those tokens. This project models its protocol, its puzzles and its stores, and proves what they promise.

| files | part of the system |
|---|---|
| `Arith`, `NumberTheory`, `Rsw` | the repeated-squaring puzzle: minting by trapdoor against solving by squaring |
| `Numerals`, `RswWire` | printing, parsing and comparing the numbers of that puzzle |
| `Int32`, `JsNumber`, `JsProgram`, `Instrumentation` | the instrumentation generator as a compiler to JavaScript |
| `DomSum`, `DomHeap` | its DOM helper, on Go nodes and on a mutable element tree |
| `Shuffle`, `JsStrings`, `Obfuscate` | string obfuscation |
| `Unicode`, `Prng` | salts and targets |
| `Store`, `InMemory`, `Redis`, `RedisAgreement` | the two stores, and where their answers agree |
| `Protocol`, `RedisProtocol`, `Refinement` | redemption and validation under every interleaving, on either store; the server's requests as runs of it |
| `Base64`, `Crypto` | signed tokens and sealed blobs |
| `Json`, `HexPrefix`, `Hashcash`, `Checks`, `Challenge`, `Completeness`, `Cap` | challenges, checks, redemption, and the end-to-end theorems |

`dafny verify dfyconfig.toml` checks everything.

## How the model is set up

- Every source of randomness is a parameter: drawn bytes, draws of the program generator, shuffle choices,
  table names. Clocks are parameters too. The instrumentation generator is either the built-in one, given by
  its draws, or a caller's own, given by its results (`Challenge.Generator`).
- `Obfuscate.Scanner` is stated for any decoder of literal bodies; `Scanner.ReadsJson` says that it is
  decodeJSString.
- HMAC, AES-GCM and SHA-256 are the fields of `Crypto.Suite`; `Crypto.Lawful` says what is used of them: output
  lengths, and that opening a sealed text gives it back. In `Protocol`, a signed challenge is known by the
  nonce key of its signature; only minted keys verify, and a key stands for one set of claims.
- Primality testing in `RSWKeypair.Validate` is read as primality. JSON encodings are injective maps
  (`Cap.Codec`).
- Integers are unbounded where Go uses `big.Int`; `int32` and `uint32` arithmetic wraps explicitly. JavaScript
  Numbers are integral doubles with both zeros, and additions round to 53 bits (sections 6.1.6.1, 7.1.6 and
  7.1.7 of ECMA-262). `>>` by one and Go's arithmetic shift are division by two rounded down.
- Methods that work by changing state are methods here, on arrays, on linked nodes or on the fields of a
  class; each is tied to a specification function or to the property itself.

## What the proofs found

- **The trapdoor is not exact for every generator.** When a prime factor p divides the generator, p - 1
  divides 2^t and not r, the minted answer differs from the client's (`Rsw.MintedAnswerIff`). A minter is exact
  for every draw if and only if no factor p > 2 divides the generator with p - 1 dividing 2^t
  (`Rsw.ExactForAllIff`); such a p is one above a power of two, so a Fermat prime (`Rsw.LosingFactorIsSpecial`).
  `Validate` accepts such keypairs and `randomIntRange` can draw such generators: for every t and every odd r
  there is one that loses (`Rsw.LosingKeypairExists`).
- **A signed challenge can be won twice.** The expiry test is `Exp < nowMs`, but a claimed nonce blocks only
  while `expires > now`: two requests that read the clock in the millisecond of the expiry both win
  (`Protocol.DoubleWinAtExpiry`). So do two requests around a cleanup at the expiry that overtakes the second
  (`Protocol.DoubleWinAfterCleanup`). `Protocol.SingleUseIff` says exactly when a challenge is won at most once.
  The `Store` comment at store.go:33-35 promises single use without this condition. On Redis the same happens
  when the claimed nonce is dropped at the expiry before the second claim (`RedisProtocol.DoubleWinAfterDrop`);
  `RedisProtocol.RedisSingleUseIff` has the exact condition there.
- **The stores part at late claims.** From a nonce's expiry on, Redis refuses a claim for as long as it still holds
  the key, and `MemoryStore` lets it through. Over all runs under one clock, all answers agree if and only if no
  such claim is made (`RedisAgreement.StoresAgreeIff`).
- **`obfuscateStrings` can change what a script means, in two ways.** It glues a reference to a name:
  `return'x'` becomes one identifier (`Obfuscate.GluedExample`). And it steps into a literal that decodeJSString
  refuses, for example for a raw tab, and rewrites quotes inside it (`Obfuscate.UndecodedExample`). The reading
  is kept exactly when neither occurs (`Obfuscate.Scanner.ObfuscationPreservesMeaning`). Apart from that, a lone
  surrogate escape is changed to U+FFFD (`JsStrings.DecodeIsJsValue`, `JsStrings.LoneSurrogateIsLost`).
- **Nonces above 2^53 can be lost** on the way through a float64: those that are not multiples of the spacing of
  the doubles around them (`Json.NonceSurvivesIff`, `Json.FirstLostNonce`).

## Model

| member | source | states |
|---|---|---|
| `NumberTheory.Fermat` | rsw.go:163-166 | Fermat's little theorem, on which reducing exponents modulo p - 1 rests |
| `NumberTheory.ReduceExponent` | rsw.go:188-191 | for a not divisible by the prime p, a^e depends on e only modulo p - 1 |
| `NumberTheory.CongruentModProduct` | rsw.go:198-204 | two numbers agree modulo p·q exactly when they agree modulo both distinct primes |
| `Rsw.NewMinterSucceeds` | rsw.go:143-177 | a minter is built exactly for a valid keypair and t >= 1; the inverse of q modulo p always exists |
| `Rsw.CrtResidues` | rsw.go:198-204 | the recombined number lies below p·q and has both residues |
| `Rsw.CrtInPlace` | rsw.go:198-204 | the in-place steps of crt give the one number below p·q with the two residues |
| `Rsw.SideAgrees` | rsw.go:158-193 | modulo one prime factor: exactly when the reduced exponents give the client's answer, and when g^r |
| `Rsw.MintedAnswerIff` | rsw.go:179-194 | the minted answer equals t squarings of the minted puzzle, unless a factor divides g, its predecessor divides 2^t but not r |
| `Rsw.TrapdoorIsExactIff` | rsw.go:143-194 | every valid keypair yields a minter whose answers equal t squarings, except exactly where a factor loses the answer |
| `Rsw.MintedPuzzleIff` | rsw.go:179-194 | the puzzle is g^r mod N, unless a factor divides g and its predecessor divides the positive r |
| `Rsw.CoprimeGeneratorIsExact` | rsw.go:179-194 | for a generator coprime to N, puzzle and answer are g^r and its 2^t-th power, for every r and t |
| `Rsw.SharedFactorThreeLoses` | rsw.go:179-194 | with 3 dividing N and g, every odd r gives a wrong answer |
| `Rsw.ExactForAllIff` | rsw.go:179-194 | exact for every draw if and only if no factor p > 2 divides g with p - 1 dividing 2^t |
| `Rsw.LosingFactorIsSpecial` | rsw.go:158-161 | a factor that can lose the answer is one above a power of two |
| `Rsw.LosingKeypairExists` | rsw.go:100-114 | for every t and odd r, Validate accepts a keypair for which a generator in range loses the answer |
| `Rsw.SolveRsw` | rsw.go:208-215 | the loop of t squarings computes x^(2^t) mod N |
| `Rsw.RandomIntRange` | rsw.go:263-271 | drawn generators lie in [2, N - 2] |
| `Numerals.DigitsOfValue` | rsw.go:243-255 | printing the value of a digit string gives it back in lower case without leading zeros |
| `RswWire.ParseOfPaddedHex` | rsw.go:243-259 | parsing a printed number gives it back, at any padding |
| `RswWire.BigEndianInjective` | rsw.go:218-232 | fixed-width encodings that are wide enough are equal only for equal numbers |
| `RswWire.FillBytes` | rsw.go:229-230 | the buffer holds the big-endian bytes of the number |
| `RswWire.VerifyRsw` | rsw.go:218-232 | accepts exactly equal, non-negative, non-nil numbers |
| `RswWire.VerifyRswHex` | rsw.go:234-241 | accepts exactly when both texts parse, to the same number |
| `RswWire.AcceptedSpellings` | rsw.go:234-255 | against a printed answer: accepted iff the text parses to it, iff its trimmed body is a spelling of its digits |
| `RswWire.PrefixedSpelling` | rsw.go:243-255 | a 0x prefix and any zero padding parse to the same number |
| `RswWire.SolverSpelling` | cap.go:1034 | the solver's hex text is accepted for the expected number and no other |
| `Int32.Uint32OpMod` | instrumentation.go:353-374 | bit operators see only the low 32 bits of their operands |
| `Int32.AndMask31` | instrumentation.go:378-379 | & 0x7FFFFFFF is the remainder modulo 2^31 |
| `JsNumber.RoundExact` | instrumentation.go:341 | integers up to 2^53 are doubles, so the sums stay exact |
| `DomSum.DomValueClosedForm` | instrumentation.go:140-165 | the helper's answer is the remainder modulo 256 of three shift sums, for every triple |
| `DomSum.PartialSumsAreExact` | instrumentation.go:341 | every partial sum of the walk is exactly representable in JavaScript |
| `DomSum.ChainedIsPathValues` | instrumentation.go:146-156 | the loop's accumulated values are the even values met while halving |
| `DomHeap.MockChain` | instrumentation.go:146-156 | eight nodes are linked; the path grows by exactly the even values |
| `DomHeap.DomSumMock` | instrumentation.go:138-165 | building the parent-pointer nodes and walking them gives the list model's answer |
| `DomHeap.BuildChain` | instrumentation.go:341 | A(p,v) on the element tree keeps the links consistent and extends the path by the same values |
| `DomHeap.RemoveChildren` | instrumentation.go:341 | emptying a node leaves the rest of the path, its texts and its links as they were |
| `DomHeap.Walk` | instrumentation.go:341 | B(n,r,s) reads exactly the path's numbers back from text and returns their remainder, with JavaScript's -0 |
| `DomHeap.DomHelper` | instrumentation.go:341 | the whole helper gives the list model's answer and leaves the page's body unchanged |
| `JsProgram.PrototypeHelperMeaning` | instrumentation.go:340 | prototype lookup in the first helper yields (b^a)\|(c^b), for all Numbers |
| `JsProgram.ExecConcat` | instrumentation.go:343-380 | running a program in two parts is running it whole |
| `Instrumentation.ShadowStep` | instrumentation.go:353-373 | one round changes only the destination, to the shadow value |
| `Instrumentation.GenerateProgram` | instrumentation.go:321-380 | the loops emit the specified program and leave the specified expected values |
| `Instrumentation.RoundEval` | instrumentation.go:353-373 | each emitted statement evaluates to the shadow value of its round, up to -0 |
| `Instrumentation.MaskRange` | instrumentation.go:376-380 | every expected value has six digits |
| `Instrumentation.ProgramMeetsShadow` | instrumentation.go:331-380 | running the emitted program in a browser with a user agent ends in exactly the expected values |
| `Shuffle.ShuffleInPlace` | instrumentation.go:114-119 | the in-place loop computes the recursive shuffle |
| `Shuffle.ShuffledIsPermutation` | instrumentation.go:114-119 | the result is a permutation |
| `Shuffle.ExactlyOneDrawPerArrangement` | instrumentation.go:114-119 | on distinct items every arrangement is reached, by exactly one sequence of draws |
| `JsStrings.DecodeJsString` | instrumentation.go:513-537 | the scanning loop computes the specified decoding |
| `JsStrings.UnescapeIsPairwise` | instrumentation.go:529-531 | the text-wide replacement of \' touches exactly the escape pairs |
| `JsStrings.DecodeIsJsValue` | instrumentation.go:511-537 | a decoded value is the literal's JavaScript value, exactly when surrogate escapes come in pairs |
| `JsStrings.LoneSurrogateIsLost` | instrumentation.go:533-537 | a body that is one surrogate escape decodes to U+FFFD, where JavaScript has the surrogate |
| `JsStrings.LoneHighSurrogate` | instrumentation.go:533-537 | for example '\ud800' |
| `Obfuscate.FindQuote` | instrumentation.go:451-467 | the inner loop finds the closing quote, past escape pairs, and collects the body up to it |
| `Obfuscate.Scanner.FindLiteral` | instrumentation.go:445-477 | finds the literal at a position, or that there is none, and terminates |
| `Obfuscate.Scanner.LiteralsAreOrdered` | instrumentation.go:443-479 | the literals are ordered, disjoint intervals of the script |
| `Obfuscate.BodyIsWellQuoted` | instrumentation.go:453-467 | a scanned body never holds its quote without a backslash |
| `Obfuscate.Scanner.LiteralHasJsValue` | instrumentation.go:472-477 | each table entry is its literal's JavaScript value, unless that has a lone surrogate escape |
| `Obfuscate.Scanner.Rewrite` | instrumentation.go:496-503 | copying gaps and writing references gives the rewritten text |
| `Obfuscate.Scanner.ObfuscateStrings` | instrumentation.go:438-509 | without literals the script is unchanged; otherwise the table has no duplicates and indexes every literal |
| `Obfuscate.Scanner.NoFalseReference` | instrumentation.go:495-503 | if the table name is new to the script, no copied text can be read as a reference |
| `Obfuscate.Scanner.StaysOpen` | instrumentation.go:496-503 | a quote that nothing closes in the source is not closed by anything in the rewritten text |
| `Obfuscate.Scanner.ObfuscationPreservesMeaning` | instrumentation.go:438-509 | resolving the output gives the source's pieces in order, undecoded literals whole, exactly when nothing is glued to a name and nothing is found inside an undecoded literal |
| `Obfuscate.GluedExample` | instrumentation.go:469-503 | return'x' is rewritten to one identifier and an index, and read otherwise |
| `Obfuscate.UndecodedExample` | instrumentation.go:472-476 | a string literal with a raw tab and quoted quotes is rewritten inside, and read otherwise |
| `Prng.Fnv1a32Resume` | prng.go:15-22 | the loop over UTF-16 units computes the hash |
| `Prng.FnvResumeConcat` | prng.go:15-22 | resuming from a hash is hashing the concatenation |
| `Prng.FnvInjective` | prng.go:15-22 | two states never merge, whatever input follows |
| `Prng.JsHashAgrees` | instrumentation.go:271 | the emitted shift-and-add hash equals the Go hash on every string |
| `Prng.XorShiftBijective` | prng.go:30-32 | the xorshift round is a bijection: every state has exactly one predecessor, which is computed |
| `Prng.NonzeroStays` | prng.go:29-34 | a nonzero state never becomes zero, in any number of rounds |
| `Prng.HashStateValue` | prng.go:26 | the generator starts from the hash itself: the state word has its value |
| `Prng.BlockIsZeroIff` | prng.go:26-36 | an output block is all zeros exactly when the hash is zero |
| `Prng.PrngTellsHash` | prng.go:41-43 | outputs of eight characters or more are equal exactly when the FNV hashes of the seeds are |
| `Prng.PrngFromHash` | prng.go:26-36 | the output is lower-case hex of exactly the requested length |
| `Prng.ShorterIsPrefix` | prng.go:26-36 | a shorter output is a prefix of a longer one from the same state |
| `Prng.Format1Pair` | prng.go:46-51 | salt and target from resumed states are PRNG(token+i, size) and PRNG(token+i+"d", difficulty) |
| `Store.CleanupIsInvisible` | store.go:140-159 | Cleanup calls change no other answer of a run in which no operation carries an earlier time than a cleanup before it; requests may carry older times than each other |
| `Store.TakesAreCovered` | store.go:82-101 | successful takes of a challenge never outnumber its puts, over every run |
| `Store.UsesAreCovered` | store.go:113-138 | successful consumptions of a token never outnumber its puts, over every run |
| `InMemory.MemoryStore.TakeChallenge` | store.go:89-101 | deletes the entry, and returns it only while it is live |
| `InMemory.MemoryStore.ClaimNonce` | store.go:103-111 | refuses while an earlier claim is live, else records the new expiry |
| `InMemory.MemoryStore.ConsumeToken` | store.go:120-138 | tests expiry, then scope, then deletes unless told to keep |
| `InMemory.MemoryStore.Cleanup` | store.go:140-159 | deleting while ranging leaves exactly the live entries of all three maps |
| `Redis.RedisStore.TakeChallenge` | capredis/store.go:63-70 | the script removes the key before the expiry is tested |
| `Redis.RedisStore.ClaimNonce` | capredis/store.go:115-125 | SET NX: refuses while the key is present |
| `Redis.RedisStore.ConsumeToken` | capredis/store.go:72-83 | tests scope before expiry |
| `Redis.KeysDiffer` | capredis/store.go:51-53 | keys of different kinds never collide |
| `RedisAgreement.RedisSimulatesMemory` | capredis/store.go:63-156 | under one nondecreasing clock, with due keys dropped at any moment, TakeChallenge and ConsumeToken answer as in memory on every run |
| `RedisAgreement.StoresAgreeIff` | capredis/store.go:63-156 | on every such run in which each key's claims carry one expiry, all answers agree, ClaimNonce's included, exactly when no claim comes from its expiry on while Redis still holds the key |
| `RedisAgreement.RedisSimulatesMemoryInTime` | capredis/store.go:115-125 | in particular when every claim comes before its key's expiry |
| `RedisAgreement.RepeatedClaimAgreesIff` | store.go:103-111 | in particular a claim made twice at one moment is answered alike exactly when that is before the expiry |
| `RedisAgreement.RedisTakesAreCovered` | capredis/store.go:63-70 | on Redis too, successful takes never outnumber the puts, whatever is dropped when |
| `RedisAgreement.RedisUsesAreCovered` | capredis/store.go:72-83 | on Redis too, successful consumptions never outnumber the puts |
| `Protocol.SingleUseIff` | cap.go:848-892 | over all interleavings, a signed challenge is won at most once exactly when its later claims are timely |
| `Protocol.CalmIsTimely` | cap.go:848-892 | claims are timely when no request on the key reads the very expiry, no cleanup at or past the expiry runs between a check and its claim, and later requests read later times than the expiry |
| `Protocol.IssuesAreWon` | cap.go:892 | issued tokens and pending winners are together as many as the wins |
| `Protocol.AtMostOneTokenIfTimely` | cap.go:848-892 | over all interleavings, at most one token is issued for a signed challenge whose later claims are timely |
| `Protocol.AtMostOneToken` | cap.go:848-892 | so under the conditions of CalmIsTimely, even for cleanups that read the clock early and run late, and whatever late requests present the challenge |
| `Protocol.StoredChallengeSingleUse` | cap.go:803-830 | a stored challenge leads to at most one token for every time it was stored |
| `Protocol.TokenSingleUse` | cap.go:1094-1114 | a verification token is used up at most once for every time its key was issued |
| `Protocol.ValidatedScopeIsOriginal` | cap.go:819-892 | a Validate that succeeds for a scope consumed a token whose challenge, redemption and record carried it |
| `Protocol.DoubleWinAtExpiry` | cap.go:849-884 | two requests reading the clock at the expiry both win |
| `Protocol.DoubleWinAfterCleanup` | cap.go:417-428 | a cleanup at the expiry that overtakes a request lets it win again |
| `RedisProtocol.RedisSingleUseIff` | capredis/store.go:115-125 | over all interleavings with other traffic and dropped keys, a signed challenge is won at most once exactly when no claim follows the drop of its nonce |
| `RedisProtocol.AtMostOneToken` | cap.go:883-892 | at most one token is issued when no claim follows the drop of the nonce |
| `RedisProtocol.AtMostOneInTime` | capredis/store.go:115-125 | at most one win and one token when every claim reaches Redis before the expiry, whatever its request has read |
| `RedisProtocol.DoubleWinAfterDrop` | capredis/store.go:115-125 | a nonce dropped at the expiry lets a request win that has read an earlier time |
| `Refinement.SignedIsRun` | cap.go:833-893 | a signed request that passes its checks leaves the store of its three protocol steps run without a break, and gets a token exactly when its claim wins |
| `Refinement.RefusedIsNoStep` | cap.go:845-850 | a request that scope or expiry refuses opens no session |
| `Refinement.StoredIsRun` | cap.go:803-830 | a stored request leaves the store of its two protocol steps, and gets a token exactly when the first of them wins |
| `Refinement.ValidateIsStep` | cap.go:1097-1114 | Validate is the protocol's one step, in effect and answer |
| `Base64.DecodeOfEncode` | crypto.go:61-63 | decoding an encoded byte string gives it back |
| `Crypto.VerifyOfSign` | crypto.go:59-85 | a signed token verifies, with its payload and the hex of its MAC |
| `Crypto.NonceKeyIsCanonical` | crypto.go:67-85 | verifying tokens share a nonce key exactly when the MACs of their signing inputs agree, however the signature is spelled |
| `Crypto.RespellingVerifies` | crypto.go:72-85 | a different spelling of every verifying token verifies alike |
| `Crypto.EncryptGcm` | crypto.go:104-126 | packing iv, tag and ciphertext gives a blob that decrypts to the plaintext |
| `Crypto.DecryptOfEncrypt` | crypto.go:128-150 | unpacking finds iv, tag and ciphertext where packing put them |
| `Json.NonceSurvivesIff` | cap.go:974-989 | a nonce's text survives float64 exactly when it is a multiple of the spacing of the doubles around it, always up to 2^53 |
| `Json.FirstLostNonce` | cap.go:982-989 | 2^53 + 1 does not survive |
| `HexPrefix.HexPrefixMeaning` | crypto.go:159-164 | the prefix test passes exactly when the target is a digit string no longer than the hash and the hash, cut to as many digits, is the number it denotes |
| `HexPrefix.ZeroPrefixIff` | crypto.go:159-164 | a target of d zeros is met exactly by hashes below 16^(digits - d) |
| `HexPrefix.CaseDoesNotMatter` | crypto.go:162-164 | upper and lower case targets are met by the same hashes |
| `Hashcash.SolvePow` | cap.go:1011-1017 | the search returns the least solution below the limit, and none exactly when there is none |
| `Hashcash.AllPairs` | cap.go:379-386 | the pairs are the PRNG pairs of the indices 1 to count |
| `Hashcash.VerifyPairs` | cap.go:991-1002 | accepts exactly when every position solves its pair, else names the first that does not |
| `Hashcash.VerifyFormat1` | cap.go:991-1002 | verifyFormat1 accepts exactly when every position solves the pair derived for it |
| `Hashcash.SolvePairs` | cap.go:1041-1045 | the solver answers exactly when every pair has a solution up to 2^53; its posted array parses and solves every pair |
| `Checks.VerifyInstrumentationResult` | instrumentation.go:541-572 | the verdict, in the order of the tests; accepted only if every variable has its expected value |
| `Checks.InstrumentationPassesIff` | instrumentation.go:576-596 | the exact condition for a submission to pass |
| `Checks.VerifyEntries` | cap.go:904-938 | the loop gives the verdict of the first position that does not pass |
| `Checks.FirstVerdictMeaning` | cap.go:911-937 | accepted exactly when every position passes its own protocol's test, else the first rejection |
| `Challenge.RunGenerator` | cap.go:549-569 | a generator's result is published exactly when it is complete, with distinct names and the right policy |
| `Challenge.DrawsAreDisjoint` | cap.go:654-716 | no byte of the random source and no generator call serves two entries |
| `Challenge.SameDrawIff` | cap.go:654-716 | two draws are equal exactly when the random source repeats itself byte for byte |
| `Challenge.NatOfBytes` | rsw.go:180-184 | the drawn scalar has exactly the drawn bytes as its big-endian encoding |
| `Challenge.BuildEntries` | cap.go:654-716 | puzzles and expected answers stay aligned with the protocol list, each pair from its own draws and generator call; only missing settings or a failing generator stop them |
| `Completeness.ProgramReports` | instrumentation.go:541-572 | the state a browser reports for a generated program has every expected value |
| `Completeness.MintedAnswerIsReached` | cap.go:1028-1034 | squaring from the minted puzzle reaches the minted answer for every draw, when the generator never loses it |
| `Completeness.SquaringIsAccepted` | cap.go:1028-1034 | a client that parses puzzle and modulus and prints its own result is accepted |
| `Completeness.EntryComplete` | cap.go:911-937 | an honest answer passes its position's test |
| `Completeness.BlobAccepted` | instrumentation.go:541-596 | the report of a generated script passes checkInstrumentation |
| `Completeness.HonestAnswersPass` | cap.go:895-939 | for every protocol list and count, honest answers pass verifyV2 at any time up to the expiry |
| `Completeness.SolveEntries` | cap.go:1021-1040 | the client has an answer exactly when every entry is answerable, and its answers are honest |
| `Completeness.ChallengeIsAnswerable` | cap.go:1021-1040 | of an issued challenge only a hash puzzle can lack an answer |
| `Cap.CheckSigned` | cap.go:845-881 | the verdict with its reason, in the order of the tests |
| `Cap.SignedVerdictAccepts` | cap.go:845-881 | accepted exactly when scope, expiry and the format's own checks are met |
| `Cap.IssuedKeyIsFound` | cap.go:1061-1092 | the key computed from an issued token is the one it was stored under |
| `Cap.ChallengeV2` | cap.go:646-734 | the token carries, sealed, exactly the answers to the entries it goes out with, all from the challenge's own draws |
| `Cap.ChallengeSigned` | cap.go:603-644 | issued exactly for valid settings and a working generator; the token carries settings, expiry, scope and the sealed meta |
| `Cap.Cap.ChallengeStored` | cap.go:572-601 | issued exactly for valid settings and a working generator; the record is stored under the drawn token |
| `Cap.Cap.LazyCleanup` | cap.go:417-428 | cleans at the first request and then at most once per interval |
| `Cap.Cap.RedeemSigned` | cap.go:833-893 | the outcome with its reason and the whole new store: checks, then the nonce, then the token |
| `Cap.Cap.RedeemStored` | cap.go:803-830 | the outcome with its reason and the whole new store; a failing attempt burns the challenge |
| `Cap.Cap.Validate` | cap.go:1097-1114 | the outcome and the whole new store |
| `Cap.HonestRequestPasses` | cap.go:833-939 | honest answers to a challenge that challengeV2 issued reach the nonce claim |
| `Cap.Journey` | cap.go:646-1114 | from the settings on: the issued challenge is solved, redeemed once, refused a second time, and its token validates once |
| `Cap.JourneySigned1` | cap.go:603-1114 | the same for a signed challenge of format 1 |
| `Cap.JourneyStored` | cap.go:572-1114 | the same for a stored challenge, which is gone after the first redemption |

## Left out

- HTTP routing, logging, JSON wire text, DEFLATE, whitespace stripping, the Node.js adapter, the example server.
- Cipher, MAC, hash and RSA key generation internals: library code behind `Crypto.Suite`.
- Browser environment checks and automation probes: emitted text without meaning in the repository.
- Identifier spelling: helper names are taken to differ from each other and from variables and reserved words.
- Custom `SignToken`/`VerifyToken`, `Reset` by SCAN, configuration defaulting, the minter cache, the dispatch in `Redeem` and `Challenge`: caller-supplied or easy.
- JSON numbers that are fractional or beyond 2^62 in size, duplicate keys and case-insensitive field names.
- Redis and network failures; `PutChallenge` and `PutToken` run at the caller's clock.
- Token strings are taken as code points; invalid UTF-8 in them is not modelled.
- `Protocol` and `RedisProtocol` have no events for redemptions with `SkipNonce` or for `Reset`: the first claims no nonce and the second forgets all of them, so both give up single use.
- `Hashcash.SolvePow`: searches up to a limit; the source has none, and its int64 counter wraps after 2^63 attempts.
- `Exec`: the DOM helper enters the JavaScript semantics through its list model, which `DomHeap.DomHelper` proves of the element tree, because functions cannot call methods.
- `DomHeap.Element.InnerText`: stated for elements without element children only; the walk empties each node before reading it.
- `Obfuscate.Scanner.ObfuscationPreservesMeaning`: quotes in regular expressions, templates and comments are read as the scanner reads them; quoted property keys, which a reference cannot replace, and directives are not told from other strings.
- `Obfuscate.Scanner.ObfuscateStrings`: the header that declares the table is kept as data, not as JSON text.
