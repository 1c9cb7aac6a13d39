# Proofs about the GRID computing API

This project models the parts of the GRID computing API that carry the most logic and proves what they
promise, for all inputs, all runs and all interleavings.

* **Proof of work.** A byte-at-a-time SHA-256 (`Sha256`), a hand-written definition of SHA-256 taken from
  FIPS 180-4 alone (`Fips180`) with the origin of its constants (`Fips180Constants`, `Primes`) and a known
  answer (`Fips180Example`), the difficulty test (`Difficulty`), the division of nonces among devices and threads
  (`Pow`), the host and its racing threads as a transition system (`PowMachine`), the exact set of answers that
  system can give (`PowOutcomes`), the kernel and host as code (`PowSearch`), and what an answer means for the
  submitted proof (`ProverTypes`, `PowResult`).
* **Challenge cycle.** The calculation of waiting times (`Scheduler`), whole runs of the prover's loop
  (`SchedulerRuns`), and the prover object with its `last` field (`GridProver`).
* **Login cookies.** Unpadded base64url (`Base64Url`, sections 3.5 and 5 of RFC 4648), decimal numbers
  (`Decimal`), signed tokens (`Token`), and the cookie printer and parser (`Cookie`).
* **Key store.** Hexadecimal text (`Hex`), integers read back as floating-point numbers (`Doubles`), the encrypted key
  file (`Envelope`), the store (`KeyStore`), and its histories (`KeyHistory`).

`Arithmetic`, `Bytes` and `Wrappers` hold what the others share.

## How things are modelled

* A byte is an integer from 0 to 255, a machine word of the hash a 32-bit vector; the 64-bit bit counter wraps
  explicitly. `Plus` is addition modulo 2^32.
* The SHA-256 context is a class whose methods update its buffers in place. `View` gives its value, and every
  method states the new value as a function of the old one; `Streaming` proves those functions to be FIPS 180-4.
* A thread's only visible action is one atomic write of its device's cell. In `PowMachine` any pending thread may
  take it at any moment after its launch, between any two actions of the host. `PowSearch.HostGeneratePow` makes
  the same arbitrary choices in code and returns the run it followed as a ghost value.
* The number of devices, the clock, the random bytes and the answers of the validator are parameters. HMAC-SHA256,
  scrypt, AES and BLAKE3 are function parameters about which nothing is assumed. The JSON form of a key info is a
  parameter with one assumption, that it reads back; integers inside the key file's parameter object come back
  from disk as floating-point numbers, as Go's decoder makes them, rounded to 53 bits (`Doubles`).
* The host's shift for the nonce count wraps around in 32 bits, as GCC documents for signed shifts; a launch with an
  empty or negative grid runs no thread.
* Preparation, prove and rest intervals are arbitrary positive whole seconds. A round serves the cycle of its
  scheduled wake-up, the clock at the calculation plus the wait.

## Results that differ from what one might expect

* A cycle can be served twice: the calculation leaves `last` alone inside the prove window, so a `last` that is a
  cycle or more behind stays behind. `FirstWindowServedTwice` is such a run, and by `EveryWindowServedRepeatedly` there
  is one for every timing and every cycle after the anchor's; `OncePerCycleExactly` says for every run when it happens,
  and `PromptRunsServeEveryCycle` gives a condition under which no cycle is skipped or repeated.
* A nonzero nonce does not always tell that a nonce was found, although the repository's rate test
  (prover/pow_test.go:57) reads it so: zero is returned both when nothing was found and when zero wins.
  `NonzeroTellsExactly` shows that it tells, whatever the interleaving, if and only if nonce zero is not searched or
  does not win, which one hash decides before the call; `OneDeviceDifficultyZero` is an instance in which it does not.
* With more devices than nonces nothing is searched at all, and zero may still pass: `PassingMeansFound` has the exact
  condition under which passing tells that something was found, and `FiveDevicesDifficultyZero` an instance.
* At difficulties 29 and 30 the 32-bit count has wrapped around to a negative number and to zero, and nothing is
  searched: `NothingAbove28`.
* A signature is not the only string that verifies: stray bits, padding written out, and line breaks are accepted.
  `DecodesExactly` and `VerifiesExactly` say which strings are, `OnlySignatureVerifies` that the signed one is the
  canonical one of them, and `PaddedSignatureVerifies` gives another.
* A cookie's signature covers the address and the expiry written one after the other, without a separator, so it fixes
  their concatenation and not where one ends. `SignatureFixesConcatenation` has the exact condition for every keyed
  hash, `SignatureFixesUser` what follows unless two messages collide, and `TwoReadingsOfOneSignature` an instance.
  `FindMeaning` therefore says that the name and the expiry of the found cookie are together what was signed, not that
  a cookie was made for that user.
* An integer in a key file is not always read back unchanged: 2^53 + 1 is rounded (`FirstRounded`), and
  `SurvivesExactly` says which integers are not.
* An expiry from 2^63 - 62135596800 upward wraps around in the clock library and has passed: `FarExpiryHasPassed`.
* Which winner of a device is returned depends on the order of the writes; `PossibleAnswers` shows that each of them
  can be, and nothing else.

## Model

| member | source | states |
|---|---|---|
| Fips180.WordRoundTrip | prover/CudaSha256/sha256.cuh:171-172 | joining four bytes into a word and cutting a word into bytes are inverse |
| Fips180.WordIsBigEndian | prover/CudaSha256/sha256.cuh:171-172 | the word joined from four bytes is the number they denote in big-endian notation |
| Fips180.ChChooses | prover/CudaSha256/sha256.cuh:10 | the choice is y where x has a one and z elsewhere |
| Fips180.MajAgrees | prover/CudaSha256/sha256.cuh:11 | the majority is what two of the three words agree on, wherever they do |
| Fips180.PaddingIsMinimal | prover/CudaSha256/sha256.cuh:251-276 | the padding uses the smallest number of zero bits that leaves 64 bits in the last block, and the length field is exact below 2^61 bytes |
| Primes.PrimesInOrder | prover/CudaSha256/sha256.cuh:45-53 | the table from which the constants are taken holds exactly the primes up to 311, 64 of them, in increasing order |
| Fips180Constants.RoundConstants | prover/CudaSha256/sha256.cuh:45-53 | every round constant is the first 32 bits of the fractional part of the cube root of the corresponding prime |
| Fips180Constants.InitialHash | prover/CudaSha256/sha256.cuh:216-223 | the initial hash value comes likewise from the square roots of the first eight primes |
| Fips180Example.AbcDigest | prover/CudaSha256/sha256.cuh:163-292 | the digest of "abc" is the known answer, through all 64 schedule words and rounds in numbers |
| Sha256.MacrosAreFips | prover/CudaSha256/sha256.cuh:7-15 | the shift-and-or macros are the rotation-based functions of FIPS 180-4 for every word |
| Sha256.Sha256Ctx.ExpandBlock | prover/CudaSha256/sha256.cuh:170-176 | the schedule array is the recursive message schedule of section 6.2.2 |
| Sha256.Sha256Ctx.RunRounds | prover/CudaSha256/sha256.cuh:178-200 | rotating eight local variables 64 times gives the 64 rounds of section 6.2.2 |
| Sha256.Sha256Ctx.Transform | prover/CudaSha256/sha256.cuh:163-210 | the in-place transform replaces the state by the compression of state and block |
| Sha256.Sha256Ctx.Init | prover/CudaSha256/sha256.cuh:212-224 | a context started over arbitrary buffer contents, with the standard initial hash value |
| Sha256.Sha256Ctx.PushByte | prover/CudaSha256/sha256.cuh:233-241 | one byte goes in; exactly a full buffer is compressed, counted and emptied |
| Sha256.Sha256Ctx.Update | prover/CudaSha256/sha256.cuh:226-243 | the whole context afterwards is that of absorbing the input byte by byte |
| Sha256.Sha256Ctx.PadBuffer | prover/CudaSha256/sha256.cuh:249-265 | both padding branches: the 56 bytes before the length field, and the extra compression when they do not fit |
| Sha256.Sha256Ctx.AppendLength | prover/CudaSha256/sha256.cuh:267-276 | eight shifted stores write the 64-bit bit count big-endian and leave the rest of the buffer |
| Sha256.Sha256Ctx.WriteDigest | prover/CudaSha256/sha256.cuh:279-291 | the 32 output bytes are the big-endian bytes of the eight state words in order, and nothing else is written |
| Sha256.Sha256Ctx.Final | prover/CudaSha256/sha256.cuh:245-292 | the finished context and the digest taken from it |
| Streaming.AbsorbKeeps | prover/CudaSha256/sha256.cuh:226-243 | streaming invariant: fill level, unprocessed tail, bit counter and state are those of the whole message so far, after any update |
| Streaming.BitCount | prover/CudaSha256/sha256.cuh:239-268 | counter plus buffered bits is 8 times the bytes absorbed, exactly below 2^61 bytes and modulo 2^64 always |
| Streaming.AbsorbConcat | prover/CudaSha256/sha256.cuh:226-243 | chunking independence: two updates leave the very same context as one update with both inputs |
| Streaming.FinishOneBlock | prover/CudaSha256/sha256.cuh:252-257 | with fewer than 56 bytes buffered, exactly the one remaining block of the padded message is compressed |
| Streaming.FinishTwoBlocks | prover/CudaSha256/sha256.cuh:258-265 | otherwise exactly the two remaining blocks are |
| Streaming.FinishIsFips | prover/CudaSha256/sha256.cuh:245-292 | finishing a context that has absorbed m gives the SHA-256 of m |
| Streaming.StreamIsFips | prover/CudaSha256/sha256.cuh:212-292 | init, any sequence of updates and final give the SHA-256 of the concatenation, from any uninitialised buffer |
| Streaming.TwoUpdates | prover/CudaSha256/pow.cu:31-36 | the kernel's two updates hash the concatenation of prefix and nonce |
| Difficulty.MaskMeaning | prover/CudaSha256/sha256.cuh:108-114 | the masked byte is zero exactly when the byte is below 2^(8-r) |
| Difficulty.NonzeroPrefixFails | prover/CudaSha256/sha256.cuh:110-112 | a nonzero byte among the first d/8 means that the 256-bit value is too large |
| Difficulty.ZeroPrefixDecides | prover/CudaSha256/sha256.cuh:107-117 | after zero bytes, the next byte alone decides the comparison of the 256-bit value with 2^(256-d) |
| Difficulty.CheckOutput | prover/CudaSha256/sha256.cuh:102-118 | zero is returned if and only if d <= 256 and the digest, read big-endian, is below 2^(256-d), whatever byte lies behind the digest |
| Difficulty.MeetsMonotone | prover/CudaSha256/sha256.cuh:102-118 | a digest that passes at one difficulty passes at every lower one |
| ProverTypes.PutUint64 | prover/types/types.go:15-16 | the first eight bytes become the little-endian notation, later ones stay |
| ProverTypes.NodeToBytes | prover/types/types.go:14-19 | the address bytes come first, then eight bytes whose little-endian value is the number as an unsigned 64-bit integer |
| ProverTypes.ProofToBytes | prover/types/types.go:26-32 | address bytes, number and nonce, each at its place |
| ProverTypes.NodeLayout | prover/types/types.go:14-19 | what stands where in the bytes of a node |
| ProverTypes.ProofLayout | prover/types/types.go:26-32 | what stands where in the bytes of a proof |
| ProverTypes.IntRoundTrip | prover/types/types.go:27-28 | every signed 64-bit integer can be read back from its eight bytes |
| ProverTypes.ProofBytesInjective | prover/types/types.go:14-32 | proofs with the same bytes agree in address bytes, number and nonce |
| Pow.EveryOffsetHasThread | prover/CudaSha256/pow.cu:15-20 | every searched nonce is hashed by some thread of the launched grids, block rounding included |
| Pow.ThreadsAreDistinct | prover/CudaSha256/pow.cu:15-20 | no two active threads of all devices hash the same nonce |
| Pow.ActiveThreadsAreSearched | prover/CudaSha256/pow.cu:15-20 | an active thread's nonce lies in its own device's slice |
| Pow.LeftOver | prover/CudaSha256/pow.cu:136-162 | fewer nonces than there are devices are left out of the nominal count |
| PowMachine.RunKeepsInv | prover/CudaSha256/pow.cu:155-179 | in every state of every run each launched cell is empty or holds a winner of its own slice, every unrecorded winner still has a pending thread, and a returned answer is right |
| PowMachine.EmptyCellMeansNoWinner | prover/CudaSha256/pow.cu:165-179 | after the joins an empty cell means that its device's slice has no winner |
| PowMachine.ThreadStepKeeps | prover/CudaSha256/pow.cu:38-41 | an unsynchronised write at any moment keeps the invariant |
| PowMachine.RunsAreBounded | prover/CudaSha256/pow.cu:145-179 | no interleaving is longer than a budget fixed at the start |
| PowMachine.Progress | prover/CudaSha256/pow.cu:165-179 | no interleaving gets stuck before the host returns |
| PowMachine.FinishedRun | prover/CudaSha256/pow.cu:131-194 | a run that cannot go on has returned, with all threads finished and the right answer |
| PowOutcomes.WinnerIsPossible | prover/CudaSha256/pow.cu:38-41 | every winner of the lowest winning device is returned by some interleaving |
| PowOutcomes.PossibleAnswers | prover/CudaSha256/pow.cu:155-179 | the possible answers are exactly the winners of the lowest-numbered device that has one, or the untouched value when none has |
| PowSearch.HashNonce | prover/CudaSha256/pow.cu:20-36 | the kernel's digest is the SHA-256 of the prefix and the nonce in eight little-endian bytes |
| PowSearch.Sha256Cuda | prover/CudaSha256/pow.cu:13-43 | one thread changes at most its device's cell, and does so exactly when it is active and its nonce wins |
| PowSearch.Synchronize | prover/CudaSha256/pow.cu:165-170 | the join returns only when no thread of the device is left, whatever other threads do meanwhile |
| PowSearch.HostGeneratePow | prover/CudaSha256/pow.cu:131-194 | under any scheduling the host routine follows a run of the transition system to its end, and its answer is an allowed outcome |
| PowSearch.GeneratePow | prover/pow.go:18-29 | the returned nonce makes the submitted proof pass whenever any nonce of the searched range does, and is zero otherwise |
| PowResult.HashedMessageIsProof | prover/pow.go:20 | what a thread hashes is the challenge followed by the bytes of the proof with that nonce, and it wins exactly if the SHA-256 of challenge, address, number and nonce is below 2^(256-d) |
| PowResult.ReturnedNonce | prover/pow.go:18-29 | the meaning of an allowed outcome for the challenge, the node and the proof |
| PowResult.PassingMeansFound | prover/CudaSha256/pow.cu:162-179 | that the answer passes tells that a winner was found, if and only if every device has work or zero does not win |
| PowResult.FiveDevicesDifficultyZero | prover/CudaSha256/pow.cu:136-162 | an instance in which nothing is searched and the answer passes all the same |
| PowResult.NonzeroTellsExactly | prover/pow_test.go:57 | the answer is nonzero exactly when something was found, under every interleaving, if and only if nonce zero is not both searched and a winner |
| PowResult.OneDeviceDifficultyZero | prover/pow.go:18-29 | an instance for every prefix: zero wins, is searched, and is a possible answer |
| PowResult.CountMeaning | prover/CudaSha256/pow.cu:136 | the wrapped 32-bit count is 2^(d+2) up to difficulty 28, negative at 29 and zero at 30 |
| PowResult.NothingAbove28 | prover/CudaSha256/pow.cu:131-194 | above difficulty 28 the caller's value is the one possible answer, since nothing is searched |
| Scheduler.DecideCases | prover/prover.go:139-157 | what a call decides, by the whole cycles and the seconds since `last`, also for a `last` in the future |
| Scheduler.WakeInWindow | prover/prover.go:139-157 | for all clocks and all `last`, also in the future, the wake-up is in the prove window, the wait is from 0 to below a cycle plus the preparation, and `last` keeps its residue |
| Scheduler.GridStep | prover/prover.go:139-157 | `last` becomes the start of the cycle of the wake-up, except in a stale call, which wakes at once with `last` at least a cycle behind |
| Scheduler.LastNeverDecreases | prover/prover.go:146-152 | `last` never moves back while it is less than a cycle ahead of the clock |
| SchedulerRuns.RunInvariant | prover/prover.go:70-129 | in every run `last` is on a cycle boundary, never decreases and is never a cycle ahead at a call; every wake-up is in a window |
| SchedulerRuns.FreshSeparates | prover/prover.go:127 | after a completed round that was not stale, every later wake-up is for a later cycle |
| SchedulerRuns.RepeatServesTwice | prover/prover.go:146-152 | a stale round that completes is repeated by the next completing round of the same window |
| SchedulerRuns.OncePerCycleExactly | prover/prover.go:70-129 | completed rounds serve different, increasing cycles if and only if no stale round completes with the next completing round calculated in the same window |
| SchedulerRuns.FreshRunsServeOnce | prover/prover.go:70-129 | if no call in the window finds `last` a cycle behind, no cycle is served twice, whatever rounds fail |
| SchedulerRuns.FirstWindowServedTwice | prover/prover.go:146-154 | a run of two rounds that serves cycle 1 twice |
| SchedulerRuns.BurstServesOneCycle | prover/prover.go:139-157 | for every timing, up to q + 1 calls in the window of cycle q from a fresh prover all wake up at once and serve cycle q, whatever rounds fail |
| SchedulerRuns.EveryWindowServedRepeatedly | prover/prover.go:139-157 | for every timing, cycle q and n up to q and the prove interval, a run that serves cycle q with n + 1 completed rounds |
| SchedulerRuns.PromptRunsServeEveryCycle | prover/prover.go:70-129 | rounds shorter than the rest interval, started with a call that is not stale, skip no cycle and repeat none |
| GridProver.GRIDProver.constructor | prover/prover.go:49-67 | a new prover starts with `last` 0 |
| GridProver.GRIDProver.CalculateWaitingTime | prover/prover.go:139-157 | the decision on `last`, wait and next value, with the wake-up in the window |
| GridProver.AdoptsNext | prover/prover.go:88-127 | a round that reaches the submission adopts the next `last`, even if the submission fails; one that stops before keeps the calculated one |
| GridProver.GRIDProver.Start | prover/prover.go:70-129 | the loop ends at the first interrupted wait; until then every round is due at the wake-up of the run that `SchedulerRuns` analyses, and `last` is the next one after rounds that submit or fail to, and the calculated one after all others |
| Base64Url.SymbolIsAlphabet | lib/auth/hmac.go:58 | the 64 symbols are those of the URL-safe table of RFC 4648, in order |
| Base64Url.Rfc4648Example | lib/auth/hmac.go:58 | the encoder agrees with the standard's own example, with all three group lengths |
| Base64Url.SymbolAt | lib/auth/hmac.go:58 | every symbol is the six-bit digit at its place in its group of three bytes, missing bytes counting as zero |
| Base64Url.FoobarExample | lib/auth/hmac.go:56-59 | the encoding of the standard's longest example |
| Base64Url.SegmentShape | lib/auth/hmac.go:56-59 | the encoding is in the URL-safe alphabet, never has length 1 modulo 4, and decoding re-adds exactly the padding that was stripped |
| Base64Url.SegmentRoundTrip | lib/auth/hmac.go:56-68 | decoding inverts encoding for every byte string |
| Base64Url.EncodingsAreCanonical | lib/auth/hmac.go:56-68 | the encodings are exactly the canonical strings, and on those encoding inverts decoding |
| Base64Url.DecodesExactly | lib/auth/hmac.go:60-68 | a string decodes to x if and only if, up to line breaks and padding, it is the encoding of x with arbitrary stray bits in the last symbol |
| Base64Url.SkipKeepsTheRest | lib/auth/hmac.go:67 | decoding skips the two line-break characters and nothing else |
| Base64Url.ExplicitPadding | lib/auth/hmac.go:56-68 | the padded encoding decodes to the same bytes, and differs from the unpadded one unless the length is divisible by 3 |
| Token.SignVerify | lib/auth/hmac.go:17-54 | a signature verifies for the string and key it was made with, whatever the keyed hash computes |
| Token.VerifiesExactly | lib/auth/hmac.go:17-54 | a string verifies if and only if it spells the keyed hash |
| Token.VerifyErrors | lib/auth/hmac.go:17-41 | which error is returned when: the kind of key, then a string that spells nothing, then a wrong signature |
| Token.OnlySignatureVerifies | lib/auth/hmac.go:17-54 | over all strings, the signature that signing produces is the one that verifies and is canonical |
| Token.PaddedSignatureVerifies | lib/auth/hmac.go:17-54 | the padded signature verifies, and is not the one signing produces unless the hash length is divisible by 3 |
| Decimal.AtoiFormatInt | computing/server/httpserver/cookie.go:71 | every 64-bit expiry is read back from its decimal print |
| Decimal.AtoiMeaning | computing/server/httpserver/cookie.go:71 | a string parses exactly if it is an optional sign and one or more digits with a value in 64 bits, and to that value |
| Decimal.AtoiCases | computing/server/httpserver/cookie.go:71 | digits without and with either sign give the number within the 64-bit bounds and a range error beyond |
| Decimal.NoUnderscore | computing/server/httpserver/cookie.go:35-43 | a printed expiry never contains the separator |
| Cookie.FindCookie | computing/server/httpserver/cookie.go:51-92 | the loop skips foreign cookies and decides on the first of its own, with the source's errors |
| Cookie.SplitMeaning | computing/server/httpserver/cookie.go:61 | the split is at the first separator, or there is none |
| Cookie.MadeCookie | computing/server/httpserver/cookie.go:31-48 | name, expiry time and value of a made cookie, with the expiry second rounded down |
| Cookie.CheckErrors | computing/server/httpserver/cookie.go:60-85 | which error refuses a cookie: format, number, signature, expiry, the first that applies |
| Cookie.FindDecides | computing/server/httpserver/cookie.go:51-92 | the first cookie with the prefix decides the result; without one it is "not found" |
| Cookie.CheckMade | computing/server/httpserver/cookie.go:31-48 | a made cookie is accepted exactly before its expiry second and yields its address |
| Cookie.CookieRoundTrip | computing/server/httpserver/cookie.go:31-92 | in any list with only foreign cookies before it, a made cookie gives back its address exactly until its expiry second |
| Cookie.FindMeaning | computing/server/httpserver/cookie.go:51-92 | a user is found if and only if the first cookie with the prefix is named after it, with an expiry to come and a signature of the name and the expiry written one after the other |
| Cookie.SignatureFixesConcatenation | computing/server/httpserver/cookie.go:77-84 | for every keyed hash, a signature made for an address and an expiry is accepted for a user and an expiry if and only if the hash does not tell the two concatenations apart and the expiry parses and is to come; for equal concatenations the user is the address exactly if the expiries have the same length |
| Cookie.SignatureFixesUser | computing/server/httpserver/cookie.go:77-84 | unless the two messages collide, it is accepted if and only if the concatenations are equal, and with expiries of the same length only for the address and expiry it was made for |
| Cookie.TwoReadingsOfOneSignature | computing/server/httpserver/cookie.go:31-89 | an instance for every keyed hash and key: a found user for whom no cookie was made |
| Cookie.FarExpiryHasPassed | computing/server/httpserver/cookie.go:83 | an expiry is to come exactly if it is below 2^63 - 62135596800 and has not passed |
| Hex.HexRoundTrip | keystore/passphrase.go:82-94 | hexadecimal text reads back for every byte string |
| Hex.HexDigitIsDigit | keystore/passphrase.go:82-94 | the digit of a value is the lower-case character at its place among the sixteen |
| Hex.DigitsAt | keystore/passphrase.go:82-94 | each byte is written as two digits, the higher one first |
| Hex.DecodesExactly | keystore/passphrase.go:153-166 | exactly the rows of two digits for each byte are read, of either case |
| Envelope.AesCtrXor | keystore/passphrase.go:113-123 | the output buffer is the input masked by the key stream; a bad IV length panics |
| Envelope.CtrTwice | keystore/passphrase.go:113-123 | masking twice with the same key and IV restores the text |
| Envelope.XorDigits | keystore/passphrase.go:121 | the mask compares binary digits |
| Envelope.SealedExactly | keystore/passphrase.go:56-102 | every field of a sealed file, with all constants written out, and the errors |
| Envelope.KdfKeyOf | keystore/passphrase.go:189-205 | the key or the error for a file whose parameters can be read |
| Envelope.KdfErrors | keystore/passphrase.go:189-213 | the error for any other file, in the order of the checks |
| Envelope.OpenedExactly | keystore/passphrase.go:144-187 | a file opens to a secret if and only if version and cipher are the known ones, the fields are hexadecimal, the key derives, the hash of the key's second half and the text is the stored one, the IV has 16 bytes, and the secret is the text unmasked with the key's first half |
| Envelope.OpenedErrors | keystore/passphrase.go:144-187 | the error of the first check that fails |
| Envelope.EncryptKey | keystore/passphrase.go:56-102 | the sealed file or the error, as `SealOpen` describes them |
| Envelope.DecryptKeyV3 | keystore/passphrase.go:144-187 | the opened secret, or the first failing check |
| Doubles.RoundingIsNearest | keystore/passphrase.go:207-213 | an integer is read back as a floating-point number than which none is closer |
| Doubles.TieGoesToEven | keystore/passphrase.go:207-213 | halfway between two neighbours the even one is taken |
| Doubles.SurvivesExactly | keystore/passphrase.go:207-213 | an integer is read back unchanged if and only if it is a multiple below 2^53 of a power of two |
| Doubles.FirstRounded | keystore/passphrase.go:207-213 | 2^53 + 1 is read back as 2^53 |
| Envelope.OpenReloaded | keystore/passphrase.go:189-213 | for any file and password, going through the disk does to opening what rounding the integers does, and so nothing if they are floating-point numbers |
| Envelope.ScryptCostsAreExact | keystore/passphrase.go:18-24 | every power of two, and every parallelisation that scrypt allows, is a floating-point number |
| Envelope.SealOpen | keystore/passphrase.go:144-187 | sealing succeeds exactly when the cost parameters and the IV length fit, and the file opens under its password to the secret, for all salts and IVs; so does the file read back, if the cost parameters are floating-point numbers |
| KeyStore.KeyStore.Put | keystore/keystore.go:50-74 | sealing comes first; an existing file is left alone and success reported |
| KeyStore.KeyStore.Get | keystore/keystore.go:76-102 | the stored info or the first failing check, with nothing changed |
| KeyStore.KeyStore.Delete | keystore/keystore.go:138-152 | the file goes exactly if a get with the same password succeeds |
| KeyStore.KeyStore.List | keystore/keystore.go:104-120 | every stored name exactly once |
| KeyStore.KeyStore.Exist | keystore/keystore.go:123-136 | true if and only if the name is stored |
| KeyStore.StoredExactly | keystore/keystore.go:50-74 | a put succeeds if and only if sealing with N = 2^18 and p = 1 does, also for a stored name; a stored file and all others stay |
| KeyStore.FetchedExactly | keystore/keystore.go:76-102 | a get succeeds if and only if the file is there, readable, sealed under this name, opens, and holds a key info |
| KeyStore.FetchedErrors | keystore/keystore.go:76-102 | the error of the first check that fails |
| KeyStore.RemovedExactly | keystore/keystore.go:138-152 | a delete reports what a get would, and removes exactly the named file exactly if that succeeds |
| KeyHistory.OriginExactly | keystore/keystore.go:50-74 | running through a history on any directory finds where the file of a name comes from: the first successful put since the name was last absent, or the directory at the start |
| KeyHistory.GetReadsFirstPut | keystore/keystore.go:76-102 | after any history on any directory, the password of that put reads back what it stored |
| KeyHistory.KeptFile | keystore/keystore.go:50-152 | a file that lay in the directory at the start stays as it was, gets answer as they did, and it goes exactly with the first delete whose password opens it |
| KeyHistory.PresentIffPut | keystore/keystore.go:50-152 | a name is stored if and only if it was there at the start and has been kept, or has such a put |
| KeyHistory.LaterPutsChangeNothing | keystore/keystore.go:66-71 | a later put of a stored name leaves the whole directory as it is |
| KeyHistory.OwnerCanDelete | keystore/keystore.go:138-152 | the password of the put that stored a name always deletes it, and it is then absent |

## Left out

- CheckOutput: difficulties are not negative; below zero the code shifts by a negative amount, which C leaves undefined.
- Sha256Ctx.Update: one update takes fewer than 2^32 bytes, since the code counts them in 32 bits.
- HostGeneratePow: excludes difficulties above 30, where the shift reaches the width of the integer and C defines no result.
- GeneratePow: excludes the same difficulties.
- Splitting of the 8-byte result write into smaller writes, CUDA allocation, device selection, error printing, and the debugging helpers.
- The hexadecimal decoding of the node address: a node carries the decoded bytes, and nothing is claimed about different address strings.
- HTTP calls to the validator, logging, and the polling in `Stop`: each call simply succeeds or fails.
- Start: the endless loop runs over a finite list of turns, from the `last` 0 that the constructor sets; 64-bit overflow of clock values is not modelled.
- Unforgeability of tokens, rejection of wrong passwords, and everything else that depends on the strength of HMAC, scrypt, AES or BLAKE3.
- SealOpen: the file read back opens if the cost parameters are floating-point numbers, as those of section 2 of RFC 7914 are (`ScryptCostsAreExact`).
- The conversion to an integer of floating-point numbers outside 64 bits, which Go leaves open, invalid UTF-8 in names, and the byte-level JSON text of key files.
- Path joining, absolute names, temporary files and input-output errors of the key store: names are plain file names and file operations succeed.
- Header syntax of HTTP cookies, gin handlers, deployment, Kubernetes and blockchain calls: plumbing over interfaces that are not part of this model.
