# DNA-BDS codec and key generator, in Dafny

This project models the two inner classes of `DNABDSCloudEncryption` that do
real work:

- **`DNAEncryption`**, a text codec over the alphabet {A, T, C, G}. `encrypt`
  writes each character as a zero-padded 8-bit group. It maps each bit pair to
  a base (00→A, 01→T, 10→C, 11→G). `variationalEncoding` then shuffles the
  bases and, with an identically seeded generator, the identity index array
  0..n-1. It writes the shuffled bases, a `|`, and every shuffled index
  followed by `,`. `decrypt` splits that envelope. It puts base i back at
  position `indices[i]`, then reverses the two transcoders. It never uses the
  key, because the manifest travels in the envelope.
- **`DNAKeyGenerator`**, an authorization gate in front of a string pipeline:
  1. The 8-bit encodings of the MAC and the password are spliced into the
     midpoint of the encoded identity.
  2. The result is split into four parts, and the parts are folded with
     `xorBinary`.
  3. The fold is forced to 1024 characters and split into four parts again.
  4. One unseeded random base is drawn per part, and each base is
     complemented.
  5. `xorBinary` compares the two 2-base halves.

Modules, in dependency order:

- `JavaText` (`java_text.dfy`) covers the Java library behaviour the code
  relies on:
  - `Integer.toBinaryString` and `Integer.toString`;
  - `Integer.parseInt`, with its sign handling and 32-bit range;
  - the `(char)` cast, which keeps the low 16 bits;
  - `String.split` on one literal separator, which returns the whole string
    when the separator is absent and otherwise drops trailing empty fields.
- `Transcoder` (`transcoder.dfy`) holds `textToBinary`, `binaryToText`,
  `binaryToDNA` and `dnaToBinary`. `toBinary` of the key generator is the same
  function as `textToBinary`.
- `Shuffle` (`shuffle.dfy`) is `Collections.shuffle`, a Fisher–Yates pass that
  swaps positions i-1 and `nextInt(i)` for i from n down to 2:
  - as a specification function;
  - as an in-place `array` method proved against it;
  - with the index-manifest lemmas.

  `java.util.Random` is a parameter of type `SeededRandom`. `r(seed, bounds)`
  is a fresh `new Random(seed)`'s answer to the last of a run of `nextInt`
  calls with those bounds, and it is always below its bound. Two fresh
  generators on the same key therefore make the same draws.
- `Envelope` (`envelope.dfy`) holds the envelope text and its parser.
- `Encryption` (`encryption.dfy`) holds class `DnaEncryption`. Its methods
  `VariationalEncoding` and `ReverseVariationalEncoding` work on arrays, as the
  Java does. Each Java loop is a method of its own (`CharArray`,
  `IdentityIndices`, `Letters`, `IndexText`, `ParseIndices`, `PlaceLetters`),
  with its loop invariant.
- `KeyGeneration` (`key_generation.dfy`) holds the key pipeline and datatype
  `DnaKeyGenerator`. Its fields are set once by the constructor and never
  change.

Where Java throws (`parts[1]` out of bounds, a failed `parseInt`, a
`substring` or `charAt` past the end, an index outside `originalDnaArray`), the
model returns `None`.

Three behaviours of the code are worth stating outright:

- **Empty text does not round-trip.** `encrypt("")` is `"|"`, which `split`
  turns into no part, so `decrypt` throws
  (`Encryption.EmptyTextDoesNotRoundTrip`).
- **make1024Bit keeps the front.** A longer input is cut to its first 1024
  characters (`KeyGeneration.Make1024Bit`).
- **The key keeps nothing of the identity.** The key compares the first and
  third drawn bases, and the second and fourth; the user id, password and MAC
  only decide whether a key is produced
  (`KeyGeneration.SecretKeyComparesDrawnBases`,
  `KeyGeneration.SecretKeyIgnoresCredentials`).

All paths below are relative to the repository root.

## Model

| member | source | states |
|---|---|---|
| JavaText.Digits | src/dnabds/DNABDSCloudEncryption.java:103 | `Integer.toBinaryString` / `toString` digits: non-empty, all digits of the radix, no leading zero, and their value is the number |
| JavaText.ParseInt | src/dnabds/DNABDSCloudEncryption.java:84 | `Integer.parseInt`: empty input, a lone sign, a non-digit (anywhere after an optional leading sign) or a value outside the 32-bit range is an error; digits with no sign or '+' give their value, and '-' gives its negation, when it fits; every result lies in the 32-bit range and below radix^length in magnitude |
| JavaText.ParseIntToString | src/dnabds/DNABDSCloudEncryption.java:67 | every 32-bit int written by `append(index)` parses back to itself |
| JavaText.IntToString | src/dnabds/DNABDSCloudEncryption.java:67 | the decimal text of an int is non-empty and holds only digits and '-' |
| JavaText.NarrowToChar | src/dnabds/DNABDSCloudEncryption.java:142 | the `(char)` cast keeps the value modulo 2^16 |
| JavaText.Split | src/dnabds/DNABDSCloudEncryption.java:77-79 | `split` on a separator that does not occur gives the whole string as the only field |
| JavaText.SplitJoinTerminated | src/dnabds/DNABDSCloudEncryption.java:65-79 | splitting on ',' what the index loop wrote (each token then ',') gives the tokens back, when they are non-empty and lack ',' |
| JavaText.SplitPair | src/dnabds/DNABDSCloudEncryption.java:77 | letters + "\|" + a non-empty tail splits on '\|' into exactly those two parts |
| JavaText.SplitSeparatorOnly | src/dnabds/DNABDSCloudEncryption.java:77-78 | "\|" splits into no part, so `parts[0]` is out of bounds |
| Transcoder.CharBits | src/dnabds/DNABDSCloudEncryption.java:103 | one character's group has at least 8 characters, all bits |
| Transcoder.TextToBinary | src/dnabds/DNABDSCloudEncryption.java:100-106 | the encoded text is all bits, at least 8 per character |
| Transcoder.BinaryDigitsLength | src/dnabds/DNABDSCloudEncryption.java:103 | `toBinaryString(n)` has at most 8 digits exactly when n < 256 |
| Transcoder.CharBitsOfByte | src/dnabds/DNABDSCloudEncryption.java:103 | a code below 256 gives exactly 8 bits whose binary value is the code |
| Transcoder.CharBitsOfWideChar | src/dnabds/DNABDSCloudEncryption.java:103 | a code of 256 or more gives more than 8 bits |
| Transcoder.TextToBinaryLength | src/dnabds/DNABDSCloudEncryption.java:100-106 | any single-byte text encodes to exactly 8·\|t\| bits |
| Transcoder.BinaryToText | src/dnabds/DNABDSCloudEncryption.java:138-145 | a successful decode had a multiple of 8 bits and gives one character per group |
| Transcoder.TextRoundTrip | src/dnabds/DNABDSCloudEncryption.java:138-145 | `binaryToText(textToBinary(t)) == t` for single-byte text |
| Transcoder.GroupDecodes | src/dnabds/DNABDSCloudEncryption.java:141-142 | a single-byte character's group parses back to its code, and `(char)` of the code is the character |
| Transcoder.PairsToDna | src/dnabds/DNABDSCloudEncryption.java:111-119 | at most one base per bit pair, and exactly one base, for every pair, when the input is all bits |
| Transcoder.PairToBase | src/dnabds/DNABDSCloudEncryption.java:113-118 | every bit pair maps to exactly one base |
| Transcoder.BaseToPair | src/dnabds/DNABDSCloudEncryption.java:127-132 | every base maps to two bits that the pair table maps back to it |
| Transcoder.BinaryToDna | src/dnabds/DNABDSCloudEncryption.java:109-121 | fails exactly when the bit count is odd |
| Transcoder.DnaToBinary | src/dnabds/DNABDSCloudEncryption.java:124-135 | the output is all bits, at most two per input character |
| Transcoder.BitsRoundTrip | src/dnabds/DNABDSCloudEncryption.java:109-135 | an even-length bit string gives \|b\|/2 bases, and `dnaToBinary` gives the bits back |
| Transcoder.PairRoundTrip | src/dnabds/DNABDSCloudEncryption.java:113-132 | a bit pair maps to one base, which maps back to the pair |
| Transcoder.DnaRoundTrip | src/dnabds/DNABDSCloudEncryption.java:109-135 | a base sequence gives 2·\|s\| bits, and `binaryToDNA` gives the bases back |
| Shuffle.Swap | src/dnabds/DNABDSCloudEncryption.java:55-56 | one swap exchanges two positions, leaves the rest alone, and keeps the multiset |
| Shuffle.ShuffleFrom | src/dnabds/DNABDSCloudEncryption.java:55-56 | the rest of the shuffle keeps the length (its multiset is `Shuffle.ShuffleFromPermutes`) |
| Shuffle.ShuffleFromPermutes | src/dnabds/DNABDSCloudEncryption.java:55-56 | the rest of the shuffle keeps the multiset of elements |
| Shuffle.Shuffled | src/dnabds/DNABDSCloudEncryption.java:55-56 | the shuffled list is a permutation of the input |
| Shuffle.Shuffle | src/dnabds/DNABDSCloudEncryption.java:55-56 | the in-place swap loop leaves the array equal to `Shuffled` of its old contents |
| Shuffle.SwapElements | src/dnabds/DNABDSCloudEncryption.java:55-56 | `Collections.swap` on the array leaves it equal to `Swap` of its old contents |
| Shuffle.Iota | src/dnabds/DNABDSCloudEncryption.java:49-52 | the index array holds i at position i |
| Shuffle.Compose | src/dnabds/DNABDSCloudEncryption.java:55-56 | not a model of a line: the lookup `s[m[k]]`, the definition in which the lockstep of the two shuffles at :55-56 is stated (`Shuffle.ShuffleFromCompose`) |
| Shuffle.Manifest | src/dnabds/DNABDSCloudEncryption.java:49-56 | the `indices` array after its shuffle at :56 has n entries and holds each of 0..n-1 once; its relation to the letters is `Shuffle.ManifestIsPermutation` and `Shuffle.ShuffledFollowsManifest` |
| Shuffle.ShuffleFromCompose | src/dnabds/DNABDSCloudEncryption.java:55-56 | the swaps depend only on the length, so shuffling commutes with looking indices up |
| Shuffle.ShuffleFromDistinct | src/dnabds/DNABDSCloudEncryption.java:56 | shuffling keeps the entries of an index array distinct |
| Shuffle.ManifestIsPermutation | src/dnabds/DNABDSCloudEncryption.java:49-56 | the shuffled index array lists each of 0..n-1 exactly once |
| Shuffle.ShuffledFollowsManifest | src/dnabds/DNABDSCloudEncryption.java:43-56 | the shuffled letter at i is the original letter at `indices[i]` |
| Envelope.ManifestText | src/dnabds/DNABDSCloudEncryption.java:64-68 | `indexString` never holds '\|', and is empty exactly when there are no indices |
| Envelope.EnvelopeText | src/dnabds/DNABDSCloudEncryption.java:70-71 | letters without '\|' and a non-empty manifest split on '\|' into exactly those two parts |
| Envelope.Encoded | src/dnabds/DNABDSCloudEncryption.java:41-71 | the envelope is a permutation of the letters, '\|', then the text of a manifest listing each position 0..n-1 once |
| Envelope.Tokens | src/dnabds/DNABDSCloudEncryption.java:66-68 | one decimal token per index, in order |
| Envelope.ManifestTextAppend | src/dnabds/DNABDSCloudEncryption.java:65-68 | each loop step appends the index's text and a ',' |
| Envelope.ParseAll | src/dnabds/DNABDSCloudEncryption.java:82-85 | the parse loop succeeds exactly when every token parses; the result has the tokens' values, in order |
| Envelope.ParseAllOf | src/dnabds/DNABDSCloudEncryption.java:82-85 | a per-token parse result determines the loop's whole result |
| Envelope.Fits | src/dnabds/DNABDSCloudEncryption.java:91-93 | no contract of its own: the condition under which the first k steps of the placement loop throw no `ArrayIndexOutOfBoundsException` (enough indices, each inside `originalDnaArray`); `Encryption.PlaceLetters` fails exactly when it does not hold, and once the manifest parses, so does `Envelope.Restored` |
| Envelope.Placed | src/dnabds/DNABDSCloudEncryption.java:88-93 | the array has the length of the letter part |
| Envelope.PlacedAt | src/dnabds/DNABDSCloudEncryption.java:91-93 | with distinct indices, letter i ends up at `indices[i]` |
| Envelope.Restored | src/dnabds/DNABDSCloudEncryption.java:75-97 | a successful read had a '\|' part and a manifest, and gives as many letters as the letter part |
| Envelope.TokenFacts | src/dnabds/DNABDSCloudEncryption.java:67 | a non-negative index's text is non-empty, holds neither ',' nor '\|', and parses back to the index |
| Envelope.TokensSplitBack | src/dnabds/DNABDSCloudEncryption.java:65-85 | the written manifest lacks '\|', and splitting and parsing it gives the manifest back |
| Envelope.RestoreEnvelopeText | src/dnabds/DNABDSCloudEncryption.java:75-97 | an envelope of letters and a permutation reads back to the letters placed by it |
| Envelope.PlacedInverts | src/dnabds/DNABDSCloudEncryption.java:88-93 | placing `s[m[i]]` at `m[i]` for a permutation m rebuilds s |
| Envelope.RestoreEncoded | src/dnabds/DNABDSCloudEncryption.java:41-97 | reading back the envelope of a non-empty letter sequence without '\|' gives the sequence, for every key |
| Envelope.RestoreEncodedEmpty | src/dnabds/DNABDSCloudEncryption.java:71-78 | no letters give the envelope "\|", which cannot be read back |
| Encryption.Encrypted | src/dnabds/DNABDSCloudEncryption.java:22-29 | `encrypt` fails exactly when the bit string has odd length, never for single-byte text; the envelope starts with the bases in some order, then '\|' |
| Encryption.Decrypted | src/dnabds/DNABDSCloudEncryption.java:31-38 | `decrypt` fails where the envelope cannot be read back, and gives at most one character per four letters |
| Encryption.DecryptEncrypt | src/dnabds/DNABDSCloudEncryption.java:22-38 | `decrypt(encrypt(t)) == t` for non-empty single-byte text, whatever the key |
| Encryption.EmptyTextDoesNotRoundTrip | src/dnabds/DNABDSCloudEncryption.java:22-38 | `encrypt("")` is "\|", and decrypting it fails |
| Encryption.BasesOfText | src/dnabds/DNABDSCloudEncryption.java:22-25 | single-byte text becomes four bases per character, none of them '\|', which give its bits back |
| Encryption.DnaEncryption.constructor | src/dnabds/DNABDSCloudEncryption.java:17-20 | the object keeps the given key |
| Encryption.DnaEncryption.Encrypt | src/dnabds/DNABDSCloudEncryption.java:22-29 | the result is text to bits to bases to envelope, and for non-empty single-byte text it decrypts back |
| Encryption.DnaEncryption.Decrypt | src/dnabds/DNABDSCloudEncryption.java:31-38 | the result is the envelope read back, then bases to bits to text, with no key involved |
| Encryption.DnaEncryption.VariationalEncoding | src/dnabds/DNABDSCloudEncryption.java:41-72 | the array loops and the two in-place shuffles produce the shuffled letters, '\|' and the shuffled manifest; so the same input and key give the same envelope, which reads back to the input |
| Encryption.DnaEncryption.ReverseVariationalEncoding | src/dnabds/DNABDSCloudEncryption.java:75-97 | the parse loop and the placement loop into a fresh array compute `Restored`, failing where Java throws |
| Encryption.CharArray | src/dnabds/DNABDSCloudEncryption.java:43-46 | the copy loop gives a fresh array holding the letters |
| Encryption.IdentityIndices | src/dnabds/DNABDSCloudEncryption.java:49-52 | the index loop gives a fresh array holding 0..n-1 |
| Encryption.Letters | src/dnabds/DNABDSCloudEncryption.java:59-62 | the append loop gives the array's letters in order |
| Encryption.IndexText | src/dnabds/DNABDSCloudEncryption.java:65-68 | the append loop writes every index then ',' |
| Encryption.ParseIndices | src/dnabds/DNABDSCloudEncryption.java:82-85 | the parse loop fails exactly when a token does not parse, and otherwise gives a fresh array of the parsed values |
| Encryption.PlaceLetters | src/dnabds/DNABDSCloudEncryption.java:88-96 | the placement loop gives the placed letters when every index is present and in bounds, and fails otherwise |
| KeyGeneration.AddMacAndPassword | src/dnabds/DNABDSCloudEncryption.java:190-193 | the MAC then the password sit at the midpoint, and removing them gives the data back; bits in give bits out |
| KeyGeneration.Chunks | src/dnabds/DNABDSCloudEncryption.java:195-202 | the chunks concatenate to the input; each is non-empty and at most the step; all but the last have exactly the step |
| KeyGeneration.ChunksOfMultiple | src/dnabds/DNABDSCloudEncryption.java:195-202 | q·size characters make exactly q chunks of exactly size |
| KeyGeneration.ChunksOfDivisor | src/dnabds/DNABDSCloudEncryption.java:195-202 | when `count` divides a non-empty length, the chunks of \|data\|/count characters are exactly `count` pieces of that size |
| KeyGeneration.SplitIntoParts | src/dnabds/DNABDSCloudEncryption.java:195-202 | the parts concatenate to the data; all have length \|data\|/k but a possibly shorter last; when k divides a non-empty length there are exactly k equal parts |
| KeyGeneration.XorBinary | src/dnabds/DNABDSCloudEncryption.java:212-218 | the result has the length of a, is all bits, and is '0' exactly where a and b agree |
| KeyGeneration.XorCancels | src/dnabds/DNABDSCloudEncryption.java:212-218 | on bit strings, xoring twice with b gives a back |
| KeyGeneration.XorFold | src/dnabds/DNABDSCloudEncryption.java:204-210 | the fold succeeds exactly when no later part is shorter than the accumulator, and keeps its length |
| KeyGeneration.XorParts | src/dnabds/DNABDSCloudEncryption.java:204-210 | `xorParts` fails exactly on no parts or a part shorter than the first; the result has the first part's length |
| KeyGeneration.XorFoldIsParity | src/dnabds/DNABDSCloudEncryption.java:204-218 | on bit strings, the fold's position i is the accumulator's bit xor the parity of the parts' bits at i |
| KeyGeneration.XorPartsIsParity | src/dnabds/DNABDSCloudEncryption.java:204-218 | on bit strings, `xorParts` is the bitwise xor of all parts |
| KeyGeneration.Make1024Bit | src/dnabds/DNABDSCloudEncryption.java:220-229 | exactly 1024 characters: the first 1024 of a longer input, or the input padded with '0' |
| KeyGeneration.DrawBases | src/dnabds/DNABDSCloudEncryption.java:233-237 | one base per draw |
| KeyGeneration.AssignDnaBases | src/dnabds/DNABDSCloudEncryption.java:231-239 | one base per part, whatever the parts hold |
| KeyGeneration.Partner | src/dnabds/DNABDSCloudEncryption.java:244-249 | a base's partner is a different base |
| KeyGeneration.ApplyComplementaryPair | src/dnabds/DNABDSCloudEncryption.java:241-252 | never longer than the input; on bases, the same length with each base replaced by its partner |
| KeyGeneration.ComplementInvolution | src/dnabds/DNABDSCloudEncryption.java:241-252 | complementing twice gives the bases back |
| KeyGeneration.DnaXor | src/dnabds/DNABDSCloudEncryption.java:254-257 | no part fails (`get(0)` throws); a lone part is returned as it is; with two parts or more, the result exists exactly when the second is not shorter than the first, and is then bits of the first's length, '0' exactly where the first two parts agree |
| KeyGeneration.DnaKeyGenerator | src/dnabds/DNABDSCloudEncryption.java:150-158 | no contract of its own: the three fields `userId`, `password` and `macAddress`, which the constructor sets and nothing changes, so the generator is a value |
| KeyGeneration.DnaKeyGenerator.IsAuthorizedUser | src/dnabds/DNABDSCloudEncryption.java:178-180 | only the user id "AuthorizedUserID" passes, a 16-character single-byte id |
| KeyGeneration.DnaKeyGenerator.SplicedBits | src/dnabds/DNABDSCloudEncryption.java:165-167 | the spliced string is all bits, as long as the three encodings together; it is empty only for an empty identity, and otherwise has at least 8 bits |
| KeyGeneration.DnaKeyGenerator.FoldedIdentity | src/dnabds/DNABDSCloudEncryption.java:168-169 | the fold fails on an empty spliced string, is at most a quarter of it, and always exists with exactly a quarter when its length is a non-zero multiple of 4 |
| KeyGeneration.DnaKeyGenerator.GenerateSecretKey | src/dnabds/DNABDSCloudEncryption.java:160-180 | "Unauthorized access" exactly for a user id other than "AuthorizedUserID"; an authorized key is 2 bits |
| KeyGeneration.SplicedLength | src/dnabds/DNABDSCloudEncryption.java:165-167 | the spliced string has 8·(\|u\|+2\|p\|+2\|m\|) bits for single-byte identities |
| KeyGeneration.KeyFromFold | src/dnabds/DNABDSCloudEncryption.java:170-175 | steps `make1024Bit` to `dnaXor` never throw; the key is 2 bits, and bit i is '0' exactly when drawn bases i and i+2 agree, whatever the folded bits |
| KeyGeneration.KeyIgnoresFold | src/dnabds/DNABDSCloudEncryption.java:170-175 | any two folded bit strings give the same key from the same draws |
| KeyGeneration.HalvesOfFour | src/dnabds/DNABDSCloudEncryption.java:174 | four bases split into their two halves |
| KeyGeneration.CompareComplementedHalves | src/dnabds/DNABDSCloudEncryption.java:173-175 | after complementing four bases, comparing the halves gives '0' at i exactly when bases i and i+2 agree |
| KeyGeneration.FoldOfEqualParts | src/dnabds/DNABDSCloudEncryption.java:168-169 | a non-empty string whose length is a multiple of 4 makes four equal parts, whose fold does not throw |
| KeyGeneration.SplicedQuarters | src/dnabds/DNABDSCloudEncryption.java:165-168 | an authorized identity with single-byte password and MAC splices into a non-empty multiple of 4 bits, so `splitIntoParts(binaryData, 4)` makes four equal parts |
| KeyGeneration.AuthorizedUserGetsKey | src/dnabds/DNABDSCloudEncryption.java:160-176 | an authorized user with single-byte password and MAC always gets a key |
| KeyGeneration.SecretKeyComparesDrawnBases | src/dnabds/DNABDSCloudEncryption.java:160-176 | key bit i is '0' exactly when drawn bases i and i+2 agree |
| KeyGeneration.SecretKeyIgnoresCredentials | src/dnabds/DNABDSCloudEncryption.java:160-176 | two authorized generators with the same draws get the same key, whatever their password and MAC |

## Left out

- `java.util.Random` and `Collections.shuffle` are library code. The generator
  is the parameter `SeededRandom`; only its range and its determinism per seed
  are assumed.
- The unseeded `new Random()` in `assignDNABases` is modelled by that
  parameter, and `entropy` stands for the seed Java picks itself.
- The `random` field of `DNAEncryption` (:15, :19) is never read and is not
  modelled.
- The `String.hashCode` seeding done by callers is caller code; the codec takes
  an integer key.
- The `CSPT` class is a demonstration ledger of `println`s, off the codec path.
- `testEncryptionProcess`, `writeResultsToCSV`, `testEncryptionDecryptionWithUserLoad`,
  `processDataAndEncrypt` and `main` do console input, CSV writing and
  `nanoTime` timing.
- `src/dnabds/DNABDSCloudSimEnvironment.java`, `src/dnabds/CustomCloudletScheduler.java`,
  `src/dnabds/CityPulseDataLoader.java` and `src/dnabds/DynamicMemory.java`
  are simulation setup, file reading and floating-point resource scaling.
  They are not part of this model.
- Characters outside the Basic Multilingual Plane are not modelled. Dafny's
  `char` holds no surrogate code, so `(char)` of a surrogate value has no
  counterpart (the codec's values stay below 256).
- JavaText.ParseInt: accepts ASCII digits of radix 2 to 10 only. Java's
  `Character.digit` also accepts other Unicode digits. Only radix 2 and 10
  occur in the code.
- JavaText.Split: models `split` with a single literal separator character,
  which is the only way the code uses it; general regular expressions are not
  modelled.
- Encryption.DecryptEncrypt and Encryption.DnaEncryption.Encrypt: the round trip
  is stated for `4 * |plaintext| <= INT_MAX`, so that every manifest index
  fits an `int`. Java's own limit on string length already caps the 8·|t|
  characters `textToBinary` builds, so every text Java can encrypt meets it.
- KeyGeneration.SplitIntoParts: requires that the data is empty or has at
  least `partsCount` characters. Otherwise the step is 0 and the Java loop
  never terminates; `generateSecretKey` never reaches that case.
