# Models of the hand-written runtime components

This project models the six components of the runtime that hold real state machines, codecs or arithmetic, and proves
what they are for. `dafny verify dfyconfig.toml` checks everything.

**Deno KV** (`quickjs/runtime/deno-kv.js`). An ordered store over a sorted byte map: the key codec (`KvKeys`, with the
engine's own UTF-8 codec in `Utf8`), selectors (`KvRange`), the structured-clone codec on a heap of objects
(`KvValues`, `KvValueTheorems`, and the two recursive programs in `KvValueCodec`), versionstamps (`KvStamps`), atomic
commits and the queue (`KvStore`, `KvHistory`, `KvQueue`), what they come to for one key or message (`KvEffects`), and
the paging iterator (`KvList`, `KvListTheorems`).

**Ed25519 and Ed448** (`quickjs/native/fg_crypto.c`). Congruences, Fermat's theorem and square roots modulo p
(`EdField`, `EdRoots`); the addition law, its completeness, closure and associativity (`EdCurve`, `EdGroup`,
`EdAssociativity`); projective points, double-and-add and the way back (`EdPoints`); the point codec (`EdCodec`) and
key expansion, signing and verification over an uninterpreted hash (`EdSign`). `EdSuites` instantiates both curves;
what is left as a hypothesis is `EdSuites.NumberTheory`: p is prime, and L B = O. **Streaming ECB**
in the same file is compared with the one-shot form of `graak_native.c` in `Ecb`.

**Node-API** (`quickjs/native/napi.c`). Thread-safe functions as an interleaving of critical sections (`NapiTsf`,
`NapiTsfTheorems`), the calls themselves as methods of a host that take those steps (`NapiTsfHost`), and the handle
arena with scopes and escapes (`NapiHandles`, `NapiArena`).

**The libuv subset** (`quickjs/native/fg_uv.c`). The thread pool as an interleaving of any number of loop threads and
up to four workers (`UvPool`, `UvPoolInvariants`, `UvPoolTheorems`), and its intrusive lists (`UvLists`).

**The single-file payload** (`quickjs/native/fg_sea.c`). The sorted index as a directory tree (`SeaTree`,
`SeaTreeTheorems`), the path normaliser in its buffer (`SeaPath`) and the block cache (`SeaCache`).

**Cron** (`quickjs/runtime/deno-test.js`). The calendar of ECMAScript dates (`Calendar`), the jump-ahead search over a
date object (`Cron`) and the field parser (`CronFields`).

`Arithmetic`, `Sequences`, `Bytes`, `BigEndian`, `LittleEndian` and `Wrappers` are shared helpers.

Places where the code does less than its surroundings promise are kept as they are, with the exact condition and an
input:

- a prefix with a start or end key lets a NUL continuation through (`KvRange.WithinExactly`, `KvRange.NulKeySelected`);
- a list cursor from outside the selector can leave it (`KvListTheorems.StaysInsideIff`,
  `KvListTheorems.CursorLeavesPrefix`);
- what the value codec does not give back (`KvValueTheorems.IsomorphicIffKept`, with `ShapeLosses`, `PropertyLosses` and
  `SharingIsLost` of the same module);
- a message whose handler makes it uncloneable is lost instead of being written under its keys
  (`KvStore.WrittenUnderKeys`, `KvQueue.SpoiltMessageIsLost`);
- two aborts of a thread-safe function post two close tasks, the second of which finds it freed
  (`NapiTsfTheorems.MainThreadTouches`, `NapiTsfTheorems.SecondCloseTouches`), and an abort that leaves a holder can free
  it under that holder (`NapiTsfTheorems.LoneAbortIsSafe`, `NapiTsfTheorems.AbortWithHolderFrees`);
- a blocking call takes a queue over its limit (`NapiTsfTheorems.PassesLimit`, `NapiTsfTheorems.BlockingOverfills`);
- decrypting nothing with padding fails when streamed and succeeds in one call (`Ecb.InChunks`);
- a directory whose prefix is itself an entry is not seen as one (`SeaTree.DirStart`, `SeaTree.PrefixEntryHides`), and a
  listing can repeat a name that is both a file and a directory (`SeaTreeTheorems.ListedOnce`,
  `SeaTreeTheorems.ListedTwice`);
- a weekday range such as FRI-SUN allows nothing (`CronFields.SundayByName`, `CronFields.FridayToSundayIsEmpty`).

## Model

| member | source | states |
|---|---|---|
| `KvKeys.EncodePreservesOrder` | quickjs/runtime/deno-kv.js:47-97 | for any two keys (bigint magnitudes under 2^32 bytes) the byte order of their encodings is the order bytes < strings < bigints < numbers < booleans on part lists, although part codes are not prefix-free |
| `KvKeys.KindsCompare` | quickjs/runtime/deno-kv.js:47-97 | in that order byte strings come before strings, strings before bigints, then numbers, then false before true |
| `KvKeys.TextCodes` | quickjs/runtime/deno-kv.js:51-69 | the bytes of a byte string with a NUL and of a string with an accent, written out |
| `KvKeys.BigCodes` | quickjs/runtime/deno-kv.js:78-89 | the bytes of 258n and -258n, written out |
| `KvKeys.NumberCodes` | quickjs/runtime/deno-kv.js:70-77 | the bytes of 1 and -1, written out |
| `KvKeys.BoolCodes` | quickjs/runtime/deno-kv.js:90-93 | the bytes of the two booleans, written out |
| `KvKeys.PartOrder` | quickjs/runtime/deno-kv.js:47-97 | the same for one part against another, whatever parts follow |
| `KvKeys.BigOrder` | quickjs/runtime/deno-kv.js:78-89 | sign byte, complemented length and complemented magnitude order bigints as integers |
| `KvKeys.NumberPatternOrder` | quickjs/runtime/deno-kv.js:70-77 | the sign-flipped eight bytes order doubles as their patterns do |
| `KvKeys.NumberOrderIsNumeric` | quickjs/runtime/deno-kv.js:70-77 | that pattern order is numeric order on finite doubles; only -0 and 0 are told apart |
| `KvKeys.EscapedOrder` | quickjs/runtime/deno-kv.js:51-58 | NUL escaping keeps the order of byte strings, whatever follows |
| `KvKeys.DecodeInverts` | quickjs/runtime/deno-kv.js:59-141 | decoding an encoded key gives the key with lone surrogates replaced by U+FFFD |
| `KvKeys.RoundTrip` | quickjs/runtime/deno-kv.js:59-141 | a key comes back unchanged exactly when no string part has a lone surrogate |
| `KvKeys.EncodeKey` | quickjs/runtime/deno-kv.js:59-97 | the encoding loop produces the specified bytes, or fails on an empty key |
| `KvKeys.EncodeOne` | quickjs/runtime/deno-kv.js:62-95 | one turn of that loop: the code of one part |
| `KvKeys.PushEscaped` | quickjs/runtime/deno-kv.js:51-58 | the escaping loop appends the escaped form of a byte string |
| `KvKeys.MagnitudeBytes` | quickjs/runtime/deno-kv.js:82-86 | the shifting loop gives the minimal big-endian bytes of a magnitude |
| `KvKeys.DecodeKey` | quickjs/runtime/deno-kv.js:99-141 | the index-driven decoding loop computes the part-by-part decoder |
| `KvKeys.ReadEscapedAt` | quickjs/runtime/deno-kv.js:102-116 | the escape reader stops at the first zero that 0xff does not follow, and says where |
| `KvKeys.ReadNumber` | quickjs/runtime/deno-kv.js:129-133 | the two accumulation loops read a possibly complemented big-endian number |
| `KvKeys.ReadBigAt` | quickjs/runtime/deno-kv.js:127-135 | a bigint part read at a position is the one the decoder specifies |
| `Utf8.RoundTrip` | quickjs/runtime/node-compat.js:405-543 | decoding encoded text gives it back exactly when it has no lone surrogate |
| `Utf8.EncodeOrder` | quickjs/runtime/node-compat.js:405-450 | the byte order of encoded text is code point order |
| `Utf8.ExampleBytes` | quickjs/runtime/node-compat.js:405-450 | the bytes of text from each length of code and of a lone surrogate, written out |
| `Utf8.DecodeScalarsInverts` | quickjs/runtime/node-compat.js:452-543 | the decoder reads back every sequence of scalar values that was encoded |
| `KvRange.PrefixSelects` | quickjs/runtime/deno-kv.js:467-471 | a prefix-only range holds exactly the keys that extend the prefix by at least one whole part |
| `KvRange.StartEndSelects` | quickjs/runtime/deno-kv.js:482-483 | without a prefix, start and end select exactly the keys k with start <= k < end in key order |
| `KvRange.AcceptedIff` | quickjs/runtime/deno-kv.js:463-484 | which selectors are accepted: a non-empty prefix with at most one bound that goes on from it, by parts or by a NUL, or no prefix and both bounds, non-empty; all others are refused |
| `KvRange.SplitIsUnique` | quickjs/runtime/deno-kv.js:51-97 | of two part codes with something after them only one split is possible unless a continuation starts with 0xff |
| `KvRange.WithinExactly` | quickjs/runtime/deno-kv.js:469 | the byte test accepts the extensions of a prefix and, besides them, exactly the keys whose last shared part goes on with a NUL |
| `KvRange.NulKeySelected` | quickjs/runtime/deno-kv.js:476-479 | under the prefix a, the end key a NUL b is accepted and selects a NUL, which does not extend the prefix |
| `KvRange.PrefixStartSelects` | quickjs/runtime/deno-kv.js:472-475 | prefix with a start that extends it selects the extensions not below the start |
| `KvRange.PrefixEndSelects` | quickjs/runtime/deno-kv.js:476-479 | prefix with an end that extends it selects the extensions below the end |
| `KvRange.NulStartSelectsNothing` | quickjs/runtime/deno-kv.js:472-475 | an accepted start that only goes on with a NUL selects nothing |
| `KvRange.NulEndSelects` | quickjs/runtime/deno-kv.js:476-479 | an accepted end that goes on with a NUL adds the NUL continuations below it |
| `KvValues.WalkInverts` | quickjs/runtime/deno-kv.js:158-253 | decoding what the encoder walk wrote gives the value renamed by the pre-order numbers, and the images of exactly the objects newly numbered |
| `KvValueTheorems.RoundTrip` | quickjs/runtime/deno-kv.js:158-253 | for every finite graph, cycles and sharing included: one decoded object per object that the encoder sees, in order of first visits, with renamed contents and the shape that coding leaves; encoding terminates |
| `KvValueTheorems.IsomorphicIffKept` | quickjs/runtime/deno-kv.js:158-253 | the decoded heap is isomorphic to the graph, buffers under views included, exactly when every reachable object is plain (the built-in prototype that the stored name selects, no property besides those stored) and of a kind that coding keeps (valid Date, listed view class, error that its global class rebuilds), and every reachable view covers a whole buffer that nothing else refers to |
| `KvValueTheorems.IsoIsOnto` | quickjs/runtime/deno-kv.js:158-253 | such an isomorphism reaches everything that the decoded value reaches |
| `KvValueTheorems.SharingIsLost` | quickjs/runtime/deno-kv.js:174-178 | two views of one buffer, a view beside its buffer, and a view of part of a buffer do not come back |
| `KvValueTheorems.ShapeLosses` | quickjs/runtime/deno-kv.js:167-235 | what becomes of an invalid Date, a DataView, an AggregateError (its message turns into its errors), and an error with an unknown name or an empty stack; InternalError is kept |
| `KvValueTheorems.PropertyLosses` | quickjs/runtime/deno-kv.js:168-184 | an error of a subclass, with a code or with a name of its own, an array, Date or Map with properties or of a subclass, and a record of a class or with a symbol key come back as the plain object |
| `KvValueTheorems.RestoredIffKept` | quickjs/runtime/deno-kv.js:168-250 | an object survives coding, its contents aside, exactly when it passes that check, for any set of global error classes |
| `KvValueTheorems.ThrowsIffUncloneable` | quickjs/runtime/deno-kv.js:165 | encoding throws exactly when a function or symbol is reachable |
| `KvValueTheorems.WalkReaches` | quickjs/runtime/deno-kv.js:160-183 | the walk numbers only objects reachable from the value |
| `KvValueCodec.Encoder.WalkValue` | quickjs/runtime/deno-kv.js:160-183 | the recursive walk over a growing table computes the specified tree and numbering, or fails where it does |
| `KvValueCodec.Encoder.WalkValues` | quickjs/runtime/deno-kv.js:170-181 | the loops over entries, elements and properties do so in order |
| `KvValueCodec.Decoder.WalkJson` | quickjs/runtime/deno-kv.js:188-250 | the decoder, pushing each object before its contents, appends exactly the specified objects |
| `KvValueCodec.Decoder.Fill` | quickjs/runtime/deno-kv.js:211-246 | adding decoded elements one by one builds the specified container |
| `KvValueCodec.Decoder.FillMap` | quickjs/runtime/deno-kv.js:205-210 | the same for a Map, an entry at a time |
| `KvValueCodec.StoreAndLoad` | quickjs/runtime/deno-kv.js:158-253 | storing and reading back by the two programs gives a heap that the round-trip and isomorphism theorems describe |
| `KvValues.SetHolds` | quickjs/runtime/deno-kv.js:158-253 | adding any values to a Set leaves each of them once, the two zeros as one |
| `KvValues.MapSetThenGet` | quickjs/runtime/deno-kv.js:205-210 | setting a key of a Map replaces what it held or adds it, and leaves the other keys |
| `KvStamps.StampOrder` | quickjs/runtime/deno-kv.js:275 | below 2^64 commits, stamps have twenty digits and string order is commit order |
| `KvStamps.StampMeans` | quickjs/runtime/deno-kv.js:275 | a stamp is at least twenty digits 0-9a-f that read as 65536 times its commit number |
| `KvStamps.StampExample` | quickjs/runtime/deno-kv.js:275 | the stamp of commit 171, written out |
| `KvStamps.StampInjective` | quickjs/runtime/deno-kv.js:275 | different commit numbers have different stamps, at any size |
| `KvStore.Kv.Commit` | quickjs/runtime/deno-kv.js:506-563 | the transaction with its early exits, roll-backs and loops gives the database and outcome that the KvEffects and KvHistory lemmas describe |
| `KvStore.Kv.Pump` | quickjs/runtime/deno-kv.js:580-597 | the queue hands out the first ready row by (ready, id), or a wait of 1 to 250 ms that is not too long |
| `KvStore.Kv.Failed` | quickjs/runtime/deno-kv.js:602-616 | a rejection retries, writes the undelivered keys, drops, or throws and loses the message, as attempts, options and message say |
| `KvStore.WrittenUnderKeys` | quickjs/runtime/deno-kv.js:607-613 | a message given up on ends under all of its keys at a new version and nothing else changes; it is lost exactly when it has keys and cannot be encoded any more, or the counter is used up |
| `KvStore.MutateAllThrows` | quickjs/runtime/deno-kv.js:522-543 | a mutation that throws makes the whole list throw |
| `KvHistory.SameStampSameValue` | quickjs/runtime/deno-kv.js:506-563 | in every run, equal versionstamps of a key at two moments mean identical stored bytes and encoding |
| `KvHistory.CheckedCommitSeesWhatWasRead` | quickjs/runtime/deno-kv.js:512-519 | in every run, a commit that checks stamps read earlier is refused exactly when some entry no longer reads as it did, a row that expired or was written again included |
| `KvHistory.StampsIncrease` | quickjs/runtime/deno-kv.js:520-521 | stamps of successful commits strictly increase in string order (a commit number above 2^53 - 1 cannot be read, and the commit throws) |
| `KvHistory.CommitAllOrNothing` | quickjs/runtime/deno-kv.js:506-563 | a refused or throwing commit changes nothing; a successful one moves the version by one; refusal iff some check fails |
| `KvHistory.MutationsArePerKey` | quickjs/runtime/deno-kv.js:522-543 | each key after a commit is the fold of its own mutations, and the commit throws iff some key's fold does |
| `KvEffects.CommitSucceedsIff` | quickjs/runtime/deno-kv.js:506-563 | without arithmetic, a commit is refused exactly when a stamp differs, and otherwise fails exactly when a value or message cannot be stored or the counter has reached 2^53 - 1 |
| `KvEffects.ArithmeticCommits` | quickjs/runtime/deno-kv.js:533-542 | a commit of any number of sums, minima or maxima on a live counter leaves the sum modulo 2^64, the least or the greatest of its number and all operands |
| `KvEffects.CombinedIs` | quickjs/runtime/deno-kv.js:540 | one step of it: the sum less 2^64 if it overflows, the smaller number, the larger number |
| `KvEffects.CounterStarts` | quickjs/runtime/deno-kv.js:538-540 | without a live row, the first operand is stored |
| `KvEffects.ArithmeticNeedsCounter` | quickjs/runtime/deno-kv.js:535-537 | on another kind of live value arithmetic throws and the database stays as it was |
| `KvEffects.SetIsStored` | quickjs/runtime/deno-kv.js:527-532 | the last set of a key in a commit is what the table holds afterwards, with the new version and an end at commit time plus expireIn |
| `KvEffects.ValueLives` | quickjs/runtime/deno-kv.js:527-532 | a value stored at time t with a life of ms reads back, with the stamp of its commit, exactly at times before t + ms, over every run in which nothing else writes its key |
| `KvEffects.DeletedIsGone` | quickjs/runtime/deno-kv.js:523-526 | a key whose last mutation deletes it is absent after the commit |
| `KvQueue.MessagesAreConserved` | quickjs/runtime/deno-kv.js:544-549 | in every run each sent message is in exactly one of waiting, in flight or ended, carried by at most one row, attempted at most one more time than its schedule is long, exactly so often when given up |
| `KvEffects.NotBeforeDue` | quickjs/runtime/deno-kv.js:586-593 | in every run, a row of the queue is not handed out before it is due |
| `KvEffects.MessageIsQueued` | quickjs/runtime/deno-kv.js:544-549 | each message of a commit is in the queue, untried, due its delay after the commit |
| `KvEffects.RetryIsQueued` | quickjs/runtime/deno-kv.js:602-607 | a rejected message comes back exactly while its schedule lasts, due at the rejection plus the entry of that attempt, by default 100, 200, 400, 800 or 1600 ms |
| `KvEffects.NextIs` | quickjs/runtime/deno-kv.js:586 | of the rows that are due, the one due first is handed out, of equals the one stored first |
| `KvEffects.EqualsKeepOrder` | quickjs/runtime/deno-kv.js:544-586 | of two messages of a commit with one delay, the later is not handed out while the earlier waits |
| `KvQueue.SpoiltMessageIsLost` | quickjs/runtime/deno-kv.js:607-613 | a run in which the handler makes its message uncloneable: it has keys to be written under, and is lost |
| `KvQueue.CommitConserves` | quickjs/runtime/deno-kv.js:544-549 | a commit adds exactly its messages |
| `KvQueue.EventConserves` | quickjs/runtime/deno-kv.js:580-620 | dispatching, handling, failing and retrying keep every message accounted for |
| `KvListTheorems.ListIsMonotone` | quickjs/runtime/deno-kv.js:346-398 | whatever commits happen between calls: strictly monotone keys of the range, each row live at some call, never more than the limit |
| `KvListTheorems.ListIsComplete` | quickjs/runtime/deno-kv.js:370-389 | a key live at every call is handed out by a listing that ends without reaching its limit (batchSize >= 1) |
| `KvListTheorems.PagesAddUp` | quickjs/runtime/deno-kv.js:370-389 | without commits the pages are the first rows of one scan, limit included |
| `KvListTheorems.PageIsSmall` | quickjs/runtime/deno-kv.js:374 | a page has at most 500 rows, the batch size, and what the limit leaves, and one of these exactly if more is live |
| `KvListTheorems.ResumeContinues` | quickjs/runtime/deno-kv.js:361-367 | for any cursor: of the range, a resumed listing lists exactly what comes after the cursor, forward and reverse, and that is all if it stays in the range |
| `KvListTheorems.StaysInsideIff` | quickjs/runtime/deno-kv.js:363-366 | a resumed listing stays in the range of its selector exactly when, forward, the key after the cursor is not below the start, or, in reverse, the cursor is not above the end (or nothing is left) |
| `KvListTheorems.CursorLeavesPrefix` | quickjs/runtime/deno-kv.js:363-366 | under the prefix b, a listing resumed from the key a also lists the key ab |
| `KvListTheorems.CursorIsLastKey` | quickjs/runtime/deno-kv.js:387 | the cursor is the key of the last row handed out, whatever is committed between calls |
| `KvListTheorems.ResumeFromCursor` | quickjs/runtime/deno-kv.js:361-387 | on an unchanged table, what a listing handed out and what one resumed from its cursor lists are the one scan, wherever the first stopped |
| `KvList.Scan` | quickjs/runtime/deno-kv.js:486-494 | the query loop gives the first keys of the range in order, with their rows |
| `KvList.KvListIterator.Next` | quickjs/runtime/deno-kv.js:370-389 | one call fetches a page when needed and hands out its first row |
| `KvList.OrderedSplit` | quickjs/runtime/deno-kv.js:486-494 | the ordered listing of a range is that of the part below a cut, then that of the part above |
| `KvList.Successor` | quickjs/runtime/deno-kv.js:381 | nothing lies between a key and the key with a zero byte appended |
| `EdSuites.SigningIsCompleteOnBothCurves` | quickjs/native/fg_crypto.c:1498-1682 | on Ed25519 and Ed448, for every seed, message and hash, verification accepts the signature under the seed's public key (given that p is prime and L B = O) |
| `EdSign.SigningIsComplete` | quickjs/native/fg_crypto.c:1575-1682 | the same for any curve record meeting those hypotheses |
| `EdSign.SigningEquation` | quickjs/native/fg_crypto.c:1609-1611 | (k a + r mod L) B = r B + k (a B) |
| `EdSign.MultipleModOrder` | quickjs/native/fg_crypto.c:1488-1495 | scalars may be reduced modulo L when L B = O |
| `EdSign.Sign` | quickjs/native/fg_crypto.c:1575-1623 | the program gives the signature that SignatureInFull spells out; wrong seed lengths give nothing |
| `EdSign.SignatureInFull` | quickjs/native/fg_crypto.c:1575-1623 | R || S with R = r B encoded, S = (k a + r) mod L in little-endian, r = H(dom || prefix || msg) mod L and k = H(dom || R || A || msg) mod L, each hashed string written out, dom being "SigEd448" and two zero bytes or nothing |
| `EdSign.NonceInFull` | quickjs/native/fg_crypto.c:1593-1595 | the nonce hashes the second half of the hashed seed and the whole message |
| `EdSign.Public` | quickjs/native/fg_crypto.c:1521-1541 | the program gives the encoding of a B for the clamped scalar |
| `EdSign.Verify` | quickjs/native/fg_crypto.c:1626-1682 | true exactly when AcceptedInFull holds of the input; malformed input is false |
| `EdSign.AcceptedInFull` | quickjs/native/fg_crypto.c:1626-1668 | accepted exactly when R and A encode curve points, S < L, and S B = R + k A for k = H(dom || R || A || msg) mod L, the hashed string written out |
| `EdSign.ChallengeBinds` | quickjs/native/fg_crypto.c:1546-1571 | the strings hashed for two challenges are equal exactly when R, A and the message are |
| `EdSign.Balanced` | quickjs/native/fg_crypto.c:1658-1666 | comparing affine coordinates decides the verification equation |
| `EdSign.Expand` | quickjs/native/fg_crypto.c:1498-1519 | byte clamping gives the scalar 2^254 + ... (2^447 + ... for Ed448) of RFC 8032, and the prefix |
| `EdSign.ScalarBytes` | quickjs/native/fg_crypto.c:1504-1515 | the clamped scalar byte by byte: the low bits of the first byte cleared, the high bit of the last set |
| `EdSign.ScalarIsClamped` | quickjs/native/fg_crypto.c:1504-1515 | secret scalars are multiples of the cofactor with a fixed top bit |
| `EdSign.AcceptsOnly` | quickjs/native/fg_crypto.c:1645-1661 | the points in the verification equation are determined by the key and the signature |
| `EdCodec.Decode` | quickjs/native/fg_crypto.c:1383-1461 | succeeds exactly on encodings of curve points, with the only such point; -1 iff y is out of range, -3 iff a sign is set on x = 0 |
| `EdCodec.EncodeInjective` | quickjs/native/fg_crypto.c:1364-1380 | two curve points have the same encoding exactly when they are equal |
| `EdCodec.Encode` | quickjs/native/fg_crypto.c:1364-1380 | the program writes y little-endian with the parity of x in the top bit |
| `EdCodec.EncodingBytes` | quickjs/native/fg_crypto.c:1364-1380 | byte i is digit i of y to the base 256; the last byte has 128 added when x is odd |
| `EdCodec.SquareRoot` | quickjs/native/fg_crypto.c:1412-1436 | the exponentiation gives a square root exactly when there is one, for p = 3 mod 4 and p = 5 mod 8 |
| `EdCodec.RootForY` | quickjs/native/fg_crypto.c:1401-1442 | the quotient it takes the root of has exactly the x of points with that y as its roots |
| `EdCodec.RootIffOnCurve` | quickjs/native/fg_crypto.c:1401-1411 | x^2 = (y^2 - 1) / (d y^2 - a) is the curve equation |
| `EdCodec.DenominatorOfRoot` | quickjs/native/fg_crypto.c:1404-1409 | d y^2 - a never vanishes, so the inversion never fails |
| `EdPoints.Add` | quickjs/native/fg_crypto.c:1271-1324 | the projective formulas, step by step and with aliasing arguments, give the affine sum |
| `EdPoints.Mul` | quickjs/native/fg_crypto.c:1327-1346 | double-and-add gives the k-fold sum |
| `EdPoints.Affine` | quickjs/native/fg_crypto.c:1349-1362 | coordinates are recovered; no result exactly when z vanishes |
| `EdPoints.MultipleOfSum` | quickjs/native/fg_crypto.c:1327-1346 | (m + n) P = m P + n P |
| `EdPoints.MultipleOfMultiple` | quickjs/native/fg_crypto.c:1327-1346 | m (n P) = (m n) P |
| `EdAssociativity.Associative` | quickjs/native/fg_crypto.c:1270-1324 | the addition law on curve points is associative, proved from the formulas |
| `EdAssociativity.Commutes` | quickjs/native/fg_crypto.c:1270-1324 | and commutative |
| `EdAssociativity.Neutral` | quickjs/native/fg_crypto.c:1260-1324 | (0, 1) is its neutral element |
| `EdGroup.BracketVanishes` | quickjs/native/fg_crypto.c:1270-1324 | the polynomial at the heart of associativity is a combination of three curve equations |
| `EdCurve.DenominatorsNonzero` | quickjs/native/fg_crypto.c:1270-1324 | the law is complete: its denominators never vanish when a is a square and d is not |
| `EdCurve.SumIsOnCurve` | quickjs/native/fg_crypto.c:1270-1324 | sums of curve points are on the curve |
| `EdRoots.CandidateIsRoot` | quickjs/native/fg_crypto.c:1412-1436 | the candidate is a root iff a root exists, for both kinds of primes |
| `EdRoots.TwoToTheHalf` | quickjs/native/fg_crypto.c:1424-1432 | 2^((p-1)/2) = -1 for p = 5 mod 8, so the second try can work |
| `EdField.Fermat` | quickjs/native/fg_crypto.c:1416-1421 | Fermat's theorem, from the binomial theorem |
| `EdField.InvModInverts` | quickjs/native/fg_crypto.c:1354 | the extended Euclidean inverse inverts |
| `EdField.PrimeInvertible` | quickjs/native/fg_crypto.c:1409 | modulo a prime exactly the multiples have no inverse |
| `EdSuites.NonSquare25519` | quickjs/native/fg_crypto.c:1219 | for Ed25519, d is not a square modulo p, so the addition law is complete |
| `EdSuites.NonSquare448` | quickjs/native/fg_crypto.c:1234-1235 | for Ed448 neither |
| `EdSuites.TwoIsNoSquare` | quickjs/native/fg_crypto.c:1424-1432 | 2 is not a square modulo p = 5 mod 8 |
| `EdSuites.Suite25519` | quickjs/native/fg_crypto.c:1213-1224 | the Ed25519 constants fit their widths, the base point is on the curve and a is a square |
| `EdSuites.Suite448` | quickjs/native/fg_crypto.c:1226-1240 | the same for Ed448 |
| `Ecb.InChunks` | quickjs/native/fg_crypto.c:2062-2149 | for every chunking, updates then final give the one-shot result; only decrypting nothing with padding differs, and fails |
| `Ecb.Stream.Update` | quickjs/native/fg_crypto.c:2075-2097 | the hold buffer always has exactly what came after the last block that went out, whatever the chunk sizes |
| `Ecb.Stream.Final` | quickjs/native/fg_crypto.c:2120-2149 | the last output completes the one-shot result on all input, or the error it gives |
| `Ecb.Crypt` | quickjs/native/graak_native.c:1746-1815 | the one-shot program computes block-wise encryption with PKCS#7 padding or none, and its inverse checks |
| `Ecb.DecryptEncrypt` | quickjs/native/graak_native.c:1746-1815 | decrypting undoes encrypting, for any data with padding and whole blocks without |
| `Ecb.BlockByBlock` | quickjs/native/graak_native.c:1775-1786 | the k-th block of the output is the permuted k-th block of the input |
| `Ecb.EncryptedIs` | quickjs/native/graak_native.c:1752-1786 | padded encryption is the data followed by n bytes of value n, 1 <= n <= block size, that fill the last block, encrypted |
| `Ecb.UnpaddedIs` | quickjs/native/graak_native.c:1793-1815 | taking padding off succeeds exactly on what ends in n bytes of value n, 1 <= n <= block size |
| `Ecb.ThereAndBack` | quickjs/native/fg_crypto.c:2062-2149 | decrypting under any chunking undoes encrypting under any other |
| `Ecb.UnpadLast` | quickjs/native/fg_crypto.c:2134-2145 | removing padding needs the last block only |
| `Ecb.UnpadPadding` | quickjs/native/graak_native.c:1752-1815 | the padding of section 6.3 of RFC 5652 always comes off again |
| `NapiTsfTheorems.DeliveredInOrder` | quickjs/native/napi.c:2253-2278 | in every interleaving calls are delivered in order of acceptance, and queued is the number not yet delivered |
| `NapiTsfTheorems.CloseTasks` | quickjs/native/napi.c:2288-2308 | a function gets one close task per abort, or without aborts one when its last thread releases it |
| `NapiTsfTheorems.TwoAborts` | quickjs/native/napi.c:2297-2306 | a run in which two aborts post two close tasks |
| `NapiTsfTheorems.FinalizerComesLast` | quickjs/native/napi.c:2767-2779 | as long as no freed memory is touched, the finalizer runs at most once, after every accepted call was delivered; memory is freed after it |
| `NapiTsfTheorems.MainThreadTouches` | quickjs/native/napi.c:2767-2779 | the main thread touches a freed function exactly at a close task after the first one, which takes a second abort |
| `NapiTsfTheorems.HolderTouches` | quickjs/native/napi.c:2288-2308 | a function is freed while a thread still holds it only if somebody aborted it |
| `NapiTsfTheorems.LoneAbortIsSafe` | quickjs/native/napi.c:2288-2308 | if every abort of a function finds no other holder, nobody holds it once it is freed |
| `NapiTsfTheorems.AbortWithHolderFrees` | quickjs/native/napi.c:2288-2308 | in every run, a first abort that leaves a holder can go on to the function being freed under that holder |
| `NapiTsfTheorems.ComesToRest` | quickjs/native/napi.c:2781-2842 | while no function was aborted twice, the main thread can always empty its queue |
| `NapiTsfTheorems.PlainReleaseIsSafe` | quickjs/native/napi.c:2288-2308 | with plain releases neither happens |
| `NapiTsfTheorems.SecondCloseTouches` | quickjs/native/napi.c:2767-2779 | a run with two aborts whose second close task finds the function freed |
| `NapiTsfTheorems.AbortLeavesHolder` | quickjs/native/napi.c:2288-2308 | a run with one abort that frees the function under the other thread, whose next call touches it |
| `NapiTsfTheorems.CloseFollowsCalls` | quickjs/native/napi.c:2253-2308 | in the queue a close task follows every call task of its function |
| `NapiTsfTheorems.QuietMeansFinalized` | quickjs/native/napi.c:2767-2842 | when nothing is under way, all calls were made, and a function is finalized exactly when it was released by all threads or aborted; with two aborts there is no coming to rest without touching freed memory |
| `NapiTsfTheorems.PumpWhileLive` | quickjs/native/napi.c:415-430 | g_live counts referenced functions and unfinished work, and the pump runs exactly while it is positive |
| `NapiTsfTheorems.LimitHolds` | quickjs/native/napi.c:2253-2278 | in every run without a blocking call of a function its queue stays within the limit |
| `NapiTsfTheorems.PassesLimit` | quickjs/native/napi.c:2253-2278 | a step takes a queue over its limit exactly when it is a blocking call of a function that is not closing and whose queue is full |
| `NapiTsfTheorems.CallIsAccepted` | quickjs/native/napi.c:2253-2278 | in every state, a call of a function neither closing nor freed that is blocking, unlimited or below its limit returns napi_ok and appends its data to the queue |
| `NapiTsfTheorems.CallIsRefused` | quickjs/native/napi.c:2259-2263 | queue full exactly for a nonblocking call of an open function at its limit, closing exactly on a closing one; both change nothing |
| `NapiTsfTheorems.AcquireAdds` | quickjs/native/napi.c:2279-2287 | acquiring adds a thread to an open function and changes nothing else |
| `NapiTsfTheorems.ReleaseTakes` | quickjs/native/napi.c:2288-2308 | a release takes one thread and decides a close exactly on abort or when the last thread of an open function goes |
| `NapiTsfTheorems.RefsCount` | quickjs/native/napi.c:2309-2320 | ref and unref raise and lower the live count once, and the pump runs exactly while it is positive |
| `NapiTsfTheorems.BlockingOverfills` | quickjs/native/napi.c:2253-2278 | two blocking calls put two calls into a queue of one |
| `NapiTsfTheorems.StepKeepsInv` | quickjs/native/napi.c:2221-2320 | every critical section keeps those facts |
| `NapiTsfHost.Host.Call` | quickjs/native/napi.c:2253-2278 | closing first, then queue full exactly for a nonblocking call with 0 < max_queue_size <= queued, changing nothing; else the data goes to the tail of the queue and is counted |
| `NapiTsfHost.Host.Acquire` | quickjs/native/napi.c:2279-2287 | one more thread, and nothing else, unless closing |
| `NapiTsfHost.Host.Release` | quickjs/native/napi.c:2288-2308 | release is its counting section followed, when it closes, by the posting one |
| `NapiTsfHost.Host.CountDown` | quickjs/native/napi.c:2292-2305 | the flag logic closes exactly on abort or on the first drop to zero threads |
| `NapiTsfHost.Host.Ref` | quickjs/native/napi.c:2315-2320 | ref restores liveness once |
| `NapiTsfHost.Host.Unref` | quickjs/native/napi.c:2309-2314 | unref drops liveness once |
| `NapiTsfHost.Host.LiveDec` | quickjs/native/napi.c:423-430 | liveness never goes below zero and stops the pump at zero |
| `NapiTsfHost.Host.Finish` | quickjs/native/napi.c:2767-2775 | a close task finalizes a function that still exists and is not finalized |
| `NapiTsfHost.Host.DrainAll` | quickjs/native/napi.c:2781-2842 | draining (callbacks doing nothing, no function aborted twice) empties the queue in order and makes every accepted call |
| `NapiHandles.ScopeReturns` | quickjs/native/napi.c:1481-1497 | any well-nested body inside a scope or native call leaves the top at its mark and every earlier slot as it was, escapes aside |
| `NapiHandles.EscapableReturns` | quickjs/native/napi.c:1498-1517 | an escapable scope leaves one more slot, undefined unless something escaped |
| `NapiHandles.EscapedLives` | quickjs/native/napi.c:1518-1531 | an escaped value stays in its slot until the frame around its scope closes |
| `NapiHandles.BodyKeeps` | quickjs/native/napi.c:231-255 | live slots never change while their frame is open, except that an escape fills its slot once |
| `NapiHandles.AllReleased` | quickjs/native/napi.c:249-255 | every stored reference is live or released once; when all is closed each was released exactly once |
| `NapiHandles.StepNested` | quickjs/native/napi.c:448-480 | frames stay nested, escapable slots right below their marks |
| `NapiArena.Arena.H` | quickjs/native/napi.c:231-247 | storing fills the next slot, allocating a chunk when needed; existing chunks stay in place; fails only when the arena is full |
| `NapiArena.Arena.HandlesClose` | quickjs/native/napi.c:249-255 | closing releases from the top down to the mark |
| `NapiArena.Arena.OpenEscapableScope` | quickjs/native/napi.c:1498-1510 | opening reserves the slot below the mark |
| `NapiArena.Arena.EscapeHandle` | quickjs/native/napi.c:1518-1531 | escaping swaps the references in the reserved slot, once |
| `UvPoolTheorems.OnePlaceOnly` | quickjs/native/fg_uv.c:802-889 | in every interleaving a request is on at most one of pool queue, worker, done list or delivered, and starts at most once |
| `UvPoolTheorems.CancelledNeverRuns` | quickjs/native/fg_uv.c:870-889 | a cancelled request never starts and reports UV_ECANCELED; any other delivered one ran once |
| `UvPoolTheorems.FirstInFirstExecuted` | quickjs/native/fg_uv.c:802-868 | requests start in order of insertion, skipping cancelled ones; nreqs is exactly the outstanding requests of the loop |
| `UvPoolTheorems.TokensCoverQueue` | quickjs/native/fg_uv.c:829-849 | tokens, releases under way and woken workers cover the queue, and a queue has a worker |
| `UvPoolTheorems.FourWorkers` | quickjs/native/fg_uv.c:829-849 | in every run there are at most four workers, and an insertion can start one exactly while there are fewer |
| `UvPoolTheorems.StuckMeansDelivered` | quickjs/native/fg_uv.c:438-476 | when nothing can move any more, every submitted request was delivered or refused |
| `UvPoolTheorems.ProgressEnds` | quickjs/native/fg_uv.c:438-476 | without new requests every schedule is finite |
| `UvPoolInvariants.StepKeepsInv` | quickjs/native/fg_uv.c:790-889 | every critical section keeps conservation, counting, ownership, statuses, coverage, wake-ups and order |
| `UvPoolInvariants.StepConserves` | quickjs/native/fg_uv.c:790-889 | every step keeps each request in exactly one place |
| `UvPoolInvariants.StepCounts` | quickjs/native/fg_uv.c:851-868 | nreqs stays the number of outstanding requests |
| `UvPoolInvariants.StepKeepsOrder` | quickjs/native/fg_uv.c:829-849 | started requests followed by the queue are the inserted ones without the cancelled |
| `UvLists.RequestList.Append` | quickjs/native/fg_uv.c:843-845 | appending through the intrusive link adds at the end |
| `UvLists.RequestList.Pop` | quickjs/native/fg_uv.c:809-813 | popping takes the first and keeps the list linked |
| `UvLists.RequestList.Remove` | quickjs/native/fg_uv.c:877-882 | unlinking removes exactly the request, wherever it is |
| `UvLists.UnlinkIsWithout` | quickjs/native/fg_uv.c:877-882 | unlinking is the removal that the step system uses |
| `UvLists.Pool.Submit` | quickjs/native/fg_uv.c:829-849 | pool_submit is the Insert step and then the Release step, or the Refuse step, which takes a pool without threads |
| `UvLists.LoopState.RunPending` | quickjs/native/fg_uv.c:457-475 | draining delivers the done list once, in order, lowers nreqs by its length, and leaves what the drain of the interleaved system leaves |
| `UvLists.DrainRuns` | quickjs/native/fg_uv.c:457-475 | that drain is a run of Pop and Deliver steps |
| `UvLists.Cancel` | quickjs/native/fg_uv.c:870-889 | cancelling is the Cancel step and then the CancelDone step: a queued request moves to the done list of its loop, marked; any other is busy and nothing changes |
| `SeaTree.InOrder` | quickjs/native/fg_sea.c:884-888 | the adjacent comparisons at load time establish full sortedness, and only that |
| `Bytes.LessMeans` | quickjs/native/fg_sea.c:282-287 | memcmp order with the shorter first: less at the first difference, or a proper prefix |
| `SeaTree.Lower` | quickjs/native/fg_sea.c:290-302 | binary search splits the index at a path |
| `SeaTree.Find` | quickjs/native/fg_sea.c:304-311 | a file is found exactly when its path is in the index |
| `SeaTree.DirStart` | quickjs/native/fg_sea.c:314-331 | the first entry inside a directory; found iff something is below, the prefix fits, and no entry is the prefix itself |
| `SeaTree.PrefixEntryHides` | quickjs/native/fg_sea.c:314-331 | in the index a/, a/b something lies below a, and a is not seen as a directory |
| `SeaTree.Stat` | quickjs/native/fg_sea.c:672-698 | file iff the path is an entry, else directory iff something is below (same conditions) |
| `SeaTree.ListableMeans` | quickjs/native/fg_sea.c:314-331 | a directory needs an entry below it, a path under 4095 bytes, and no entry that is the path and a slash; the root needs any entry |
| `SeaTree.Readdir` | quickjs/native/fg_sea.c:701-733 | the scan lists the names of all entries inside, in order, immediate repetitions squashed |
| `SeaTree.NoGap` | quickjs/native/fg_sea.c:722 | entries of a directory are contiguous, so stopping at the first other one misses none |
| `SeaTree.PrefixBetween` | quickjs/native/fg_sea.c:282-287 | in memcmp order what lies between two extensions of a prefix extends it |
| `SeaTreeTheorems.ListedIffChild` | quickjs/native/fg_sea.c:701-733 | a listing contains exactly the children |
| `SeaTreeTheorems.ListedOnce` | quickjs/native/fg_sea.c:726-729 | each once, exactly unless a child is both file and directory with an entry sorting between |
| `SeaTreeTheorems.TreesListOnce` | quickjs/native/fg_sea.c:726-729 | in particular when no file is also a directory |
| `SeaTreeTheorems.ListedTwice` | quickjs/native/fg_sea.c:726-729 | the index a, a-b, a/c lists a twice |
| `SeaPath.Relative` | quickjs/native/fg_sea.c:337-384 | the buffer algorithm succeeds exactly when the segment resolver does and leaves its stack joined by slashes |
| `SeaPath.Apply` | quickjs/native/fg_sea.c:362-379 | one segment changes the buffer as it changes the stack |
| `SeaPath.Ascend` | quickjs/native/fg_sea.c:370-371 | running back to the previous slash drops exactly the last segment |
| `SeaPath.RootMatches` | quickjs/native/fg_sea.c:340-356 | the root comparison, with case and slash folding on Windows |
| `SeaPath.FailsIffOutside` | quickjs/native/fg_sea.c:337-384 | a path that fits is refused exactly when it is outside the root or climbs above it at some step |
| `SeaPath.ResolvedIsProper` | quickjs/native/fg_sea.c:357-383 | results have no empty, "." or ".." segment and fit the buffer |
| `SeaPath.ResolveAgain` | quickjs/native/fg_sea.c:337-384 | resolving root + "/" + output gives the same output, exactly unless the host is Windows and the root has a backslash |
| `SeaPath.DotsUndo` | quickjs/native/fg_sea.c:366-373 | a segment and a following .. can be left out of a path without changing where it leads |
| `SeaPath.DotsFail` | quickjs/native/fg_sea.c:366-369 | a path that begins with .. fails |
| `SeaPath.NothingChanges` | quickjs/native/fg_sea.c:363-365 | so can an empty segment and a dot |
| `SeaPath.OthersStay` | quickjs/native/fg_sea.c:374-379 | a path without them resolves to its own segments |
| `SeaPath.SegmentsSplit` | quickjs/native/fg_sea.c:359-362 | segments end at a slash or backslash and nowhere else |
| `SeaPath.SameByteMeans` | quickjs/native/fg_sea.c:344-350 | on Windows letters match without case and a backslash of the path matches a slash of the root, elsewhere bytes match themselves |
| `SeaCache.Cache.BlockData` | quickjs/native/fg_sea.c:406-457 | reading a block gives its decompressed bytes whatever is cached, and leaves the cache as the LRU policy says |
| `SeaCache.Cache.Trim` | quickjs/native/fg_sea.c:387-403 | trimming drops least recently used blocks only while over budget, and ends, zero-size blocks included |
| `SeaCache.Cache.Choose` | quickjs/native/fg_sea.c:439-446 | an empty slot if there is one, else the least recently used |
| `SeaCache.Cache.Release` | quickjs/native/fg_sea.c:789-798 | release shrinks to the steady budget |
| `SeaCache.TrimmedIsTight` | quickjs/native/fg_sea.c:387-403 | the budget is met or only the newest is left, and nothing was dropped needlessly |
| `SeaCache.HitMoves` | quickjs/native/fg_sea.c:413-418 | reading a cached block moves it to the new end and leaves the others |
| `SeaCache.MissEvictsOldest` | quickjs/native/fg_sea.c:439-455 | reading another drops blocks from the old end only, and none while a slot is free and the budget holds |
| `SeaCache.PolicyMeans` | quickjs/native/fg_sea.c:387-403 | the policy in plain terms: no block twice, at most 64, within the budget or alone |
| `SeaCache.UsedKeepsPolicy` | quickjs/native/fg_sea.c:406-457 | reads keep blocks unique, within 64 slots and the budget (or one block), the block just read being the newest |
| `SeaCache.TrimKeepsPolicy` | quickjs/native/fg_sea.c:789-798 | so does a smaller budget |
| `SeaCache.Run` | quickjs/native/fg_sea.c:387-457 | any sequence of reads and releases answers every read with the decompressed block |
| `Cron.NextRun` | quickjs/runtime/deno-test.js:343-371 | returns the first whole minute strictly after the given time that matches, none earlier matching, and fails iff no minute ever matches: the guard is never what stops it otherwise |
| `Cron.FiresIff` | quickjs/runtime/deno-test.js:343-371 | a schedule fires at all exactly when its fields name a real hour, minute, month and day of that month or weekday |
| `Cron.MatchesAt` | quickjs/runtime/deno-test.js:348-368 | minute k of hour h of a day matches exactly when month, day, hour and minute are in their sets |
| `Cron.DayRule` | quickjs/runtime/deno-test.js:353-355 | with both day fields given either may match; with one given it decides; with none every day matches |
| `Cron.FirstMonday` | quickjs/runtime/deno-test.js:343-371 | "0 0 * * MON" first fires on 1970-01-05 |
| `Cron.SkipMonth` | quickjs/runtime/deno-test.js:348-352 | a month jump skips only minutes that do not match |
| `Cron.SkipDay` | quickjs/runtime/deno-test.js:356-360 | so does a day jump |
| `Cron.SkipHour` | quickjs/runtime/deno-test.js:361-364 | and an hour jump |
| `Cron.JumpDay` | quickjs/runtime/deno-test.js:348-360 | jumping to a later day uses up one turn of the bound |
| `Cron.JumpHour` | quickjs/runtime/deno-test.js:361-364 | so does an hour jump |
| `Cron.JumpMinute` | quickjs/runtime/deno-test.js:365-368 | and a minute step |
| `Cron.FiresSoon` | quickjs/runtime/deno-test.js:347 | a schedule that ever matches does so within 400 years after any minute |
| `Cron.NextMonth` | quickjs/runtime/deno-test.js:349-350 | the date setters land on the first of the next month at midnight |
| `Cron.NextDay` | quickjs/runtime/deno-test.js:357-358 | on the next midnight |
| `Cron.NextHour` | quickjs/runtime/deno-test.js:362 | on the next full hour |
| `Calendar.DaysRepeat` | quickjs/runtime/deno-test.js:344-370 | the Gregorian calendar repeats after 400 years, weekdays included |
| `Calendar.EpochIs` | quickjs/runtime/deno-test.js:348-354 | day 0 is Thursday, 1 January 1970 |
| `Calendar.NextDate` | quickjs/runtime/deno-test.js:348-358 | each day is one weekday later, Sunday after Saturday, and one date later, up to the length of its month |
| `Calendar.MonthIs` | quickjs/runtime/deno-test.js:344-370 | a day lies in exactly one month |
| `Calendar.MonthLengths` | quickjs/runtime/deno-test.js:344-370 | 30 days have April, June, September and November, February 28 or in a leap year 29, all others 31 |
| `CronFields.FieldSet` | quickjs/runtime/deno-test.js:272-302 | the loops add exactly the values of the comma-separated parts; one bad part rejects the field |
| `CronFields.AddPiece` | quickjs/runtime/deno-test.js:299 | one part adds start, start + step, ... up to its end |
| `CronFields.AllowedInRange` | quickjs/runtime/deno-test.js:274-299 | whatever a field allows is within its limits, Sunday being 0 |
| `CronFields.StarAllowsAll` | quickjs/runtime/deno-test.js:287-289 | a star or question mark allows every value of the field |
| `CronFields.StarSteps` | quickjs/runtime/deno-test.js:284-289 | a star with step n allows the lowest value and every n-th after it |
| `CronFields.ValueAlone` | quickjs/runtime/deno-test.js:295-298 | a value by itself allows itself |
| `CronFields.ValueSteps` | quickjs/runtime/deno-test.js:295-299 | a/n allows a, a + n, ... up to the limit of the field |
| `CronFields.RangeAllows` | quickjs/runtime/deno-test.js:290-294 | a-b allows what lies between, a weekday range to the digit 7 Sunday as well |
| `CronFields.RangeSteps` | quickjs/runtime/deno-test.js:290-299 | a-b/n allows a, a + n, ... up to b, with the same exception |
| `CronFields.NamesMean` | quickjs/runtime/deno-test.js:268-280 | JAN to DEC are 1 to 12, SUN to SAT are 0 to 6 |
| `CronFields.LongNames` | quickjs/runtime/deno-test.js:276-278 | of a longer name the first three letters count |
| `CronFields.NumbersMean` | quickjs/runtime/deno-test.js:278-280 | a number stands for itself within the limits, a weekday 7 for Sunday, and is refused otherwise |
| `CronFields.Refused` | quickjs/runtime/deno-test.js:283-296 | a step that is no positive integer, or an end out of the limits, is refused |
| `CronFields.SundayByName` | quickjs/runtime/deno-test.js:290-294 | a weekday range ending on Sunday reaches it only when written with 7: FRI-SUN allows nothing |
| `CronFields.FridayToSundayIsEmpty` | quickjs/runtime/deno-test.js:290-294 | FRI-SUN is accepted and allows no day |
| `CronFields.ParseSchedule` | quickjs/runtime/deno-test.js:306-317 | five fields become the five value sets and the two open flags |
| `CronFields.ParsedFiresIff` | quickjs/runtime/deno-test.js:305-371 | a parsed schedule fires exactly when its sets are non-empty and some month has an allowed day |

## Left out

- KvKeys.DecodeKey: on bytes that break off inside a part it reports an error, where the source loops, throws or misreads; such bytes are never in the database.
- KvKeys.EncodeKey: parts of other JavaScript types, which the source rejects with a TypeError, are not in the datatype.
- Utf8.RoundTrip: the codec is the engine's own; the byte order mark that Node's TextDecoder strips is not modelled.
- KvValueTheorems.RoundTrip: the property name `__proto__`, names, messages and stacks of errors that are not strings, shared buffers, and rewriting of stacks by the engine are not modelled; nor is a global error class whose constructor takes neither a message nor errors first. What makes an object not plain (its class, further properties, holes, being frozen) is one flag, not the property that is lost.
- KvStore.Kv.Commit: SQLite is a map with lexicographic order; the closed-handle check, other processes, `watch` and the write-ahead log are not modelled, and the clock is a parameter.
- KvQueue.MessagesAreConserved: runs without a crash or close, with one listener at a time; that nothing pumps the queue after a loss until the next commit is not modelled.
- KvList.KvListIterator.Next: `return()` and the decoding of rows into keys and values are left out; rows are compared as stored.
- EdSuites.SigningIsCompleteOnBothCurves: primality of p and L B = O are hypotheses (`EdSuites.NumberTheory`); hashes are arbitrary functions of the right output length.
- EdPoints.Add: memory exhaustion of the bignum library is not modelled, so error returns other than failed inversion do not occur; constant-time behaviour is not a claim.
- EdSign.Verify: SHA-512 and the sponge enter only through the hash parameter.
- Ecb.Crypt: the block permutation is an uninterpreted function of whole blocks; failure of the library on a block, other modes and authenticated ciphers are left out.
- NapiTsfHost.Host.DrainAll: callbacks are assumed to do nothing there; `NapiTsf` allows any step between any two. It does not model two aborts of one function, after which the source reads freed memory, nor exceptions in callbacks.
- NapiTsfTheorems.FinalizerComesLast: runs end where a step would touch a freed function, since nothing can be said of the source from there on.
- NapiHandles.AllReleased: references are counted per value in the arena; reference counts elsewhere in the engine are not.
- UvPoolTheorems.StuckMeansDelivered: the wake event of a loop is represented by its kick flag; handles, timers and nested uv_run are left out.
- UvLists.LoopState.RunPending: asyncs are left out, and callbacks submit nothing there; `UvPool` allows submissions between any two deliveries.
- SeaTree.InOrder: only the order check of the index loader is modelled; parsing, sizes and the path check are not.
- SeaPath.Relative: the flag for a host without a payload is left out.
- SeaCache.Cache.BlockData: decompression is a constant of each block; allocation failure and wrap-around of the tick are not modelled.
- Cron.NextRun: times are unbounded integers, without the range limit of ECMAScript dates.
- CronFields.ParseSchedule: the split at white space happens before; Number and toUpperCase are parameters; the object form of schedules is left out.
- Sockets, TLS, child processes, file extraction, DNS, HTTP, the foreign function interface, WebAssembly, SQLite bindings, the Deno and Node adapters, build tools and the Intl generators: plumbing or tables, easy to model and with little to prove.
- Windows argument quoting, `napi_remove_wrap` followed by another wrap, and condition variables: the code does not support the properties one would state.
- The SHAKE sponge, the reader/writer lock, timer order, handle accounting and the bigint word codec: smaller state machines than the ones above.
