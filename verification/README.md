# Verified models of the spider's core

The spider remembers the URIs it has seen by 64-bit keys made of Rabin fingerprints, elects a master over ZooKeeper,
lends logged-in accounts through a pool, keeps a ring of checkpoint directories, and shows its figures in a web console
that draws charts and reads and writes dates. These Dafny modules model that code and prove what it is there for.

- `Polynomials`, `Words`, `Fingerprints`, `FingerprintLaws`, `FPGenerator`: the table-driven fingerprint generator. A word
  is a polynomial over GF(2) with the coefficient of x^0 in its top bit, so a right shift multiplies by x. The class builds
  its tables in the loops of the original; every method is proved against remainders modulo the generator's polynomial P.
- `UriKey`, `UriFilter`: the key of a URI and the already-seen filter over a store whose operations may fail. The filter is
  compared, over whole histories, with an exact set of URIs.
- `FlotClip`, `FlotArea`, `FlotAreaLaws`, `FlotAreaOrder`: clipping of line series against the axis box, over the reals, and
  the sweep that goes forward along the tops, turns at a gap, comes back along the bottoms and fills.
- `Election`: any number of processes that boot, contest the master znode, crash and lose sessions in any order. The methods
  of `SpiderProcess` are the code between two ZooKeeper calls; `Act` is the step they are proved to take, and the theorems
  are about all interleavings of such steps.
- `PoolAccounts`, `PoolLog`, `ConnectionPool`: accounts and connections as objects that the pool, its clients, the exhausted
  list and the waiting queue hand around. A log tells what happened to the accounts; the methods are proved to keep fields
  and log together, and the laws are about logs.
- `CheckpointRotation`, `CheckpointLaws`, `Checkpointer`: naming, eviction and validity stamps of checkpoint directories,
  over every number of runs and after restarts. The class is proved to do what the abstract steps say.
- `Calendar`, `Texts`, `DateText`, `DateFormats`, `DateTextLaws`, `DateTextTokens`, `MarchText`: month arithmetic on civil
  dates, and writing and reading them in a format. The day arithmetic of JavaScript dates is that of section 15.9.1 of
  ECMA-262 5.1.
- `Decimals`, `Options`, `ArchiveText`, `LongBytes`: numerals, padded integers, printed durations, longs as bytes.

Loops and updates are methods with invariants, proved against functions that say what is computed; the laws are lemmas
about these functions. `hide` at the head of a body keeps definitions that a proof does not need out of it.

What the code does decides where its comments say something else:

- The class comment of `FPGenerator` defines fingerprints by f(S) mod P with a leading one. In the code the empty string has
  the fingerprint x^64 mod P and one byte step is (f + v) x^8, so the fingerprint is that of x^64 times the polynomial.
- The constructor asks for an irreducible polynomial; nothing proved here needs more than its degree and, where stated, its
  constant term.
- `byteArrayIntoLong` is documented to decode a long from any offset. Its loop ends at index 8 whatever the offset;
  `StoredIsRead` says exactly when that is right.
- `formatMillisecondsToConventional` compares with `>`, so exactly one day is printed as 24 hours and without milliseconds
  one second can be missing; `SecondsRead` says exactly when. The least long has no absolute value; `DurationRead` says
  what that does.
- `ACCOUNT_TOO_OFFTEN` is meant to lengthen the reuse interval with the number of failures, but nothing ever raises that
  number, so the interval becomes 0 (`ReturnConn`).
- Ten checkpoints are meant to be kept, the newest. The index starts at 1 with every start of the program and the directory
  is not cleared, so after a restart the directories kept are the newest only under the condition of
  `AlwaysSoundIffOrderly`; `RestartIsSound` says what it comes to. An Error, unlike an Exception, is stamped as a completed
  checkpoint (`ErrorIsStamped`).
- An account is meant to be lent within its hourly maximum. A client whose wait is interrupted gets the exhausted connection
  that was set aside last, uncounted, and that stays among the exhausted; `Serve` says that this is all that can go wrong.
- What is written in a format is meant to be read back in it. The hours are looked for after the month is put in, so an h
  behind March becomes the hours; `AllReadBackIffFormat` says exactly when all dates are read back.
- The winner of a contest closes its old node first, which fails when it has none yet: the znode is then owned by a process
  that does not become master (`ElectionPromote`).
- A master whose session expires is meant to have priority. It stays a master without the znode; `AlwaysSafeIffHarmless`
  says exactly which runs are safe.

## Model

| member | source | states |
|---|---|---|
| Polynomials.CongruentIffSameRemainder | src/main/java/com/lmdna/spider/berkeleydb/FPGenerator.java:73-75 | two polynomials differ by a multiple of P exactly if their remainders are equal: what "equal mod polynomial" means |
| Polynomials.RemainderIsUnique | src/main/java/com/lmdna/spider/berkeleydb/FPGenerator.java:73-74 | the remainder is the only polynomial of degree below d in its congruence class |
| Polynomials.RemCancelShl | src/main/java/com/lmdna/spider/berkeleydb/FPGenerator.java:91-97 | when P has constant term 1, a power of x can be cancelled from a multiple of P |
| Words.ViewXor | src/main/java/com/lmdna/spider/berkeleydb/FPGenerator.java:91-97 | exclusive or of words is addition of the polynomials they stand for, with the coefficient of x^0 in the top bit |
| Words.ViewInjective | src/main/java/com/lmdna/spider/berkeleydb/FPGenerator.java:69-75 | a word is determined by its polynomial, so equal residues are equal fingerprints |
| Words.ViewTimes | src/main/java/com/lmdna/spider/berkeleydb/FPGenerator.java:337 | a right shift by k multiplies by x^k and loses nothing when the low k bits are zero |
| Words.LeadingBit | src/main/java/com/lmdna/spider/berkeleydb/FPGenerator.java:330-336 | the mask test of the table loop finds out exactly whether the coefficient of x^(d-1) is set |
| Fingerprints.ModulusOf64 | src/main/java/com/lmdna/spider/berkeleydb/FPGenerator.java:322-330 | for degree 64 every word is a polynomial, since the leading term is implicit |
| FPGenerators.FPGenerator.PowerTable | src/main/java/com/lmdna/spider/berkeleydb/FPGenerator.java:327-341 | PowerTable[i] is x^i mod P for all i below 128, both with the leading bit explicit (d < 64) and implicit (d = 64) |
| FPGenerators.FPGenerator.SumOfPowers | src/main/java/com/lmdna/spider/berkeleydb/FPGenerator.java:350-357 | the innermost loop adds up exactly the powers of the set bits |
| FPGenerators.FPGenerator.ByteModTable | src/main/java/com/lmdna/spider/berkeleydb/FPGenerator.java:344-360 | entry [i][j] is the remainder of the sum of x^(127-8i-k) over the set bits k of j, for all 16 times 256 entries |
| FPGenerators.FPGenerator.constructor | src/main/java/com/lmdna/spider/berkeleydb/FPGenerator.java:322-361 | any polynomial of the stated degree gives a valid generator whose empty fingerprint is x^64 mod P; irreducibility is not needed |
| FPGenerators.FPGenerator.Entry | src/main/java/com/lmdna/spider/berkeleydb/FPGenerator.java:80 | a lookup by the low byte gives the reduced multiple that the row stands for |
| Fingerprints.PowerStep | src/main/java/com/lmdna/spider/berkeleydb/FPGenerator.java:335-340 | multiplying the last power by x and, on overflow, adding the polynomial gives the next power reduced |
| Fingerprints.EntryStep | src/main/java/com/lmdna/spider/berkeleydb/FPGenerator.java:351-357 | one bit of j more adds exactly its power to the partial table entry |
| Fingerprints.WideStep | src/main/java/com/lmdna/spider/berkeleydb/FPGenerator.java:91-136 | k byte steps, least significant byte first, are one step that adds k bytes and multiplies by x^(8k) |
| Fingerprints.FoldByte | src/main/java/com/lmdna/spider/berkeleydb/FPGenerator.java:79-82 | one table lookup removes one byte from the word and leaves the sum in its congruence class |
| Fingerprints.ReduceEnd | src/main/java/com/lmdna/spider/berkeleydb/FPGenerator.java:75-84 | what the loop of reduce leaves has degree below d, also for degrees that are no multiples of 8 |
| Fingerprints.ExtendedConcat | src/main/java/com/lmdna/spider/berkeleydb/FPGenerator.java:215-220 | extending by a concatenation is extending by its parts in turn |
| Fingerprints.ExtendedCongruent | src/main/java/com/lmdna/spider/berkeleydb/FPGenerator.java:86-90 | congruent words stay congruent when extended by the same bytes |
| FPGenerators.FPGenerator.Reduce | src/main/java/com/lmdna/spider/berkeleydb/FPGenerator.java:75-84 | returns the residue of degree below d, for every degree from 1 to 64 |
| FingerprintLaws.ReducedIsCanonical | src/main/java/com/lmdna/spider/berkeleydb/FPGenerator.java:73-84 | the reduced word is the one and only word of degree below d that is congruent to the argument |
| FingerprintLaws.ReducedLaws | src/main/java/com/lmdna/spider/berkeleydb/FPGenerator.java:73-84 | reduction is idempotent, fixes exactly the words of degree below d, and two words reduce to the same exactly if they are congruent |
| FPGenerators.FPGenerator.ExtendByte | src/main/java/com/lmdna/spider/berkeleydb/FPGenerator.java:91-97 | congruent to the argument extended by one byte, whatever the upper bits of v |
| FPGenerators.FPGenerator.ExtendChar | src/main/java/com/lmdna/spider/berkeleydb/FPGenerator.java:101-108 | congruent to two byte steps, low byte first, whatever the upper bits of v |
| FPGenerators.FPGenerator.ExtendInt | src/main/java/com/lmdna/spider/berkeleydb/FPGenerator.java:112-121 | congruent to four byte steps, low byte first |
| FPGenerators.FPGenerator.ExtendLong | src/main/java/com/lmdna/spider/berkeleydb/FPGenerator.java:125-136 | congruent to eight byte steps, low byte first |
| FPGenerators.FPGenerator.ExtendOneByte | src/main/java/com/lmdna/spider/berkeleydb/FPGenerator.java:189-191 | the reduced extension by one byte |
| FPGenerators.FPGenerator.ExtendOneChar | src/main/java/com/lmdna/spider/berkeleydb/FPGenerator.java:195-197 | the reduced extension by the two bytes of a character, low byte first |
| FPGenerators.FPGenerator.ExtendOneInt | src/main/java/com/lmdna/spider/berkeleydb/FPGenerator.java:201-203 | the reduced extension by the four bytes of an int, low byte first |
| FPGenerators.FPGenerator.ExtendOneLong | src/main/java/com/lmdna/spider/berkeleydb/FPGenerator.java:207-209 | the reduced extension by the eight bytes of a long, low byte first |
| FPGenerators.FPGenerator.ExtendByteBuffer | src/main/java/com/lmdna/spider/berkeleydb/FPGenerator.java:215-220 | the reduced extension by the n bytes from start on, with one reduction at the end |
| FPGenerators.FPGenerator.ExtendCharBuffer | src/main/java/com/lmdna/spider/berkeleydb/FPGenerator.java:226-231 | the reduced extension by the little-endian bytes of the characters |
| FPGenerators.FPGenerator.ExtendCharSequence | src/main/java/com/lmdna/spider/berkeleydb/FPGenerator.java:236-243 | the reduced extension by the little-endian bytes of the characters |
| FPGenerators.FPGenerator.ExtendIntBuffer | src/main/java/com/lmdna/spider/berkeleydb/FPGenerator.java:257-262 | the reduced extension by the little-endian bytes of the ints |
| FPGenerators.FPGenerator.ExtendLongBuffer | src/main/java/com/lmdna/spider/berkeleydb/FPGenerator.java:268-273 | the reduced extension by the little-endian bytes of the longs |
| FPGenerators.FPGenerator.Extend8String | src/main/java/com/lmdna/spider/berkeleydb/FPGenerator.java:278-285 | the reduced extension by the low bytes of the characters alone |
| FPGenerators.FPGenerator.Extend8CharBuffer | src/main/java/com/lmdna/spider/berkeleydb/FPGenerator.java:291-296 | the reduced extension by the low bytes of the characters alone |
| FingerprintLaws.ChunksCompose | src/main/java/com/lmdna/spider/berkeleydb/FPGenerator.java:211-220 | extending the result of one chunk of bytes by the next is extending by their concatenation |
| FingerprintLaws.BuffersCompose | src/main/java/com/lmdna/spider/berkeleydb/FPGenerator.java:222-296 | the same for two buffers of characters, of ints, of longs, and of characters of which the low bytes count |
| FingerprintLaws.ReductionMayBeDeferred | src/main/java/com/lmdna/spider/berkeleydb/FPGenerator.java:189-220 | reducing after every chunk, whatever the sizes of the chunks, gives the same word as reducing once at the end |
| FingerprintLaws.BytesMayBeDeferred | src/main/java/com/lmdna/spider/berkeleydb/FPGenerator.java:189-220 | reducing after every byte is reducing once after the buffer |
| FingerprintLaws.CharsMayBeDeferred | src/main/java/com/lmdna/spider/berkeleydb/FPGenerator.java:195-243 | reducing after every character is reducing once after the buffer |
| FingerprintLaws.IntsMayBeDeferred | src/main/java/com/lmdna/spider/berkeleydb/FPGenerator.java:201-262 | reducing after every int is reducing once after the buffer |
| FingerprintLaws.LongsMayBeDeferred | src/main/java/com/lmdna/spider/berkeleydb/FPGenerator.java:207-273 | reducing after every long is reducing once after the buffer |
| FingerprintLaws.LowBytesMayBeDeferred | src/main/java/com/lmdna/spider/berkeleydb/FPGenerator.java:189-296 | reducing after the low byte of every character is reducing once after the buffer |
| FingerprintLaws.ExtendedIsMessage | src/main/java/com/lmdna/spider/berkeleydb/FPGenerator.java:91-97 | a loop of byte steps from any word is x^(8n) times the word plus x^64 times the sum of the bytes b_i x^(8(n-1-i)) |
| FingerprintLaws.ExtendedFromEmpty | src/main/java/com/lmdna/spider/berkeleydb/FPGenerator.java:342 | starting from x^64 the loop computes x^64 times the polynomial of the string, which begins with a leading one |
| FPGenerators.FPGenerator.FpBytes | src/main/java/com/lmdna/spider/berkeleydb/FPGenerator.java:141-143 | the remainder mod P of x^64 (x^(8n) + sum of b_i x^(8(n-1-i))), for every degree, polynomial and buffer |
| FPGenerators.FPGenerator.FpChars | src/main/java/com/lmdna/spider/berkeleydb/FPGenerator.java:147-149 | the fingerprint of the little-endian bytes of the characters |
| FPGenerators.FPGenerator.FpCharSequence | src/main/java/com/lmdna/spider/berkeleydb/FPGenerator.java:157-159 | the fingerprint of the little-endian bytes of the characters |
| FPGenerators.FPGenerator.FpInts | src/main/java/com/lmdna/spider/berkeleydb/FPGenerator.java:163-165 | the fingerprint of the little-endian bytes of the ints |
| FPGenerators.FPGenerator.FpLongs | src/main/java/com/lmdna/spider/berkeleydb/FPGenerator.java:169-171 | the fingerprint of the little-endian bytes of the longs |
| FPGenerators.FPGenerator.Fp8String | src/main/java/com/lmdna/spider/berkeleydb/FPGenerator.java:175-177 | the fingerprint of the low bytes of the characters |
| FPGenerators.FPGenerator.Fp8Chars | src/main/java/com/lmdna/spider/berkeleydb/FPGenerator.java:182-184 | the fingerprint of the low bytes of the characters |
| FingerprintLaws.TailInjective | src/main/java/com/lmdna/spider/berkeleydb/FPGenerator.java:215-220 | strings of one length are determined by their polynomials |
| FingerprintLaws.WindowsAreSeparated | src/main/java/com/lmdna/spider/berkeleydb/FPGenerator.java:215-220 | when P has constant term 1, two strings that differ only inside a window of at most d/8 bytes have different fingerprints |
| FingerprintLaws.ShortStringsAreSeparated | src/main/java/com/lmdna/spider/berkeleydb/FPGenerator.java:215-220 | when P has constant term 1, strings of one length of at most d bits have equal fingerprints exactly if they are equal |
| FingerprintLaws.ConstantTermMatters | src/main/java/com/lmdna/spider/berkeleydb/FPGenerator.java:316-321 | without the constant term the separation fails: modulo x^d every string has fingerprint zero |
| UriKeys.Standard24 | src/main/java/com/lmdna/spider/berkeleydb/FPGenerator.java:450 | the polynomial behind std24 has degree 24 and constant term 1 |
| UriKeys.Standard40 | src/main/java/com/lmdna/spider/berkeleydb/FPGenerator.java:447 | the polynomial behind std40 has degree 40 and constant term 1 |
| UriKeys.HostOfUrl | src/main/java/com/lmdna/spider/berkeleydb/BdbUriUniqFilter.java:80-230 | of a text that is a scheme without colon, colon, two slashes, a host without slash, and then nothing or a slash and any path, the part fingerprinted first is the scheme and the host with what stands between |
| UriKeys.HostWithoutScheme | src/main/java/com/lmdna/spider/berkeleydb/BdbUriUniqFilter.java:225-229 | of a text without colon and two slashes it is the whole, and of one that begins with them nothing |
| UriKeys.CreateKey | src/main/java/com/lmdna/spider/berkeleydb/BdbUriUniqFilter.java:224-233 | computes the key of a URI, of which `HostPartOfKey` says the first 24 bits and `KeyParts` the others |
| UriKeys.KeyParts | src/main/java/com/lmdna/spider/berkeleydb/BdbUriUniqFilter.java:230-232 | both fingerprints can be read back from the key, so they do not overlap in it |
| UriKeys.KeysEqual | src/main/java/com/lmdna/spider/berkeleydb/BdbUriUniqFilter.java:224-233 | keys are equal exactly if both fingerprints are |
| UriKeys.HostPartOfKey | src/main/java/com/lmdna/spider/berkeleydb/BdbUriUniqFilter.java:224-233 | the first 24 bits of a key are the fingerprint of scheme and host, whatever the path, so all URIs of one scheme and host share them |
| UriKeys.KeysOfHostAreContiguous | src/main/java/com/lmdna/spider/berkeleydb/BdbUriUniqFilter.java:224-233 | every key that lies between two keys of one scheme and host, in the signed order of longs, has the fingerprint of that scheme and host too |
| UriKeys.NearUrisDiffer | src/main/java/com/lmdna/spider/berkeleydb/BdbUriUniqFilter.java:224-233 | URIs of one length that differ only inside a window of two characters never have one key |
| UriKeys.NearHostsDiffer | src/main/java/com/lmdna/spider/berkeleydb/BdbUriUniqFilter.java:230 | hosts of one length that differ in one character never have one fingerprint |
| UriFilters.BdbUriUniqFilter.SetAdd | src/main/java/com/lmdna/spider/berkeleydb/BdbUriUniqFilter.java:237-264 | stores the key and counts it if it was absent; answers false only when the key was found present, so a failing put answers true and changes nothing |
| UriFilters.BdbUriUniqFilter.SetRemove | src/main/java/com/lmdna/spider/berkeleydb/BdbUriUniqFilter.java:270-285 | removes the key and counts down if it was present; a failing delete changes nothing |
| UriFilters.BdbUriUniqFilter.Add | src/main/java/com/lmdna/spider/berkeleydb/SetBasedUriUniqFilter.java:100-111 | refuses exactly when the key is found present, and then counts a duplicate |
| UriFilters.BdbUriUniqFilter.AddNow | src/main/java/com/lmdna/spider/berkeleydb/SetBasedUriUniqFilter.java:117-119 | has the effect of add |
| UriFilters.BdbUriUniqFilter.AddForce | src/main/java/com/lmdna/spider/berkeleydb/SetBasedUriUniqFilter.java:127-130 | stores the key without counting duplicates |
| UriFilters.BdbUriUniqFilter.Note | src/main/java/com/lmdna/spider/berkeleydb/SetBasedUriUniqFilter.java:132-135 | stores the key without counting duplicates |
| UriFilters.BdbUriUniqFilter.Forget | src/main/java/com/lmdna/spider/berkeleydb/SetBasedUriUniqFilter.java:137-139 | removes the key |
| UriFilters.SeenIsRemembered | src/main/java/com/lmdna/spider/berkeleydb/SetBasedUriUniqFilter.java:100-139 | over every history, a key is stored exactly if the last operation on it that the store carried out was not a forget |
| UriFilters.AddAnswersExactly | src/main/java/com/lmdna/spider/berkeleydb/SetBasedUriUniqFilter.java:100-111 | after every history, add refuses exactly the remembered keys, and never when the store fails |
| UriFilters.CountIsStored | src/main/java/com/lmdna/spider/berkeleydb/BdbUriUniqFilter.java:250-285 | over every history the count is the number of stored keys minus the number stored at open |
| UriFilters.DuplicatesAreRefusals | src/main/java/com/lmdna/spider/berkeleydb/SetBasedUriUniqFilter.java:107-110 | over every history duplicateCount is the number of refused additions |
| UriFilters.FailureRefusesNothing | src/main/java/com/lmdna/spider/berkeleydb/BdbUriUniqFilter.java:243-263 | a failing store refuses no URI and changes neither set nor counters |
| UriFilters.ExactRuns | src/main/java/com/lmdna/spider/berkeleydb/SetBasedUriUniqFilter.java:100-139 | while the keys of the URIs used differ, the stored keys are those of an exact set of URIs, over every history |
| UriFilters.FilterIsExact | src/main/java/com/lmdna/spider/berkeleydb/SetBasedUriUniqFilter.java:100-111 | under the same condition a URI is refused exactly if that very URI is in the set |
| UriFilters.CollisionRefuses | src/main/java/com/lmdna/spider/berkeleydb/BdbUriUniqFilter.java:224-233 | the condition is needed: of any two URIs with one key, one is refused though it was never seen |
| FlotClips.ClipYMin | bin/main/java/webapps/static/dmadmin/js/jquery.flot.js:1732-1745 | cuts the segment at the lower y limit, or finds it beyond |
| FlotClips.ClipYMax | bin/main/java/webapps/static/dmadmin/js/jquery.flot.js:1747-1759 | cuts the segment at the upper y limit, or finds it beyond |
| FlotClips.ClipXMin | bin/main/java/webapps/static/dmadmin/js/jquery.flot.js:1761-1773 | cuts the segment at the lower x limit, or finds it beyond |
| FlotClips.ClipXMax | bin/main/java/webapps/static/dmadmin/js/jquery.flot.js:1775-1787 | cuts the segment at the upper x limit, or finds it beyond |
| FlotClips.CutIsPart | bin/main/java/webapps/static/dmadmin/js/jquery.flot.js:1732-1787 | cutting the part within some limits at one more gives exactly the part within all of them, in the old direction, or finds that there is none |
| FlotClips.ClipSegment | bin/main/java/webapps/static/dmadmin/js/jquery.flot.js:1726-1787 | the piece left is exactly the intersection of the segment with the closed box, in the old direction; the segment is skipped exactly if that is empty |
| FlotClips.PlotLine | bin/main/java/webapps/static/dmadmin/js/jquery.flot.js:1719-1797 | the strokes drawn are the visible parts of the segments between neighbouring points, in order: one for each visible pair, none for gaps and invisible pairs, although moves are left out where the pen is there already |
| FlotAreas.SketchVertices | bin/main/java/webapps/static/dmadmin/js/jquery.flot.js:1879-1937 | the vertices for a pair already within the x limits, following the border where the segment leaves the box, in the order of `VerticesInOrder` |
| FlotAreas.SketchPair | bin/main/java/webapps/static/dmadmin/js/jquery.flot.js:1842-1937 | the x clipping and the vertices for one pair of points |
| FlotAreas.PlotLineArea | bin/main/java/webapps/static/dmadmin/js/jquery.flot.js:1799-1939 | the loop ends for every pattern of gaps and draws exactly one outline per stretch between gaps of which something can be seen: base point, tops forward, bottoms backward, fill |
| FlotAreaLaws.AreasBracketed | bin/main/java/webapps/static/dmadmin/js/jquery.flot.js:1828-1836 | every area that is opened is filled exactly once, before the next is opened and before the end |
| FlotAreaLaws.AreasInBox | bin/main/java/webapps/static/dmadmin/js/jquery.flot.js:1872-1937 | every vertex that is emitted lies in the axis box |
| FlotAreaLaws.VerticesTraceClamped | bin/main/java/webapps/static/dmadmin/js/jquery.flot.js:1879-1937 | the edges between the vertices of a pair are exactly the points of its segment moved vertically into the box |
| FlotAreaLaws.OutlineIsClampedData | bin/main/java/webapps/static/dmadmin/js/jquery.flot.js:1842-1937 | the same for the pair as given: its part between the x limits, moved into the box, and nothing else |
| FlotAreaLaws.NoGapInside | bin/main/java/webapps/static/dmadmin/js/jquery.flot.js:1819-1826 | between the first visible pair and the turning point there is no gap, and the turning point is one |
| FlotAreaLaws.HiddenBefore | bin/main/java/webapps/static/dmadmin/js/jquery.flot.js:1842-1877 | every pair passed before an area is opened is a gap or invisible |
| FlotAreaLaws.OneAreaEach | bin/main/java/webapps/static/dmadmin/js/jquery.flot.js:1809-1840 | exactly one of the areas drawn from an index on reaches over a visible pair, for every pattern of gaps |
| FlotAreaLaws.AreaSketches | bin/main/java/webapps/static/dmadmin/js/jquery.flot.js:1819-1937 | the strokes of an area from s to e contain, for every pair between, the outline of its top in one piece and, behind it with nothing but lines between, that of its bottom |
| FlotAreaLaws.PairIsDrawn | bin/main/java/webapps/static/dmadmin/js/jquery.flot.js:1809-1937 | so for every visible pair among the strokes drawn from an index on: its top and its bottom are drawn, each in one piece, in one and the same area |
| FlotAreaLaws.BottomsMirrorTops | bin/main/java/webapps/static/dmadmin/js/jquery.flot.js:1842-1870 | a pair is shown along the bottom exactly if it is along the top, between the same x values in the opposite order |
| FlotAreaOrder.VerticesInOrder | bin/main/java/webapps/static/dmadmin/js/jquery.flot.js:1879-1937 | the vertices for a pair within the x limits run from its first end to its second: each is a point of the segment moved into the box, at fractions that ascend from 0 to 1 |
| FlotAreaOrder.OutlineInOrder | bin/main/java/webapps/static/dmadmin/js/jquery.flot.js:1842-1937 | the same for the pair as given, from where its segment comes between the x limits to where it leaves them, in the direction in which it is gone through |
| FlotAreaOrder.NeighboursJoin | bin/main/java/webapps/static/dmadmin/js/jquery.flot.js:1842-1937 | neighbouring visible pairs join: the last vertex of one is the first of the next if the point between them is within the x limits, and otherwise both are on the limit beyond which it is |
| FlotAreaOrder.TopInOrder | bin/main/java/webapps/static/dmadmin/js/jquery.flot.js:1806-1937 | the top of an area runs along the data from left to right, pair after pair |
| FlotAreaOrder.BottomInOrder | bin/main/java/webapps/static/dmadmin/js/jquery.flot.js:1806-1937 | the bottom of an area runs along the data from right to left, pair after pair |
| FlotAreaOrder.BottomIsNearestToZero | bin/main/java/webapps/static/dmadmin/js/jquery.flot.js:1802 | the base line is the value within the y limits that is nearest to zero |
| FlotAreaOrder.StartsBelowFirstTop | bin/main/java/webapps/static/dmadmin/js/jquery.flot.js:1872-1877 | an area starts on the base line, right below or above the first vertex of its top, which is where its first visible pair begins |
| Elections.ZooKeeper.Create | src/main/java/com/lmdna/spider/boot/SpiderProcess.java:74 | create-if-absent: fails exactly if the znode exists |
| Elections.SpiderProcess.BootCheck | src/main/java/com/lmdna/spider/boot/SpiderProcess.java:70-115 | the look at the master znode and the branch on the level, in terms of the process step |
| Elections.SpiderProcess.BootCreate | src/main/java/com/lmdna/spider/boot/SpiderProcess.java:71-89 | the creation of the master znode at boot; a process that is not first exits |
| Elections.SpiderProcess.BootNode | src/main/java/com/lmdna/spider/boot/SpiderProcess.java:76-88 | the master node is built after the znode |
| Elections.SpiderProcess.BootJoin | src/main/java/com/lmdna/spider/boot/SpiderProcess.java:90-114 | followers and workers get a follower node |
| Elections.SpiderProcess.MasterDeleted | src/main/java/com/lmdna/spider/boot/SpiderProcess.java:310-323 | only a follower starts a contest when the master znode goes |
| Elections.SpiderProcess.ElectionCreate | src/main/java/com/lmdna/spider/boot/SpiderProcess.java:127-151 | the contest: whoever creates the znode goes on, everybody else goes back to watching; `EveryContestHasOneWinner` says what comes of it |
| Elections.SpiderProcess.ElectionPromote | src/main/java/com/lmdna/spider/boot/SpiderProcess.java:131-138 | the winner closes its node and builds its master node; with no node to close there is an exception and none is built |
| Elections.ActKeeps | src/main/java/com/lmdna/spider/boot/SpiderProcess.java:71-155 | no step of a process takes the znode from another, and a process that runs a master node, or may come to run one without creating the znode again, owns it |
| Elections.SpiderProcess.SessionExpired | src/main/java/com/lmdna/spider/boot/SpiderProcess.java:276-288 | a process whose session expires gets another one, and at level master sees to the znode |
| Elections.SpiderProcess.MasterReturns | src/main/java/com/lmdna/spider/boot/SpiderProcess.java:290-296 | it creates the znode if there is none and leaves the owner alone if there is one |
| Elections.StepKeepsInvariant | src/main/java/com/lmdna/spider/boot/SpiderProcess.java:71-155 | a step of the whole system keeps the ownership invariant if and only if it is not the expiry of a process that claims the znode: that runs a master node, is building one, or won the contest and has a node to close or is still to build one |
| Elections.ElectionIsSafe | src/main/java/com/lmdna/spider/boot/SpiderProcess.java:71-155 | in every interleaving of boots, process steps, lost replies, crashes, delayed znode removals and session expiries of processes that do not claim the znode, at most one live process has a master node, it owns the master znode, and no worker ever has one |
| Elections.ExpiryIsUnsafe | src/main/java/com/lmdna/spider/boot/SpiderProcess.java:276-306 | when a process that claims the znode loses its session and another boots as master, both end up as masters, the first by the steps it has left |
| Elections.AlwaysSafeIffHarmless | src/main/java/com/lmdna/spider/boot/SpiderProcess.java:71-155 | a run is safe throughout, and after whatever follows each part of it but another expiry, if and only if no process that claims the znode loses its session in it |
| Elections.ExpiryMakesTwoMasters | src/main/java/com/lmdna/spider/boot/SpiderProcess.java:276-306 | whenever a live master's session expires, a process that boots next becomes a second master, and there are still two when the first has seen to the znode |
| Elections.EveryContestHasOneWinner | src/main/java/com/lmdna/spider/boot/SpiderProcess.java:127-151 | any number of followers contest a missing master in any order: the first becomes the master and owns the znode, the others keep their follower nodes and go back to watching |
| Elections.FollowerTakesOver | src/main/java/com/lmdna/spider/boot/SpiderProcess.java:127-138 | a follower that hears that there is no master becomes the master and owns the znode, if nobody is faster |
| Elections.BootOutcome | src/main/java/com/lmdna/spider/boot/SpiderProcess.java:70-115 | what comes of an undisturbed boot: without a znode a master and a follower become the master and own the znode, and a worker runs no node; with one a master exits, and followers and workers get follower nodes |
| Elections.MasterComesBack | src/main/java/com/lmdna/spider/boot/SpiderProcess.java:276-296 | a master whose session expires owns the znode again, with its new session, if it is the first to see to it |
| Elections.LostReply | src/main/java/com/lmdna/spider/boot/SpiderProcess.java:71-155 | a create whose reply is lost is a failure to the process and a success to the znode |
| Elections.MastersNeverContest | src/main/java/com/lmdna/spider/boot/SpiderProcess.java:310-323 | over every run, a process started as a master takes part in no contest |
| PoolAccounts.Connection.IsValid | src/main/java/com/lmdna/spider/downloader/LmdnaStatusfulConnection.java:70-76 | valid exactly while the account was borrowed less often than its hourly maximum |
| PoolAccounts.AccountProxy.Borrow | src/main/java/com/lmdna/spider/downloader/AccountProxy.java:116-118 | counts one borrow |
| PoolAccounts.AccountProxy.ResetBorrowNum | src/main/java/com/lmdna/spider/downloader/AccountProxy.java:108-110 | starts counting anew |
| ConnectionPools.ConnectionPool.constructor | src/main/java/com/lmdna/spider/downloader/LmdnaStatusfulConnectionPool.java:66-72 | after the first load the pool holds the accounts of the first offers with which a login succeeds, as many as configured if there are, with the reuse interval configured; nothing waits and nothing is set aside |
| ConnectionPools.ConnectionPool.LoginWaiting | src/main/java/com/lmdna/spider/downloader/LmdnaStatusfulConnectionPool.java:80-93 | one waiting account leaves the queue, and is in the pool and in use exactly if its login succeeds |
| ConnectionPools.ConnectionPool.LoginFetched | src/main/java/com/lmdna/spider/downloader/LmdnaStatusfulConnectionPool.java:99-115 | a fetched account is a new one of the name and the password offered, with the hourly maximum and the reuse interval configured, and is in the pool and in use exactly if its login succeeds |
| ConnectionPools.ConnectionPool.LoadWaiting | src/main/java/com/lmdna/spider/downloader/LmdnaStatusfulConnectionPool.java:80-93 | as many waiting accounts are logged in again as are due, and those with success are in the pool |
| ConnectionPools.ConnectionPool.LoadFetched | src/main/java/com/lmdna/spider/downloader/LmdnaStatusfulConnectionPool.java:98-116 | offers are taken one after the other until as many logins succeeded as accounts are missing, and no further, or until there is none left; those with success are in the pool, in order |
| ConnectionPools.ConnectionPool.Load | src/main/java/com/lmdna/spider/downloader/LmdnaStatusfulConnectionPool.java:74-117 | the first loop and then the second for what is still missing; nothing else happens to any account |
| ConnectionPools.ConnectionPool.Take | src/main/java/com/lmdna/spider/downloader/LmdnaStatusfulConnectionPool.java:170-178 | one round: the connection is lent and counted if its account may still be used this hour, and set aside otherwise |
| ConnectionPools.ConnectionPool.LendUncounted | src/main/java/com/lmdna/spider/downloader/LmdnaStatusfulConnectionPool.java:183-189 | what an interrupted wait returns: the connection set aside last, not counted, and still among the exhausted |
| ConnectionPools.ConnectionPool.GetConn | src/main/java/com/lmdna/spider/downloader/LmdnaStatusfulConnectionPool.java:166-190 | uninterrupted, lends a connection and counts one borrow exactly if some pooled connection's account is below its hourly maximum, and otherwise sets the whole pool aside and waits; interrupted after n takes of exhausted connections it is an exception if n is 0, and otherwise gives the connection taken last; nothing else is counted |
| ConnectionPools.WaitEnds | src/main/java/com/lmdna/spider/downloader/LmdnaStatusfulConnectionPool.java:166-190 | what this comes to for a wait without interruption, and for one interrupted at once |
| ConnectionPools.ConnectionPool.ReturnConn | src/main/java/com/lmdna/spider/downloader/LmdnaStatusfulConnectionPool.java:193-230 | for every status code where the connection and its account go, held by a client or not, and which account is reported for removal; ACCOUNT_TOO_OFFTEN sets the interval to 0, since failedNum is never raised |
| ConnectionPools.ConnectionPool.ReviveConnsInvalidThisHour | src/main/java/com/lmdna/spider/downloader/LmdnaStatusfulConnectionPool.java:51-60 | the exhausted accounts may be borrowed again, and no other counter changes |
| ConnectionPools.ConnectionPool.Lend | src/main/java/com/lmdna/spider/downloader/LmdnaStatusfulConnectionPool.java:178 | one more borrow, counted and logged |
| ConnectionPools.ConnectionPool.ServeGet | src/main/java/com/lmdna/spider/downloader/LmdnaStatusfulConnectionPool.java:166-190 | a client that asks for a connection, and is not interrupted, gets a usable one exactly if there is one |
| ConnectionPools.ConnectionPool.ServeOne | src/main/java/com/lmdna/spider/downloader/LmdnaStatusfulConnectionPool.java:74-230 | any single call does what its method says, keeps the counters and the contents of queues and lists what the log of events says, and adds to the log only what is possible |
| ConnectionPools.ConnectionPool.Serve | src/main/java/com/lmdna/spider/downloader/LmdnaStatusfulConnectionPool.java:49-230 | over any sequence of getConn, returnConn of connections still held, load and the hourly task: every account is always in one place at most among pool, clients' hands, exhausted list and waiting queue, and was given out at most the configured hourly maximum since its last reset, if and only if no getConn was interrupted after it had set a connection aside; without interruptions that is so |
| PoolLogs.AlwaysInOrderIffUninterrupted | src/main/java/com/lmdna/spider/downloader/LmdnaStatusfulConnectionPool.java:166-190 | the same for every possible log of events |
| PoolLogs.InterruptionFails | src/main/java/com/lmdna/spider/downloader/LmdnaStatusfulConnectionPool.java:170-189 | an input on which it fails: an exhausted account in the pool and an interruption before the next connection comes leave the account in two places, given out once more than its maximum |
| PoolLogs.StrayReturn | src/main/java/com/lmdna/spider/downloader/LmdnaStatusfulConnectionPool.java:193-226 | returning a connection that is not held doubles its account exactly if the account is kept and is somewhere already |
| Checkpointers.NameParses | src/main/java/com/lmdna/spider/berkeleydb/Checkpointer.java:213-220 | the name of a checkpoint without prefix parses back to its index, however many digits that has, exactly if the index is an int |
| Checkpointers.PrefixedNameParses | src/main/java/com/lmdna/spider/berkeleydb/Checkpointer.java:188 | a name with a prefix parses exactly if the prefix consists of digits, but for a sign at its head, and the number its digits make with those of the index is an int |
| Checkpointers.NameWidth | src/main/java/com/lmdna/spider/berkeleydb/Checkpointer.java:67 | names have at least five digits, and exactly five below 100000 |
| Checkpointers.NamesInOrder | src/main/java/com/lmdna/spider/berkeleydb/Checkpointer.java:67 | as long as they have five digits names are ordered as text like the checkpoints |
| Checkpointers.Checkpointer.constructor | src/main/java/com/lmdna/spider/node/master/MasterNode.java:328 | starts over whatever directories there are, and at index 1 |
| Checkpointers.Checkpointer.SmallestIndex | src/main/java/com/lmdna/spider/berkeleydb/Checkpointer.java:183-192 | picks a directory with the smallest index, and throws exactly if some name does not parse |
| Checkpointers.Checkpointer.Evict | src/main/java/com/lmdna/spider/berkeleydb/Checkpointer.java:181-194 | with ten directories or more exactly the one with the smallest index goes |
| Checkpointers.Checkpointer.CreateCheckpointInProgressDirectory | src/main/java/com/lmdna/spider/berkeleydb/Checkpointer.java:179-200 | makes room and then the next directory; one that exists keeps its stamp |
| Checkpointers.Checkpointer.WriteValidity | src/main/java/com/lmdna/spider/berkeleydb/Checkpointer.java:222-231 | only the directory in progress gets the stamp, or loses what was written of it; without one the stamp is a file elsewhere |
| Checkpointers.Checkpointer.Run | src/main/java/com/lmdna/spider/berkeleydb/Checkpointer.java:132-159 | whichever Exception or Error ends it, a run does what the abstract step says, the index goes up by one, and a stamp is written exactly if no error is noted, be it from the run before |
| Checkpointers.Checkpointer.RunAll | src/main/java/com/lmdna/spider/berkeleydb/Checkpointer.java:132-159 | any number of runs does what the abstract steps do one after the other |
| Checkpointers.NewestOnDisk | src/main/java/com/lmdna/spider/berkeleydb/Checkpointer.java:179-231 | in a sound state the names on disk are exactly those of the at most ten newest checkpoints, and a stamp stands for a completed one |
| CheckpointRotation.KeptAreNewest | src/main/java/com/lmdna/spider/berkeleydb/Checkpointer.java:179-194 | what is no longer kept is older than all that is |
| CheckpointRotation.NextKeys | src/main/java/com/lmdna/spider/berkeleydb/Checkpointer.java:182-197 | when the newest are on disk, a new directory leaves the newest on disk exactly if the one evicted is the oldest |
| CheckpointLaws.SteadyStep | src/main/java/com/lmdna/spider/berkeleydb/Checkpointer.java:132-159 | while indices ascend, a run keeps the newest directories and true stamps if and only if no Error leaves a stamp |
| CheckpointLaws.AlwaysSoundIffOrderly | src/main/java/com/lmdna/spider/berkeleydb/Checkpointer.java:132-200 | over every number of runs without an Error the directories are the newest begun and each stamp stands for a completed checkpoint, if and only if at the start there are at most ten, older ones with smaller indices, all below the next index, or the last of fewer than ten is the next and has no stamp |
| CheckpointLaws.RestartIsSound | src/main/java/com/lmdna/spider/node/master/MasterNode.java:300-331 | since every start counts from 1, this holds after a restart only over an empty disk or the single directory 1 without a stamp |
| CheckpointLaws.RestartDropsNewest | src/main/java/com/lmdna/spider/berkeleydb/Checkpointer.java:182-197 | over ten directories with larger indices the second run after a restart removes the checkpoint of the first |
| CheckpointLaws.RestartOverElevenToTwenty | src/main/java/com/lmdna/spider/berkeleydb/Checkpointer.java:182-197 | an instance: directories 11 to 20 |
| CheckpointLaws.StampOfRun | src/main/java/com/lmdna/spider/berkeleydb/Checkpointer.java:147-151 | the stamp in a run's own directory is false exactly if an Error left it, or if the checkpoint failed in a directory stamped before |
| CheckpointLaws.ErrorIsStamped | src/main/java/com/lmdna/spider/berkeleydb/Checkpointer.java:145-150 | an Error during the master's checkpoint is not caught, and the unfinished checkpoint is stamped |
| Calendar.DayOfDate | bin/main/java/webapps/static/dmadmin/js/date.js:296-323 | year, month and day of a day number give that day number back |
| Calendar.DateOfDay | bin/main/java/webapps/static/dmadmin/js/date.js:296-323 | every civil date has one day number, from which it is read back |
| Calendar.DayBeyond | bin/main/java/webapps/static/dmadmin/js/date.js:299 | a day beyond the end of a month is in the next month, as section 15.9.1.12 of ECMA-262 5.1 has setMonth do it |
| Calendar.Date.IsLeapYear | bin/main/java/webapps/static/dmadmin/js/date.js:128-131 | leap years are exactly those of 366 days by the day numbers of section 15.9.1.3 of ECMA-262 5.1; an invalid date has none |
| Calendar.Date.GetDaysInMonth | bin/main/java/webapps/static/dmadmin/js/date.js:174-176 | as many days as lie between the first of the month and the first of the next; undefined for an invalid date |
| Calendar.Date.AddDays | bin/main/java/webapps/static/dmadmin/js/date.js:319-323 | moves the day and keeps the time of the day, or gives an invalid date past the ends of section 15.9.1.14 of ECMA-262 5.1 |
| Calendar.Date.AddMonths | bin/main/java/webapps/static/dmadmin/js/date.js:296-305 | lands in month 12 year + month + n, on the smaller of the old day and that month's length, at the same time of the day, for every date and integer n; the result is an invalid date exactly if the date was, or if that day is past the ends of time values |
| Calendar.ClipOnce | bin/main/java/webapps/static/dmadmin/js/date.js:299-302 | the intermediate value of setMonth is within the range exactly if the final one is, so clipping it changes nothing |
| Calendar.FarMonths | bin/main/java/webapps/static/dmadmin/js/date.js:296-305 | an input past the end: four million months |
| Calendar.Overflow | bin/main/java/webapps/static/dmadmin/js/date.js:299-302 | taking away the day of the month when setMonth overflowed goes back to the last day of the month meant |
| Calendar.ShiftTwice | bin/main/java/webapps/static/dmadmin/js/date.js:296-305 | two calls of addMonths make one exactly if the month between does not cut the day further than the last one does |
| Calendar.ShiftBack | bin/main/java/webapps/static/dmadmin/js/date.js:296-305 | addMonths(-n) undoes addMonths(n) exactly if the day was not cut |
| Calendar.ShiftKeepsOrder | bin/main/java/webapps/static/dmadmin/js/date.js:296-305 | addMonths keeps the order of days |
| DateTexts.ReadMonth | bin/main/java/webapps/static/dmadmin/js/date.js:442-465 | the loops over month names set the month found and the shift it causes |
| DateTexts.FromString | bin/main/java/webapps/static/dmadmin/js/date.js:437-493 | gives a date exactly if year and day are numbers, and then the one the places of the format say |
| Texts.ReplaceOnce | bin/main/java/webapps/static/dmadmin/js/date.js:413-421 | split and join replace the first occurrence of a token, and nothing else if there is no other |
| DateTextLaws.NameIsFound | bin/main/java/webapps/static/dmadmin/js/date.js:446-460 | the first name of a month that matches is the one that was written, full or abbreviated |
| DateTextLaws.AsStringFills | bin/main/java/webapps/static/dmadmin/js/date.js:410-422 | every place of a format is filled with the day, the year or the month and its fixed text is left alone, whatever the month names contain, but for March before an h |
| DateTextLaws.PlaceShifts | bin/main/java/webapps/static/dmadmin/js/date.js:467-488 | after a full month name the later places are shifted by its length minus four, the earlier ones are not |
| DateTextLaws.MonthIsRead | bin/main/java/webapps/static/dmadmin/js/date.js:442-465 | the month is read back from where it was written, with the shift it causes |
| DateTextLaws.RoundTrip | bin/main/java/webapps/static/dmadmin/js/date.js:410-493 | fromString gives back the calendar date that asString wrote in the same format, for every date with a four-digit year and every arrangement of dd, yyyy and one of mm, mmm, mmmm with fixed text in which no other token occurs, but for March written in full before an h |
| DateTextLaws.FixedTextWithoutLetters | bin/main/java/webapps/static/dmadmin/js/date.js:413-421 | any fixed text without the letters of tokens will do |
| DateTextLaws.FramedFixedText | bin/main/java/webapps/static/dmadmin/js/date.js:413-421 | so will fixed texts in which these letters stand alone and not at the ends, as in dd de mmmm de yyyy |
| DateTextLaws.DayDeMonthDeYear | bin/main/java/webapps/static/dmadmin/js/date.js:413-421 | that one in particular |
| DateTextTokens.DefaultIsWritten | bin/main/java/webapps/static/dmadmin/js/date.js:408-422 | without a format a date is written as day, month and year with slashes between |
| DateTextTokens.DefaultIsReadBack | bin/main/java/webapps/static/dmadmin/js/date.js:410-493 | and read back from that without a format, if the year has four digits |
| DateTextTokens.ClockIsWritten | bin/main/java/webapps/static/dmadmin/js/date.js:419-421 | in the format hh:min:ss the hours, minutes and seconds are written that make the time of the day but for its milliseconds |
| DateTextTokens.ShortIsWritten | bin/main/java/webapps/static/dmadmin/js/date.js:414 | in the format dd/mm/yy a year of four digits is written as its last two |
| DateTextTokens.ShortIsReadBackIff | bin/main/java/webapps/static/dmadmin/js/date.js:410-493 | in that format a date with a four-digit year is read back if and only if its year is one from 2000 to 2099 |
| MarchTexts.AllReadBackIffFormat | bin/main/java/webapps/static/dmadmin/js/date.js:410-493 | in a format without other tokens all dates with four-digit years are read back if and only if no h stands right behind a full name of the month |
| MarchTexts.MarchIsWritten | bin/main/java/webapps/static/dmadmin/js/date.js:419 | with an h there, March loses its last letter to the hours, for every day of March and every such format |
| MarchTexts.MarchIsRead | bin/main/java/webapps/static/dmadmin/js/date.js:442-488 | from what is written then no month is read, and what stands behind the month is read one character too early |
| MarchTexts.MarchBecomesJanuary | bin/main/java/webapps/static/dmadmin/js/date.js:410-493 | if the day and the year stand before the month, every day of March is read back as one of January |
| MarchTexts.SecondOfMarchFails | bin/main/java/webapps/static/dmadmin/js/date.js:410-493 | wherever they stand, the second of March 2000 at midnight is not read back |
| MarchTexts.DayYearMonthHTokens | bin/main/java/webapps/static/dmadmin/js/date.js:413-421 | dd yyyy mmmmh is such a format |
| ArchiveTexts.PadTo | src/main/java/com/lmdna/spider/berkeleydb/ArchiveUtils.java:485-499 | puts as many pad characters before the string as it is short of the width, and none if it is not |
| ArchiveTexts.ZeroPadInteger | src/main/java/com/lmdna/spider/berkeleydb/ArchiveUtils.java:442-445 | a non-negative integer becomes ten digits of the same value |
| ArchiveTexts.DigitOrder | src/main/java/com/lmdna/spider/berkeleydb/ArchiveUtils.java:436-445 | numerals of one length are ordered by String.compareTo like their numbers |
| ArchiveTexts.PaddedOrder | src/main/java/com/lmdna/spider/berkeleydb/ArchiveUtils.java:436-445 | padded non-negative integers are ordered as text exactly like the numbers |
| ArchiveTexts.FormatMillisecondsToConventional | src/main/java/com/lmdna/spider/berkeleydb/ArchiveUtils.java:598-629 | with milliseconds, prints a text that an independent reader of numbers with units reads back as the duration, and one that it cannot read for the least long |
| ArchiveTexts.PartsRead | src/main/java/com/lmdna/spider/berkeleydb/ArchiveUtils.java:607-626 | the printed parts, read as numbers with units, add up to the duration less what is not printed |
| ArchiveTexts.DurationRead | src/main/java/com/lmdna/spider/berkeleydb/ArchiveUtils.java:598-629 | with milliseconds the text of a long is read back as that long exactly if it is not the least one |
| ArchiveTexts.DurationsDiffer | src/main/java/com/lmdna/spider/berkeleydb/ArchiveUtils.java:598-629 | different longs have different texts |
| ArchiveTexts.SecondsRead | src/main/java/com/lmdna/spider/berkeleydb/ArchiveUtils.java:598-629 | without milliseconds the whole seconds of a long are read back exactly unless it is 1000 ms past whole minutes, when one second is missing, or the least long, which is printed as no time at all |
| LongByteArrays.LongIntoByteArray | src/main/java/com/lmdna/spider/berkeleydb/ArchiveUtils.java:655-660 | writes the eight bytes, most significant first, at the offset, and nothing else |
| LongByteArrays.ByteArrayIntoLong | src/main/java/com/lmdna/spider/berkeleydb/ArchiveUtils.java:674-682 | joins the bytes from the offset up to index 8 |
| LongByteArrays.StoredIsRead | src/main/java/com/lmdna/spider/berkeleydb/ArchiveUtils.java:655-682 | a stored long is read back from the same offset exactly if the offset is 0 or the long is; otherwise only its top bytes are |

## Left out

- `FPGenerator.make`: its cache looks generators up by the polynomial alone; the two standard generators are parameters.
- The list of irreducible polynomials: only the two that are used, of degrees 24 and 40, are checked, for degree and constant
  term; irreducibility and the collision probability of the class comment are not modelled.
- `long[][]` tables are one two-dimensional array, the shift by `degree - 1` in the constructor is taken one place at a
  time, and the casts between int and long are written on bit vectors of 32 and 64 bits.
- Berkeley DB, serialisation, logging, the profile log and cache statistics: the store is a set of keys whose operations may
  fail. `addForce`, `note` and `forget` differ in nothing else that is modelled. Overflow of counters is not modelled.
- Canvas commands other than the path, axis-to-pixel conversion, labels and mouse handling; rounding, since coordinates are
  reals.
- FlotClips.PlotLine: the point array is taken to be what point processing leaves, whole points that are null throughout or
  not at all (jquery.flot.js lines 541-617).
- FlotAreas.PlotLineArea: the same, with three or more numbers per point, and limits in order on both axes.
- The data of the master znode, which an expired master may overwrite (SpiderProcess.java line 295), and what followers and
  workers register after an expiry.
- Watches and their renewal, liveness of the election, node data, RPC and the sleeps before a contest: a contest may start
  at any time after the znode is gone, or never.
- FollowerNode, the DAOs and, but for the place where the Checkpointer is made, MasterNode are not part of this model.
- The order of the delay queues: `compareTo` compares objects, not times, so `take` and `poll` give any element; times are
  not modelled. How many waiting accounts are due, which logins succeed, and when a wait is interrupted are parameters; a
  wait that never ends is `Blocked`.
- The five login attempts behind `login` are one success or failure; the pool's methods are not interleaved within
  themselves, and `Take` is the unit in which `getConn` shares the queue.
- Bringing exhausted connections back: the hourly task resets their counters and leaves them where they are, and so does
  the model.
- ConnectionPools.ConnectionPool.ReturnConn: a client that returns a connection it does not hold is allowed; `StrayReturn`
  says exactly when that breaks the pool, and `Serve` is about clients that do not.
- Checkpoints that overlap, prefixed names after a recovery (`PrefixedNameParses` says when eviction can compare them), names
  on disk that no checkpoint has, an Error while a directory is evicted or made, and the pausing and resuming of the crawl.
- Checkpointers.Checkpointer.CreateCheckpointInProgressDirectory: the counter of checkpoints is an int, and its wrap-around
  after 2147483647 of them is not modelled.
- Checkpointers.Checkpointer.Run: the same.
- Checkpointers.Checkpointer.RunAll: the same.
- Time zones and daylight saving: dates are civil dates with a time of the day.
- DateTexts.FromString: only digits, and the empty text as 0, count as numbers; spaces, signs, exponents and other notations
  that `Number` takes are read as NaN.
- DateTexts.ReadMonth: the same for the two digits of a month.
- DateTextLaws.RoundTrip: formats in which a token occurs outside its place are not covered, although some of them are read
  back; for those in which one arises, `AllReadBackIffFormat` is exact.
- MarchTexts.AllReadBackIffFormat: the same formats; and which single days of March are read back all the same, by accident,
  from a format in which the day follows the month, is not said.
- DateTextLaws.AsStringFills: nor are they here. Hours, minutes, seconds and years of two digits have theorems for one format
  each, `ClockIsWritten` and `ShortIsReadBackIff`.
- Invalid dates are not written.
- User interface plug-ins, HTTP, Mongo, JMX, downloaders and jar loading, which are input, output and reflection.
