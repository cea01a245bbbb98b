# pdf_dedupe: a verified model of the duplicate finder

`pdf_dedupe` finds near-duplicate PDF files in a folder. It renders the first page of every
PDF, reduces it to 64-bit average hashes (aHash), and clusters the files by the Hamming
distance between those hashes. Everything here models `src/main/java/org/example/Main.java`
from the point where pixels or hashes exist:

- `Fingerprint` models `Long.bitCount(ha ^ hb)` as the popcount of an XOR on `bv64`. It also
  models the thresholding half of `averageHash64`: the truncated mean of the 64 grey samples,
  and one bit per sample that is strictly above that mean.
- `Regions` models three parts of the region-wise engine:
  - the band arithmetic of `computeRegionHashes`;
  - the band-name → fingerprint map it builds;
  - `compareRegionHashes`, with -1 for a missing region.
- `Clustering` is the greedy, seed-based, single pass that both grouping methods run. It is
  written as one functional specification, `Greedy`, and everything both engines promise is
  proved about it: coverage, disjointness, seed order, and every member matching its seed.
- `WholePage` models three operations:
  - `groupDuplicates`, as a method over a `seen` array, proved equal to `Greedy` with the
    Hamming-threshold test, dropping groups of one;
  - `getOriginals`;
  - the group lookup of `findDuplicatesForFile`.
- `RegionWise` models two operations:
  - `groupRegionWiseDuplicates`, with the all-regions-at-distance-0 test, keeping groups of
    one;
  - the copy-selection loop of `main`.
- `LinkedMaps` and `Seqs` hold shared pieces:
  - Java's `LinkedHashMap` as an ordered key list plus a map of the non-null values;
  - `LinkedHashSet` insertion as `Dedup`;
  - distinctness and subsequence facts.

The file index is an ordered, repeat-free list of names. A file whose page could not be
rendered or hashed is not in the index at all: `computePdfHashes` and
`computeAllRegionHashes` catch the exception and skip the `put`. A listed name without a
value stands for a null value, which `get` returns as null. The program's own indices never
contain one, but `groupDuplicates` and `groupRegionWiseDuplicates` handle it for any map a
caller builds, and so does the model. The
`LinkedHashMap<String, List<String>>` that `groupDuplicates` returns is modelled as the
sequence of its groups in insertion order. Each group's key is its first element, its seed.
The seeds are proved distinct, so this is a map.

One might expect a larger threshold only to merge groups. The code does not behave that
way, and the model follows the code. A group member
is compared with its seed only, so a larger threshold can change which file becomes a seed.
`WholePage.ThresholdNotMonotone` shows this on three files whose fingerprints are 0, 3 and 7:
- at threshold 1 the groups are `[[b, c]]`;
- at threshold 2 they are `[[a, b]]`, and `b` and `c` are no longer together.

## Model

| member | source | states |
|---|---|---|
| Fingerprint.Distance | src/main/java/org/example/Main.java:66 | The Hamming distance `bitCount(ha ^ hb)` is at most 64. |
| Fingerprint.DistanceCountsDifferingBits | src/main/java/org/example/Main.java:218 | The popcount of the XOR equals the number of bit positions at which the two fingerprints differ (an independent bit-by-bit definition). |
| Fingerprint.DistanceProperties | src/main/java/org/example/Main.java:66 | The distance is symmetric, lies in [0, 64], and is 0 exactly when the two fingerprints are equal. |
| Fingerprint.TruncDiv | src/main/java/org/example/Main.java:134 | Java's `/` rounds toward zero: the quotient brackets the dividend from below for non-negative and from above for negative dividends. |
| Fingerprint.AverageHash | src/main/java/org/example/Main.java:130-142 | For 64 samples, bit `i` of the hash is set exactly when sample `i` is strictly greater than the truncated mean of all 64. |
| Fingerprint.UniformSamplesHashToZero | src/main/java/org/example/Main.java:130-142 | A page whose 64 samples are all equal hashes to 0. |
| Fingerprint.HashNeverAllOnes | src/main/java/org/example/Main.java:136-141 | No sample set hashes to all 64 bits set: not every sample can be above the mean. |
| Regions.RegionBands | src/main/java/org/example/Main.java:173-186 | The bands start at 0, `h/3` and `2*(h/3)`, are contiguous, and cover exactly `h` rows. The top and middle bands have the same height. The bottom band is at least as tall, by at most two rows. The bands are non-empty exactly when `h >= 3`. |
| Regions.RegionHashes | src/main/java/org/example/Main.java:176-188 | The region map has the keys `top`, `middle` and `bottom` in that order, each bound to its band's fingerprint. |
| Regions.CompareRegionHashes | src/main/java/org/example/Main.java:212-224 | The loop of `put`s yields the map `RegionDistances(hashA, hashB)`. |
| Regions.RegionDistancesEntries | src/main/java/org/example/Main.java:212-224 | The comparison has exactly `hashA`'s keys, in `hashA`'s order. Each entry lies in [-1, 64]. It is -1 exactly when either map lacks the region, and 0 exactly when both hold it with equal fingerprints. |
| Regions.ExtraKeysIgnored | src/main/java/org/example/Main.java:214-216 | Regions of `hashB` that `hashA` lacks do not affect the result. |
| Regions.RegionsMatchMeaning | src/main/java/org/example/Main.java:247-248 | `allMatch(dist == 0)` holds exactly when every region of the seed's map has a fingerprint in both maps and the two are equal. |
| Regions.EmptyMapMatchesAll | src/main/java/org/example/Main.java:248 | A seed with an empty region map matches every candidate, because `allMatch` over nothing is true. |
| Regions.PagesMatchIffAllBandsEqual | src/main/java/org/example/Main.java:176-187 | Two maps built by `computeRegionHashes` match exactly when all three band fingerprints are equal. |
| LinkedMaps.LinkedMap.Put | src/main/java/org/example/Main.java:73 | `put` binds the key and leaves every other key unchanged. A new key is appended to the iteration order, and an existing key keeps its place. A repeat-free map stays repeat-free. |
| Seqs.Dedup | src/main/java/org/example/Main.java:83-84 | A LinkedHashSet filled from a list holds each name of the list exactly once. |
| Clustering.GreedyMembers | src/main/java/org/example/Main.java:62-65 | Every grouped file comes from the index and has a fingerprint. |
| Clustering.GreedyGroupShape | src/main/java/org/example/Main.java:58-71 | Every group is its seed followed by later files in index order. Each later file matches the SEED's fingerprint. Groups of one are emitted only when singletons are kept. |
| Clustering.GreedySeedsInOrder | src/main/java/org/example/Main.java:53-57 | Groups are non-empty and come out in the index order of their seeds. |
| Clustering.GreedyDisjoint | src/main/java/org/example/Main.java:60 | On a repeat-free index, no file is in two groups and no group lists a file twice. |
| Clustering.GreedyCovers | src/main/java/org/example/Main.java:234-255 | When singletons are kept, every file with a fingerprint is in some group. |
| Clustering.ScanStep | src/main/java/org/example/Main.java:53-57 | A seen or null-hashed position adds no group. An unseen hashed position seeds the next group, and the pass continues with the files its scan leaves unseen. |
| Clustering.ScanComplete | src/main/java/org/example/Main.java:61-71 | The files the inner scan collects are exactly the seed's joiners among the unseen later files. |
| WholePage.GrowGroup | src/main/java/org/example/Main.java:58-71 | The inner loop marks the seed and exactly its joiners as seen. It returns the seed followed by the unseen later files near the seed, in order. |
| WholePage.GroupDuplicates | src/main/java/org/example/Main.java:49-77 | The method returns exactly the greedy pass with the Hamming-threshold test, groups of one dropped. |
| WholePage.DuplicateGroupShape | src/main/java/org/example/Main.java:49-77 | Every group has at least 2 files, in index order, all with fingerprints. Each later member is within `threshold` of the seed, not necessarily of the other members. |
| WholePage.DuplicateGroupsDisjoint | src/main/java/org/example/Main.java:49-77 | The groups are pairwise disjoint and repeat-free. Their seeds are distinct and in index order, so the result is a map keyed by seed. |
| WholePage.IsInAnyGroup | src/main/java/org/example/Main.java:87-93 | The early-exit search is true exactly when some group contains the file. |
| WholePage.Unclaimed | src/main/java/org/example/Main.java:86-95 | The files added in the second phase are exactly the index files in no group. |
| WholePage.GetOriginals | src/main/java/org/example/Main.java:82-97 | The result is the repeat-free list of the seeds followed by the ungrouped index files. A name is in it exactly when it is a seed or an index file in no group. |
| WholePage.OriginalsOfDuplicateGroups | src/main/java/org/example/Main.java:82-97 | For the groups of `groupDuplicates`, three things hold. The originals are exactly the seeds then the ungrouped files, with nothing dropped as a repeat. No non-seed member is an original. Every index file is either an original or in a group whose seed is one. |
| WholePage.FirstGroupContaining | src/main/java/org/example/Main.java:105-110 | The lookup result is empty exactly when no group lists the name. Otherwise it is the first group, in order, that lists it. |
| WholePage.FindDuplicatesForFile | src/main/java/org/example/Main.java:102-111 | The result is the first duplicate group containing the file, or empty. A non-empty result contains the file, has at least 2 members with fingerprints, and every member is within `threshold` of the group's first file. |
| WholePage.LookupOfUnindexedFile | src/test/java/org/example/MainTest.java:34-40 | A name that is not in the index, or whose key has no fingerprint, gets the empty list. |
| WholePage.FarFileNotInGroup | src/main/java/org/example/Main.java:66-69 | A file farther than `threshold` from every other hashed file cannot be in a group whose later members are within `threshold` of the seed. |
| WholePage.LookupOfUniqueFile | src/test/java/org/example/MainTest.java:24-31 | A file farther than `threshold` from every other hashed file gets the same empty list. |
| WholePage.SmallDistances | src/main/java/org/example/Main.java:66 | The distances among fingerprints 0, 3 and 7 are 2, 3 and 1. |
| WholePage.GroupsAtOne | src/main/java/org/example/Main.java:49-77 | With fingerprints 0, 3, 7 and threshold 1, the groups are `[[b, c]]`. |
| WholePage.GroupsAtTwo | src/main/java/org/example/Main.java:49-77 | The same index at threshold 2 gives `[[a, b]]`. |
| WholePage.ThresholdNotMonotone | src/main/java/org/example/Main.java:49-77 | Raising the threshold from 1 to 2 splits the group `[b, c]`, so the greedy pass is not monotone in the threshold. |
| RegionWise.GrowRegionGroup | src/main/java/org/example/Main.java:239-253 | The inner loop marks the seed and exactly the later unseen files whose region maps match it, and returns them after the seed, in order. |
| RegionWise.GroupRegionWiseDuplicates | src/main/java/org/example/Main.java:230-257 | The method returns exactly the greedy pass with the all-regions-zero test, groups of one kept. |
| RegionWise.RegionGroupsPartition | src/main/java/org/example/Main.java:230-257 | Every file with a region map is in exactly one group, and grouped files all have one. Groups are repeat-free and come out in seed order. Every later member matches its seed in every region the seed has. |
| RegionWise.NoGroupsWithoutMaps | src/main/java/org/example/Main.java:237-238 | Files with a null region map form no group. |
| RegionWise.EmptySeedAbsorbs | src/main/java/org/example/Main.java:247-249 | If the first file's region map is empty, every file with a region map joins its group, and that is the only group. |
| RegionWise.SelectCopies | src/main/java/org/example/Main.java:279-287 | The loop copies each group's first file unless it was already copied: the first-seen, repeat-free list of the seeds. `copied` holds exactly the seeds. |
| RegionWise.CopiesOnePerGroup | src/main/java/org/example/Main.java:279-287 | For the region-wise groups, the seeds are already repeat-free, so exactly one file is copied per group. |

## Left out

- Page rendering is left out: `renderPdfPage` (PDFBox) and the bilinear AWT resize at the start of `averageHash64`. These are library calls with image-filter numerics, so the 64 grey samples are an input to `AverageHash`.
- Listing the folder and the skip-and-log `try`/`catch` of `computePdfHashes` and `computeAllRegionHashes` are left out. The file index, meaning the names of the files that were hashed, in listing order, with their fingerprints, is an input.
- In `computeRegionHashes`, `getSubimage` and the per-band `averageHash64` calls are left out. `RegionBands` gives the band geometry, and `RegionHashes` takes the three band fingerprints as parameters.
- `md5OfFile` and `toHex` are left out. They compute MD5 through `MessageDigest`, which is a library call, and nothing in the program calls them.
- `findDuplicatesForFile`'s call to `computePdfHashes` is left out. The index is a parameter.
- Parts of `main` are left out: creating the output directory, `Files.copy` and all console output, including the listing of groups with more than one file. Only the choice of files to copy is modelled.
- `MainTest.java` needs a local folder of real PDFs. It is used only as the statement of the two empty-result cases.
- RegionBands: for a page under 3 rows tall, `regionHeight` is 0 and `getSubimage` throws. `computeAllRegionHashes` then logs the exception and leaves the file out of the region index. The model gives only the band arithmetic, and its ensures state that the bands are non-empty exactly when the height is at least 3.
- AverageHash: samples are unbounded integers. With 64 samples of 8-bit grey values, Java's `long` sum and the `(int)` cast of the mean cannot overflow, so no wrap-around is modelled.
- GetOriginals: requires every group to be non-empty. In the source, the group keys are the seeds, and the model reads each key as its group's first element. `groupDuplicates` never produces an empty group.
- SelectCopies: requires every group to be non-empty. Java's `group.get(0)` would throw on an empty group, and `groupRegionWiseDuplicates` never produces one. That exception path is not modelled.
- Threshold monotonicity and transitivity of `groupDuplicates` are not stated, because the code guarantees neither (see `WholePage.ThresholdNotMonotone`).
