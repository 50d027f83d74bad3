# Native fingerprint engine: a verified model

This project models the profile-300 fingerprint engine of the driver and the state machines that
feed and persist it, and proves what they promise.

- **Grouping and enrollment** (`Grouping`, `GroupSelection`, `FirstChoice`, `PreparedCaptures`,
  `Enrollment`, `EnrollmentSession`, `EnrollmentFinish`, `QualityGate`). Maximum-weight growth over
  a packed table of pairwise matches computes the connected components of the match graph. A session
  regroups after every accepted capture; over all its runs a chosen reference never changes and its
  group only grows.
- **The retained template** (`Pairs`, `SlotSwap`, `Redundancy`, `Retention`, `RetentionRuns`,
  `RetentionGate`, `RedundancyCosts`). The packed score graph is an index that agrees with the
  captures it summarises through every update.
- **The template codec** (`Bytes`, `Crc`, `CaptureCodec`, `TemplateCodec`, `TemplateBuffers`,
  `TemplateReader`, `PayloadSizes`, `TemplateLayout`). Printing and loading are inverse both ways
  through graph, collection, capture and block layers. The checksum is the CRC-32 of section 8 of
  RFC 1952.
- **Features and matching** (`FeatureSort`, `FeatureSelection`, `SpatialCells`, `FeatureBudget`,
  `Descriptors`, `Matching`, `Similarity`, `Geometry`, `GeometryVerification`, `Displacement`,
  `MovementLaws`, `Identification`, `BitLaws`). Quicksort, fair spatial selection, half-swap
  distance, mutual nearest neighbours, consensus geometry and identification.
- **The record store** (`StoreCodec`, `Store`, `Storage`, `StoreVerification`, `WantedRecords`).
  Memory equals what loading the file would give, after every operation and whatever fails.
- **Protocols** (`CaptureProtocol`, `LateUses`, `SensorOrders`, `UsbLifetime`, `UsbTeardown`,
  `EventFraming`). Capture generations, USB transfer and handle lifetime, and incremental framing,
  over all interleavings or cuts.
- **Arguments** (`Admissions`). What the operations accept, in numbers.
- **Frames and masks** (`FrameRanking`, `FrameScores`, `PackedMasks`, `Morphology`, `CaptureMask`,
  `MaskShape`).

Code that changes buffers, fields or arrays step by step is modelled by methods and classes that do
the same; each is proved against a specification function or predicate, and the promises are proved
about that specification. What gates, thresholds, sizes, cells and bits mean is stated in plain numbers.
`dafny verify dfyconfig.toml` checks the whole project.

How the C and C++ is read:

- Fixed-width integers are ranges of `int` with the wrap-around written out, or bit-vectors.
- Floating-point scores and measurements are real numbers where the code excludes NaN, and are taken
  as given: transforms, motion and area measurements, the placement of features.
- Allocation, saving and libusb answers may fail at any call; parameters such as `memory` and `io`
  say which calls succeed. An exception is the reply `Thrown`, an error status a number or `None`.
- A null pointer with a zero count is an empty sequence.
- The file on disk is its plaintext together with the key it was sealed with; sealing is taken to be
  invertible with the same key only, and renaming to be one step that may fail.
- `std::map` is walked in an arbitrary order, `std::sort` stands for any sorting.
- The asynchronous code is a state machine: each await is a point where any other step may come in.

Where the code differs from what one might expect of it:

- A submission on a USB handle is refused only while the handle waits to be closed. Once it is
  closed, a transfer allocated before is submitted again (`UsbLifetime.LateLaunchExactly`, with a
  short run in `UsbLifetime.LateLaunchHappens`); releasing unsubmitted transfers before the handle,
  as the driver's cleanup does, rules it out.
- An image may be used after its generation has gone by. It was taken in while current, but by its
  use a step may have raised the generation: sleep (`LateUses.SleepMayPrecedeUse`), or an operation
  begun after a stop request (`LateUses.NewOperationMayPrecedeUse`). It is still current exactly
  when neither sleep nor another operation or its worker raised it since the stage began
  (`LateUses.CurrentAtUseExactly`).
- The scan for a group to follow takes the last large group. On arbitrary groups that need not be a
  largest one (`GroupSelection.LastLargeMayBeSmaller`); it is exactly when no large group before it
  has more members (`GroupSelection.LastLargeIsLargestExactly`). In an enrollment session it always
  is: at most one group can be large when the choice is made (`FirstChoice.FirstChoiceIsLargest`).
- After the reader reports another hardware id, or initialization with another key fails, the file
  no longer loads as memory has it, until a save succeeds or both are as before
  (`Storage.LoadsOnlyAsWritten`).
- Rounding in the fitter can wrap: the pair (0, 0), (2047, 63), not moved at all, is fitted by
  another transform (`Displacement.WrapHappens`). A displaced pair is fitted by its displacement
  exactly when its squared distance is positive as a signed word and the scaled, rounded dividend
  does not wrap (`Displacement.MovedPairFits`); on the sixteen-unit grid of prepared features it
  never does (`Displacement.GridNeverWraps`).
- A threshold of zero or less still needs a positive score (`Identification.FirstTemplateWins`).

## Model

| member | source | states |
|---|---|---|
| Words.TriangleClosedForm | src/drv_fpc/native/fpc_recovered.c:2238-2238 | the recursive pair count is the closed form n(n-1)/2 the code computes |
| Words.AppendSlotInRange | src/drv_fpc/native/fpc_recovered.c:2246-2246 | the arrival-order slot of a pair of the first n captures lies below n(n-1)/2 |
| Grouping.WeighPair | src/drv_fpc/native/fpc_recovered.c:2245-2251 | adding one pair advances both partial weights, and no 32-bit word wraps |
| Grouping.Weigh | src/drv_fpc/native/fpc_recovered.c:2244-2251 | after the nested weight loops every ungrouped capture holds the sum of its inliers to admitted partners |
| Grouping.Heaviest | src/drv_fpc/native/fpc_recovered.c:2252-2253 | the scan picks the first capture of largest positive weight, or none when all weights are zero |
| Grouping.SelectNext | src/drv_fpc/native/fpc_recovered.c:2244-2253 | one weighing and one scan decide: nobody outside has weight, or the first heaviest one is chosen |
| Grouping.WeightLinksToRoot | src/drv_fpc/native/fpc_recovered.c:2258-2276 | weight towards the grouped captures is an edge into the newest group, all older groups being closed |
| Grouping.NoWeightClosesGroup | src/drv_fpc/native/fpc_recovered.c:2258-2269 | once nobody outside has weight, no edge leaves the newest group |
| Grouping.OpenKeepsInvariants | src/drv_fpc/native/fpc_recovered.c:2254-2255 | opening a group at the heaviest outside capture keeps groups closed and linked to their roots |
| Grouping.ExtendGroup | src/drv_fpc/native/fpc_recovered.c:2258-2277 | the inner loop ends, only moves outside captures into the newest group, and leaves all groups closed |
| Grouping.GrowRound | src/drv_fpc/native/fpc_recovered.c:2243-2278 | one round either proves the grouping finished or adds one closed group |
| Grouping.GrowthIsGrouping | src/drv_fpc/native/fpc_recovered.c:2241-2279 | closed groups linked to their roots are the connected components: same non-negative group exactly when linked by a path of matches, -1 exactly without any match |
| Grouping.GrowGroups | src/drv_fpc/native/fpc_recovered.c:2239-2279 | the outer loop ends and yields components numbered from 0 without gaps, heaviest root first |
| Grouping.GroupingIsUnique | src/drv_fpc/native/fpc_recovered.c:2239-2279 | a match graph has exactly one such grouping, roots included |
| GroupSelection.LastLarge | src/drv_fpc/native/fpc_recovered.c:2280-2291 | the group followed first is the last one with enough members |
| GroupSelection.LastLargeIsLargestExactly | src/drv_fpc/native/fpc_recovered.c:2280-2291 | that group is a largest one exactly when no large group before it has more members |
| GroupSelection.LastLargeMayBeSmaller | src/drv_fpc/native/fpc_recovered.c:2280-2291 | on groups of five and four captures the scan chooses the smaller |
| FirstChoice.OtherGroupsStay | src/drv_fpc/native/fpc_recovered.c:2239-2279 | one more capture enlarges only its own component: any other group is no larger than some group before |
| FirstChoice.FirstChoiceIsLargest | src/drv_fpc/native/enrollment.c:109-114 | in a session, while nothing is followed, at most the group of the newest capture is large after it is taken: it is chosen exactly when it is large, and every other group is smaller |
| FirstChoice.RunChoosesLargest | src/drv_fpc/native/enrollment.c:69-152 | in every run the first group followed is larger than all others |
| FirstChoice.FollowedHasFour | src/drv_fpc/native/enrollment.c:109-114 | in every run the followed group has at least four captures, and while none is followed no group has more than three |
| GroupSelection.SelectGroup | src/drv_fpc/native/fpc_recovered.c:2281-2291 | the scan selects that group, takes its root as reference and raises the flag |
| GroupSelection.RebuildGroups | src/drv_fpc/native/fpc_recovered.c:2232-2301 | argument errors change nothing; otherwise groups are the grouping, and a group followed before is the one of its reference capture, which becomes its root |
| Admissions.GroupableExactly | src/drv_fpc/native/fpc_recovered.c:2237-2238 | captures are grouped when there are 1 to 32767 of them and a record for every pair |
| Similarity.NormIsExact | src/drv_fpc/native/fpc_recovered.c:1415-1418 | below 2^15 per axis the wrapped signed comparison sees the true squared length |
| Similarity.AcceptedPairFits | src/drv_fpc/native/fpc_recovered.c:1370-1425 | a pair the sampler marks valid is never rejected by the fitter, and its rotation coefficients are the quotients themselves, nothing cut at 16 bits |
| Similarity.SampleInRange | src/drv_fpc/native/fpc_recovered.c:1398-1412 | each batch holds sixteen pairs of indices within the point list |
| Geometry.IterateRuns | src/drv_fpc/native/fpc_recovered.c:1456-1476 | one iteration keeps the search state well formed, counts one iteration and never lowers the best consensus |
| Geometry.SearchEnds | src/drv_fpc/native/fpc_recovered.c:1456-1476 | the search ends within 10000 iterations, and no transform whose inliers it counted beats the one it returns |
| Displacement.MovedPairFits | src/drv_fpc/native/fpc_recovered.c:1370-1396 | two points displaced by one vector (dx, dy) are fitted by no rotation and exactly that translation if and only if their squared distance, modulo 2^32, is positive as a signed word and its scaled and rounded form does not wrap |
| Displacement.TurnedPairFits | src/drv_fpc/native/fpc_recovered.c:1370-1396 | two points turned by a quarter and displaced are fitted by that quarter turn exactly under the same condition, which fixes the signs of the dot and cross products |
| Displacement.GridNeverWraps | src/drv_fpc/native/fpc_recovered.c:1376-1385 | squared distances on the sixteen-unit grid of prepared features never wrap |
| Displacement.WrapHappens | src/drv_fpc/native/fpc_recovered.c:1376-1385 | off that grid it happens: the pair (0, 0), (2047, 63), not displaced at all, is fitted by another transform |
| Displacement.ShiftError | src/drv_fpc/native/fpc_recovered.c:1425-1434 | a point that misses a pure translation by (ux, uy) is an inlier exactly when ux ux + uy uy < 768 |
| Displacement.TurnError | src/drv_fpc/native/fpc_recovered.c:1425-1434 | the same for a quarter turn |
| Displacement.AcceptableExactly | src/drv_fpc/native/fpc_recovered.c:1413-1421 | a pair is acceptable exactly when its squared length exceeds 256 and the two squared lengths differ by less than an eighth of it |
| Displacement.FirstSixteen | src/drv_fpc/native/fpc_recovered.c:1398-1412 | the first sixteen index pairs of every search are the written-out draws, scaled to the number of points |
| Displacement.FirstPairIsConsidered | src/drv_fpc/native/fpc_recovered.c:1456-1476 | the first drawn pair is fitted whenever it is acceptable |
| Displacement.ConsideredIsCounted | src/drv_fpc/native/fpc_recovered.c:1456-1476 | every considered pair has a fit, and its inliers are counted |
| Displacement.MovedTogether | src/drv_fpc/native/fpc_recovered.c:1451-1478 | points that all moved by one vector are all inliers of the transform the search returns, once one acceptable pair without a wrap is considered |
| Displacement.GridMovedTogether | src/drv_fpc/native/fpc_recovered.c:1451-1478 | on the grid of prepared features any acceptable pair considered is enough |
| Displacement.LimitFalls | src/drv_fpc/native/fpc_recovered.c:1440-1471 | from one thirty-second of inliers on, a larger consensus never lengthens the search |
| Displacement.EverybodyEnds | src/drv_fpc/native/fpc_recovered.c:1440-1471 | when everybody agrees, eighty iterations are the limit |
| Displacement.BarrenSearch | src/drv_fpc/native/fpc_recovered.c:1456-1476 | where no pair is acceptable the search tries 1500 times and finds nothing |
| Geometry.FindConsensus | src/drv_fpc/native/fpc_recovered.c:1451-1478 | the search loop returns that best consensus and transform |
| Geometry.FilterClose | src/drv_fpc/native/fpc_recovered.c:1482-1489 | the double loop leaves exactly the flags that no earlier surviving flag is close to, and counts them |
| Geometry.SpatialFlagsExactly | src/drv_fpc/native/fpc_recovered.c:1480-1489 | those flags are the one first-come maximal subset of the consensus with pairwise squared distance at least 3584 |
| GeometryVerification.MovementFits | src/drv_fpc/native/fpc_recovered.c:1491-1496 | the movement sums stay below 2^31 |
| GeometryVerification.FilterMovement | src/drv_fpc/native/fpc_recovered.c:1491-1501 | all flags are dropped exactly when the kept points move less than 32 units on average along one axis |
| MovementLaws.StillExactly | src/drv_fpc/native/fpc_recovered.c:1491-1501 | the filter drops everything exactly when a point is flagged and the summed movement along one axis is less than 32 times their number |
| MovementLaws.MovedTogetherIsStill | src/drv_fpc/native/fpc_recovered.c:1491-1501 | points that all moved by (dx, dy) are dropped exactly when one of the two is less than 32 in magnitude |
| GeometryVerification.ScoreMeaning | src/drv_fpc/native/fpc_recovered.c:1477-1513 | spatial score is the size of the maximal separated subset; score is at most that, vanishes without movement, reaches four only with four enrolled pairs; success means a consensus of eight before filtering |
| GeometryVerification.MarkTargets | src/drv_fpc/native/fpc_recovered.c:1506-1510 | exactly the features of flagged, displaced pairs become members of the target |
| MovementLaws.MarkingExactly | src/drv_fpc/native/fpc_recovered.c:1506-1510 | a flagged point marks its feature exactly when it moved by a squared distance of at least 768 |
| BitLaws.MemberExactly | src/drv_fpc/native/fpc_recovered.c:1503-1510 | feature i is a member exactly when binary digit i % 8 of byte i / 8 is one |
| GeometryVerification.VerifyGeometry | src/drv_fpc/native/fpc_recovered.c:1436-1515 | the whole check: error exactly for unaddressable pairs, otherwise the specified result and flags; the result does not read the target membership it updates |
| Descriptors.PopCountIsOnes | src/drv_fpc/native/fpc_recovered.c:105-109 | the parallel population count counts the ones |
| Descriptors.ComputeDistance | src/drv_fpc/native/fpc_recovered.c:112-130 | the word loop computes the half-swap distance |
| Descriptors.DistanceSymmetric | src/drv_fpc/native/fpc_recovered.c:122-130 | the distance is symmetric |
| Descriptors.DistanceTriangle | src/drv_fpc/native/fpc_recovered.c:122-130 | the distance obeys the triangle inequality |
| Descriptors.DistanceIgnoresSwap | src/drv_fpc/native/fpc_recovered.c:122-130 | exchanging the halves of a descriptor changes no distance |
| BitLaws.DistanceZeroExactly | src/drv_fpc/native/fpc_recovered.c:122-130 | the distance is zero exactly when the descriptors are equal, or equal with the halves of one exchanged |
| Descriptors.ProjectDescriptor | src/drv_fpc/native/fpc_recovered.c:79-103 | refuses exactly the arguments the code refuses; otherwise the projection loops compute the specified descriptor |
| Descriptors.DescriptorBits | src/drv_fpc/native/fpc_recovered.c:79-103 | binary digit k of byte b is one exactly when projection 8 b + k is positive; the second half projects the patch read backwards |
| Descriptors.PixelProjects | src/drv_fpc/native/fpc_recovered.c:79-103 | a patch with a single lit pixel projects to that pixel’s weight times its value |
| Admissions.DescribableExactly | src/drv_fpc/native/fpc_recovered.c:79-86 | a descriptor is computed for a patch, an even size of 2 to 16 bytes and a full weight table |
| Descriptors.TurnSwapsHalves | src/drv_fpc/native/fpc_recovered.c:79-103 | a patch read backwards gives the descriptor with its halves exchanged |
| Matching.CandidatesExactly | src/drv_fpc/native/fpc_recovered.c:131-165 | the candidate list is exactly the set of first-index mutual nearest pairs under the threshold |
| Matching.CandidatesOneToOne | src/drv_fpc/native/fpc_recovered.c:131-165 | no feature of either side is used twice, and candidates come in row order |
| BitLaws.PairsExactly | src/drv_fpc/native/fpc_recovered.c:1575-1577 | two features are a pair exactly when each is the first of the closest to the other and fewer than 64 bits differ |
| Matching.MutualCandidates | src/drv_fpc/native/fpc_recovered.c:131-165 | the two scans compute that list, moved by the two index offsets modulo 2^16, with the error cases of the code |
| Matching.OffsetOneToOne | src/drv_fpc/native/fpc_recovered.c:131-165 | whatever the offsets, no feature of either side is used twice |
| Matching.TurnsKeepCandidates | src/drv_fpc/native/fpc_recovered.c:79-165 | turning any patches by 180 degrees leaves the candidate list unchanged |
| Identification.CompactPoint | src/drv_fpc/native/fpc_recovered.c:1529-1541 | the level walk and the rounding down give the coordinates of the level the index falls into |
| Identification.PlacedExactly | src/drv_fpc/native/fpc_recovered.c:1529-1541 | a byte coordinate becomes its scaled value in 1024ths, rounded down, plus the offset |
| Identification.PointsArePixels | src/drv_fpc/native/fpc_recovered.c:1542-1556 | every match point puts the pixel of one feature against that of the other, in sixteenths at the middle of the pixel |
| Admissions.ComparableExactly | src/drv_fpc/native/fpc_recovered.c:1558-1571 | a capture can be compared when its one level counts all its features, at most 32767, with 16-byte descriptors of mode 1 and nothing missing |
| Identification.PreparedSeparationIsExact | src/drv_fpc/native/fpc_recovered.c:1484-1485 | for prepared captures the spatial filter compares true squared distances |
| Identification.MatchCaptures | src/drv_fpc/native/fpc_recovered.c:1558-1582 | matching succeeds exactly on comparable captures, memory permitting, and reports and marks what is specified |
| Identification.MatchedFits | src/drv_fpc/native/fpc_recovered.c:1608-1608 | scores never exceed the feature count, so storing them in 16 bits loses nothing |
| Identification.TopExactly | src/drv_fpc/native/fpc_recovered.c:1610-1610 | score and selected capture are the maximum and its first position, or 0 and -1 |
| Identification.MatchCollection | src/drv_fpc/native/fpc_recovered.c:1584-1613 | the loop over a collection computes scores, transforms (an empty candidate list repeats the one before), best capture, and exactly the marks of all its captures |
| Identification.Identify | src/drv_fpc/native/fpc_recovered.c:1615-1640 | succeeds on searchable templates and returns the verdict described by Identifies; exactly the features marked by the templates searched become members |
| Identification.FirstTemplateWins | src/drv_fpc/native/fpc_recovered.c:1615-1640 | a template is selected exactly when some template reaches the threshold, never zero, and it is the first one in order |
| Identification.VerdictIsUnique | src/drv_fpc/native/fpc_recovered.c:1615-1640 | the verdict is determined by templates and query, whatever the membership bits: repeating it reproduces it |
| Identification.SecondMatchAgrees | src/drv_fpc/fingerprint.cpp:196-202 | matching the selected template once more gives the same score and capture |
| Pairs.PairIndexClosedForm | src/drv_fpc/native/fpc_recovered.c:1673-1678 | the packed index is the closed form the code computes |
| Pairs.PairIndexBijective | src/drv_fpc/native/fpc_recovered.c:1673-1678 | the packed index is a bijection from unordered pairs onto 0 .. n(n-1)/2 - 1 |
| SlotSwap.SwapScores | src/drv_fpc/native/fpc_recovered.c:1680-1692 | exchanging two slots exchanges them in every entry of the graph and in nothing else |
| SlotSwap.SwapTwice | src/drv_fpc/native/fpc_recovered.c:1680-1692 | exchanging the same slots again restores the graph |
| Redundancy.AddPairCosts | src/drv_fpc/native/fpc_recovered.c:1710-1715 | the cost loops compute each capture’s sum of squared scores modulo 2^32 |
| RedundancyCosts.CostFollowsEntry | src/drv_fpc/native/fpc_recovered.c:1710-1715 | raising one score between two captures from a to b raises the cost of either by b b - a a, modulo 2^32 |
| RedundancyCosts.StrangersCost | src/drv_fpc/native/fpc_recovered.c:1710-1715 | a capture that matched no stored one costs the square of its score against the newcomer |
| RedundancyCosts.NewcomerFollows | src/drv_fpc/native/fpc_recovered.c:1710-1715 | the newcomer’s cost follows its scores the same way |
| Redundancy.VictimExactly | src/drv_fpc/native/fpc_recovered.c:1716-1730 | protected positions are never chosen; with an unprotected capture of age the first most redundant of those is chosen, else the first most redundant above the newcomer, else none |
| Redundancy.ScanVictim | src/drv_fpc/native/fpc_recovered.c:1716-1730 | the two scanning loops compute that choice |
| Redundancy.SelectVictim | src/drv_fpc/native/fpc_recovered.c:1694-1732 | slot selection of a full graph, with its error cases |
| Redundancy.BubblePass | src/drv_fpc/native/fpc_recovered.c:1956-1963 | one pass moves the largest cost to the end, keeps equal costs in slot order, and everything behind its last swap is in place |
| Redundancy.InitialOrder | src/drv_fpc/native/fpc_recovered.c:1943-1965 | the initial order is the stable ascending permutation by cost modulo 2^32 and fixes every unused slot |
| Redundancy.StableOrderIsUnique | src/drv_fpc/native/fpc_recovered.c:1943-1965 | there is only one such order |
| Retention.PutEntry | src/drv_fpc/native/fpc_recovered.c:1740-1743 | writing a slot’s scores changes exactly its pairs with the other used slots |
| Retention.LoadedTemplate.WriteScores | src/drv_fpc/native/fpc_recovered.c:1734-1746 | the score loop and the grown count |
| Retention.LoadedTemplate.TakeCapture | src/drv_fpc/native/fpc_recovered.c:524-541 | append or replacement of a capture, with its error cases |
| Retention.LoadedTemplate.IncrementAges | src/drv_fpc/native/fpc_recovered.c:1808-1812 | ages of used slots grow by one, saturated |
| Retention.LoadedTemplate.ResetOneAge | src/drv_fpc/native/fpc_recovered.c:1814-1817 | one age becomes zero, at any index up to the used count |
| Retention.LoadedTemplate.Retain | src/drv_fpc/native/fpc_recovered.c:1755-1780 | capture and scores are placed together or not at all; the error return behind the transfer is unreachable |
| Retention.LoadedTemplate.Update | src/drv_fpc/native/fpc_recovered.c:1782-1806 | the whole update: state code, ages, quality gate, retention, outcome |
| RetentionGate.GateShut | src/drv_fpc/native/fpc_recovered.c:1793-1803 | unless the state asks for an update and score, confidence, coverage and quality all reach their minima, nothing but ages and the state changes |
| RetentionGate.ChangedMeansReached | src/drv_fpc/native/fpc_recovered.c:1793-1803 | read backwards: changed captures, scores or protection mean that all four minima were reached |
| RetentionGate.GateOpen | src/drv_fpc/native/fpc_recovered.c:1796-1801 | when they are reached, with a free slot and memory, the newcomer is the last capture, its slot is reported and its age is zero |
| RetentionGate.Reported | src/drv_fpc/native/fpc_recovered.c:1789-1805 | 1041 and no change outside state 102; otherwise the state becomes 103 and the change is reported |
| RetentionGate.AgesAdvance | src/drv_fpc/native/fpc_recovered.c:1793-1800 | ages advance by one up to 65535 except that of the slot filled |
| RetentionGate.MatchedIsYoung | src/drv_fpc/native/fpc_recovered.c:1794-1795 | the matched slot’s age becomes zero |
| RetentionRuns.StepPlaces | src/drv_fpc/native/fpc_recovered.c:1755-1806 | an update places the newcomer’s capture and scores together or leaves both alone, and never changes order, capacity or age count |
| RetentionRuns.FailureNeverSplits | src/drv_fpc/native/fpc_recovered.c:1755-1806 | a failed update, allocation failure included, leaves captures and scores as they were |
| RetentionRuns.RunKeepsMirror | src/drv_fpc/native/fpc_recovered.c:1734-1806 | over every run of updates the entry of two slots is the score the later capture got against the earlier one, and the used count is the number of captures |
| RetentionRuns.RunKeepsAges | src/drv_fpc/native/fpc_recovered.c:1782-1817 | over every run ages are the saturated updates since the slot was last matched or filled |
| RetentionRuns.RunProtects | src/drv_fpc/native/fpc_recovered.c:1716-1730 | over every run the captures in the protected places of the order stay, and the order never changes |
| Crc.ComputeCrc32 | src/drv_fpc/native/fpc_recovered.c:16-24 | the byte loop computes the checksum |
| Crc.FeedBijective | src/drv_fpc/native/fpc_recovered.c:16-24 | absorbing a byte is a bijection on 32-bit states |
| Crc.WindowIsWord32 | src/drv_fpc/native/fpc_recovered.c:6-13 | the word the checksum register sees in four bytes is the number they store in little-endian order |
| Crc.StoreThenLoad | src/drv_fpc/native/fpc_recovered.c:6-13 | a stored word reads back |
| Crc.SealedByResidue | src/drv_fpc/native/fpc_recovered.c:543-548 | a message with its checksum is sealed exactly when the register ends at one fixed value |
| Crc.BurstBreaksSeal | src/drv_fpc/native/fpc_recovered.c:543-548 | changing up to four consecutive bytes of a sealed block, checksum included, always breaks the seal |
| CaptureCodec.ParseOfPayload | src/drv_fpc/native/fpc_recovered.c:598-721 | loading a printed capture gives it back |
| CaptureCodec.PayloadOfParse | src/drv_fpc/native/fpc_recovered.c:598-721 | printing a loaded capture gives back exactly the accepted bytes |
| PayloadSizes.MembershipExactly | src/drv_fpc/native/fpc_recovered.c:608-608 | the membership takes the m bytes with n <= 8 m < n + 8, and no other number |
| PayloadSizes.PrintedSize | src/drv_fpc/native/fpc_recovered.c:695-702 | a capture prints to header, level rows, arrays and membership, each of its size in numbers |
| PayloadSizes.OtherSizesRefused | src/drv_fpc/native/fpc_recovered.c:606-610 | bytes that load have exactly the size their header announces |
| PayloadSizes.OneLevelSize | src/drv_fpc/native/fpc_recovered.c:695-702 | a stored one-level capture of n features takes 18 + 18 n + m bytes with n <= 8 m < n + 8 |
| PayloadSizes.OneLevelExactly | src/drv_fpc/native/fpc_recovered.c:598-612 | bytes that announce one level are a stored capture exactly when they have that size, at most 32767 features, and a level that counts them all |
| PayloadSizes.FlagsExactly | src/drv_fpc/native/fpc_recovered.c:604-608 | which of the six flag bits switches on which part |
| PayloadSizes.BareExactly | src/drv_fpc/native/fpc_recovered.c:600-603 | without the full flag a payload is four bytes and nothing but a count |
| TemplateCodec.OpenOfBlock | src/drv_fpc/native/fpc_recovered.c:543-548 | opening a printed block gives its payload and what follows |
| TemplateCodec.BlockOfOpen | src/drv_fpc/native/fpc_recovered.c:543-548 | an opened block is the printed one |
| TemplateCodec.ParseOfGraph | src/drv_fpc/native/fpc_recovered.c:1880-1915 | loading a printed score graph gives it back |
| TemplateCodec.GraphOfParse | src/drv_fpc/native/fpc_recovered.c:1880-1915 | printing a loaded score graph gives back its bytes |
| TemplateCodec.ParseOfCollection | src/drv_fpc/native/fpc_recovered.c:550-591 | loading a printed collection gives it back |
| TemplateCodec.CollectionOfParse | src/drv_fpc/native/fpc_recovered.c:550-591 | printing a loaded collection gives back its bytes |
| TemplateCodec.LoadOfPrint | src/drv_fpc/native/fpc_recovered.c:1819-1870 | loading a printed well-formed template gives it back: graph, captures, metadata and ages |
| TemplateCodec.PrintOfLoad | src/drv_fpc/native/fpc_recovered.c:1819-1870 | printing any accepted byte string’s template gives back exactly those bytes |
| TemplateCodec.AcceptedExactly | src/drv_fpc/native/fpc_recovered.c:1819-1870 | the accepted byte strings are exactly the printed well-formed templates |
| TemplateLayout.PrintLies | src/drv_fpc/native/fpc_recovered.c:1843-1870 | where everything lies in a printed template: version and size, then metadata, graph, collection and ages in blocks of tag, length, payload and checksum, each word least significant byte first |
| TemplateLayout.CaptureLies | src/drv_fpc/native/fpc_recovered.c:583-589 | captures follow one another in blocks tagged in order, each as long as its payload and twelve |
| TemplateCodec.BurstStopsWalk | src/drv_fpc/native/fpc_recovered.c:27-44 | two byte strings with the same length fields that pass the walk and differ in at most four consecutive bytes are equal |
| TemplateCodec.BurstFailsValidation | src/drv_fpc/native/fpc_recovered.c:27-44 | a valid template damaged by such a burst behind its header no longer validates |
| TemplateBuffers.PutCapture | src/drv_fpc/native/fpc_recovered.c:686-721 | writes a capture payload behind what the buffer holds |
| TemplateBuffers.PutCollection | src/drv_fpc/native/fpc_recovered.c:569-591 | writes the collection block and every capture block |
| TemplateBuffers.PutGraph | src/drv_fpc/native/fpc_recovered.c:1900-1915 | the word loop writes header, order and scores |
| TemplateBuffers.Serialize | src/drv_fpc/native/fpc_recovered.c:1843-1870 | refuses exactly what it must, or fills the buffer with the printed template |
| Admissions.SerializableExactly | src/drv_fpc/native/fpc_recovered.c:1843-1856 | what can be serialized is exactly what could be loaded again |
| TemplateReader.Validate | src/drv_fpc/native/fpc_recovered.c:27-44 | the block walk accepts exactly the well-framed, sealed byte strings |
| TemplateReader.CheckedBlock | src/drv_fpc/native/fpc_recovered.c:543-548 | finds a sealed block of the given tag at an offset, or reports there is none |
| TemplateReader.CheckLevels | src/drv_fpc/native/fpc_recovered.c:611-613 | the level loop accepts exactly counts below 32768 that add up |
| TemplateReader.LoadCapture | src/drv_fpc/native/fpc_recovered.c:598-640 | loads exactly what Parse accepts |
| TemplateReader.LoadCollection | src/drv_fpc/native/fpc_recovered.c:550-567 | loads exactly what ParseCollection accepts and stops behind it |
| TemplateReader.LoadTemplate | src/drv_fpc/native/fpc_recovered.c:1819-1841 | loads exactly what Load accepts, memory permitting |
| PreparedCaptures.FromPrepared | src/drv_fpc/native/enrollment.c:20-47 | more than 300 features are refused; otherwise the view, taken through its payload and back, is the one the features determine |
| PreparedCaptures.ViewIsUnique | src/drv_fpc/native/enrollment.c:20-47 | there is one such view |
| PreparedCaptures.ViewIsUsable | src/drv_fpc/native/enrollment.c:20-47 | it can be matched and stored, and its payload takes at most 5456 bytes |
| PreparedCaptures.EnrolledScore | src/drv_fpc/native/enrollment.c:87-102 | against an enrolled capture the score is the number of pairs that survive the filters |
| PreparedCaptures.EnrolledMarks | src/drv_fpc/native/enrollment.c:91-93 | matching marks nothing new on an enrolled capture |
| Enrollment.ComponentsGrow | src/drv_fpc/native/enrollment.c:109-114 | when captures are appended, captures grouped together stay together |
| Enrollment.FollowedSurvives | src/drv_fpc/native/enrollment.c:109-114 | after an accepted capture the followed group is still the large group of the same reference |
| Enrollment.TablesExtend | src/drv_fpc/native/enrollment.c:87-102 | complete pair tables stay complete when the records of one more capture are appended |
| Enrollment.TakeIsSound | src/drv_fpc/native/enrollment.c:83-147 | taking a capture keeps the session’s whole invariant: tables, components, followed group, metrics and progress follow from the old ones and what the call did |
| QualityGate.GateExactly | src/drv_fpc/native/fpc_recovered.c:1984-2003 | on a sound session below 13 captures: with confidence at least 25, coverage at least 60 and quality at least 32 the call takes the capture or the session fails; otherwise nothing but the attempt and the refusal streak is counted, and the status is 112 exactly when that 8-bit streak is ten or more |
| QualityGate.TakenMeansPassed | src/drv_fpc/native/enrollment.c:69-83 | whatever was taken had all three figures; 111 means a full session |
| QualityGate.FlagsTell | src/drv_fpc/native/fpc_recovered.c:1992-1995 | which figure sets which rejection flag, and no flag exactly for a passing capture |
| Enrollment.StepIsSound | src/drv_fpc/native/enrollment.c:69-152 | any call leaves a sound session sound, or failed |
| Enrollment.RunIsSound | src/drv_fpc/native/enrollment.c:69-152 | every state of every run that has not failed is sound, by induction over the calls |
| Enrollment.StepKeeps | src/drv_fpc/native/enrollment.c:69-152 | one offered capture never undoes failure, completion, captures, groups or the reference |
| Enrollment.RunKeeps | src/drv_fpc/native/enrollment.c:69-152 | over every run: failure and completion are final, captures are only appended, groups only grow, a chosen reference never changes |
| Enrollment.RunStateMeans | src/drv_fpc/native/enrollment.c:69-152 | in every state of every run: n(n-1)/2 pair records, the followed group is exactly what is linked to the reference, and a complete session holds 7 to 13 captures |
| EnrollmentSession.TablesFit | src/drv_fpc/native/enrollment.c:87-110 | no group weight of a session can wrap |
| EnrollmentSession.NativeEnrollment.constructor | src/drv_fpc/native/enrollment.c:48-61 | a new session is the empty one |
| EnrollmentSession.NativeEnrollment.MatchEarlier | src/drv_fpc/native/enrollment.c:87-102 | appends the records of the newcomer against every earlier capture, in order |
| EnrollmentSession.NativeEnrollment.Regroup | src/drv_fpc/native/enrollment.c:109-114 | groups of the grown table, the same reference followed |
| EnrollmentSession.NativeEnrollment.Add | src/drv_fpc/native/enrollment.c:69-152 | one call is one step of a run: its status, rejection flags and new state are those of the specification; a call that fails part way only adds behind what was stored |
| EnrollmentFinish.GraphCreate | src/drv_fpc/native/fpc_recovered.c:1923-1941 | a new graph holds each pair’s score at its packed index and zero elsewhere, ages at twice the retention capacity, the threshold at three times the capacity |
| EnrollmentFinish.Finish | src/drv_fpc/native/enrollment.c:153-181 | succeeds, memory permitting, exactly on a complete session that has not failed; the template has 7 to 13 captures, live scores and the stable order |
| EnrollmentFinish.EstablishedStartsRuns | src/drv_fpc/native/enrollment.c:153-181 | that template satisfies every invariant of the update runs |
| EnrollmentFinish.EnrolledTemplateForLife | src/drv_fpc/native/fpc_recovered.c:1755-1817 | from enrollment through every run of updates the graph mirrors the captures, ages are exact and the first eight captures of the order stay |
| StoreCodec.StorableIsAccepted | src/drv_fpc/fingerprint.cpp:67-88 | thirty-two captures of up to 300 features always print within 200000 bytes, so a storable template is accepted back |
| Admissions.StoredExactly | src/drv_fpc/fingerprint.cpp:67-88 | the store takes exactly the printed templates within 200000 bytes that have 32 slots, each once in the order, at most 32 protected, and one-level captures of up to 300 features |
| StoreCodec.ReadRecordBack | src/drv_fpc/fingerprint.cpp:258-271 | a written record reads back |
| StoreCodec.DecodeOfEncode | src/drv_fpc/fingerprint.cpp:249-304 | loading a saved file gives back its records, in whatever order they were written |
| StoreCodec.DecodedIsSound | src/drv_fpc/fingerprint.cpp:249-278 | whatever loads has valid templates and names and distinct non-zero registrations |
| TemplateLayout.FileHead | src/drv_fpc/fingerprint.cpp:285-293 | the file begins with 1, 300, 112, 88, 26, the hardware id and the number of records |
| TemplateLayout.RecordLies | src/drv_fpc/fingerprint.cpp:294-302 | a record is registration, user, name and template, each with its length before it |
| Store.Reader.Word | src/drv_fpc/fingerprint.cpp:42-49 | reads one word and advances, or refuses |
| Store.Reader.String | src/drv_fpc/fingerprint.cpp:57-65 | reads one name: 1 to 256 bytes, none of them zero |
| WantedRecords.FingersExactly | src/drv_fpc/fingerprint.hpp:16-23 | a finger is named by a hand and one of five fingers: left-thumb to right-little-finger |
| Store.ReadAll | src/drv_fpc/fingerprint.cpp:256-276 | the record loop reads exactly what the specification accepts; repeated registrations and keys are refused |
| Store.Parse | src/drv_fpc/fingerprint.cpp:249-278 | the parsing half of load |
| Storage.FingerprintStorage.Init | src/drv_fpc/fingerprint.cpp:221-248 | succeeds exactly with a 32-byte key and a file that loads; then memory equals the file; a failure keeps the records and what the file gives with the key it was written with |
| StoreCodec.ListingsAgree | src/drv_fpc/fingerprint.cpp:291-305 | whatever order the records are written in, they take the same space and are writable or not |
| StoreCodec.OneReader | src/drv_fpc/fingerprint.cpp:248-252 | a file that loads under one hardware id loads under no other |
| Storage.OneListingDecides | src/drv_fpc/fingerprint.cpp:288-308 | the order of the walk does not decide whether the records can be saved |
| Storage.FingerprintStorage.Save | src/drv_fpc/fingerprint.cpp:281-368 | succeeds exactly with a name, a 32-byte key, working input and output and records within the limits; then the file holds exactly the records in memory, otherwise it is left alone |
| Admissions.SavableExactly | src/drv_fpc/fingerprint.cpp:281-303 | at most 1000 records, named in 1 to 256 bytes, templates within 200000, and 28 bytes and sixteen per record besides within 2^24 less 36 |
| Storage.FingerprintStorage.Identified | src/drv_fpc/fpc9201.cpp:2184-2184 | a new hardware id changes neither memory nor file |
| Storage.LoadsOnlyAsWritten | src/drv_fpc/fingerprint.cpp:230-252 | after the key or the hardware id has changed, loading gives what is in memory exactly when there is no file or both are those it was written with; otherwise it does not load |
| Storage.FingerprintStorage.DeleteAll | src/drv_fpc/fingerprint.cpp:126-133 | removes a user’s records from memory and file together, exactly when what remains can be saved, or nothing |
| Storage.FingerprintStorage.Delete | src/drv_fpc/fingerprint.cpp:134-143 | removes one record from memory and file together, exactly when it is there and the rest can be saved, or nothing |
| Storage.FingerprintStorage.LastRegistration | src/drv_fpc/fingerprint.cpp:153-159 | the highest registration in use |
| Storage.FingerprintStorage.InsertOrUpdate | src/drv_fpc/fingerprint.cpp:144-166 | a bad name or template throws; a known finger keeps its registration, a new one gets the next; memory and file stay equal |
| Storage.FingerprintStorage.ReplaceNative | src/drv_fpc/fingerprint.cpp:211-218 | an adapted template replaces the old one in memory and file together exactly when all records can then be saved, otherwise nothing changes |
| StoreVerification.AcceptedIsSearchable | src/drv_fpc/fingerprint.cpp:175-193 | a stored template never makes a search fail |
| StoreVerification.AdaptedIsAccepted | src/drv_fpc/fingerprint.cpp:203-213 | whatever an update does, the adapted template is accepted again, within 200000 bytes |
| StoreVerification.EnrolledIsAccepted | src/drv_fpc/native/enrollment.c:153-181 | the template of a finished enrollment is accepted by the store |
| StoreVerification.MembershipIsNotRead | src/drv_fpc/native/fpc_recovered.c:1436-1515 | scores do not depend on the membership bits of the query |
| StoreVerification.Select | src/drv_fpc/fingerprint.hpp:39-51 | the wanted records of a user, each once, in ascending registration order |
| WantedRecords.AnyMeansAll | src/drv_fpc/fingerprint.cpp:174-177 | with no name or the name "any" all records of the user are compared, and no others |
| WantedRecords.NameMeansOne | src/drv_fpc/fingerprint.cpp:174-177 | with any other name the one record of that name, if there is one |
| StoreVerification.VerdictMeans | src/drv_fpc/fingerprint.cpp:188-197 | a finger is accepted exactly when some wanted record reaches 18, and the record found is the first of those in registration order |
| WantedRecords.VerdictReports | src/drv_fpc/fingerprint.cpp:188-195 | the reported score is cut at 1000, and the probe is good from a score of 5 or a confidence of 20 |
| StoreVerification.MarksAgain | src/drv_fpc/fingerprint.cpp:196-202 | matching the record found once more marks no further feature |
| StoreVerification.Adapt | src/drv_fpc/fingerprint.cpp:196-213 | the new template is one update of the retained graph with the live scores and the membership bits the search left, is accepted, and is there whenever memory suffices |
| WantedRecords.AdaptationNeeds | src/drv_fpc/fingerprint.cpp:203-210 | the captures change only after a score of at least 25 by a probe of confidence 25, coverage 60 and quality 32 or more |
| WantedRecords.AdaptationHappens | src/drv_fpc/fingerprint.cpp:203-210 | with room and memory they do then: the probe becomes the last capture, eight captures are protected |
| WantedRecords.NoSlotReported | src/drv_fpc/fingerprint.cpp:203-210 | without all four figures the update reports no slot as filled |
| StoreVerification.UpdateSucceeds | src/drv_fpc/native/fpc_recovered.c:1782-1806 | with memory the update of a stored template never fails |
| StoreVerification.Verify | src/drv_fpc/fingerprint.cpp:167-220 | the verdict above; with memory it answers exactly when at most 300 features and 100 wanted records are compared; on a match the record found is adapted, in memory and file together, exactly when all records can then be saved, and nothing else changes |
| EventFraming.ParseOfEncode | src/drv_fpc/protocol.hpp:36-50 | encoded frames come back, and what follows is parsed as if alone |
| EventFraming.EncodeOfParse | src/drv_fpc/protocol.hpp:36-50 | a stream is its frames followed by the bytes left over, fewer than 65536 of them unless the length is bad |
| EventFraming.ParseContinues | src/drv_fpc/protocol.hpp:29-50 | bytes that arrive later only continue the parse |
| EventFraming.ChunksDoNotMatter | src/drv_fpc/protocol.hpp:29-50 | every cut of a stream gives the frames and the error of the stream parsed whole, up to a refused chunk |
| EventFraming.ModestChunksAreTaken | src/drv_fpc/protocol.hpp:29-31 | a framer drained after every chunk never refuses a chunk of up to 65537 bytes |
| EventFraming.TakenExactly | src/drv_fpc/protocol.hpp:29-31 | the bound is exact: a drained framer takes every chunk of n bytes exactly when n is at most 65537 |
| EventFraming.FrontExactly | src/drv_fpc/protocol.hpp:36-50 | with its length read most significant byte first a frame is bad below 12 or above 65536, partial until it is there, and its body is what lies between |
| EventFraming.ShortestFrame | src/drv_fpc/protocol.hpp:36-50 | code, length and result of a twelve-byte frame |
| EventFraming.EventFramer.Feed | src/drv_fpc/protocol.hpp:29-35 | appends, or refuses beyond the receive limit and changes nothing |
| EventFraming.EventFramer.Next | src/drv_fpc/protocol.hpp:36-50 | takes the front frame off, or tells that there is none or that its length is bad |
| EventFraming.EventFramer.Drain | src/drv_fpc/protocol.hpp:36-50 | returns all complete frames |
| EventFraming.EventFramer.Receive | src/drv_fpc/protocol.hpp:29-50 | feeding chunk by chunk computes the outcome of the specification |
| FeatureSort.Partition | src/drv_fpc/native/fpc_recovered.c:1048-1058 | larger scores left, smaller right, at most one pivot between, and neither side is the whole range |
| FeatureSort.SortRange | src/drv_fpc/native/fpc_recovered.c:1046-1062 | ends, permutes the records and leaves scores descending |
| FeatureSort.SortFeatureScores | src/drv_fpc/native/fpc_recovered.c:1064-1070 | the entry point, with its size limit |
| FeatureSelection.BuildLists | src/drv_fpc/native/fpc_recovered.c:1112-1123 | the linked lists hold each cell’s positions in ranking order |
| FeatureSelection.Shuffle | src/drv_fpc/native/fpc_recovered.c:1124-1131 | the ninety swaps give the visiting order: a permutation of the nine cells |
| FeatureSelection.CarriesOn | src/drv_fpc/native/fpc_recovered.c:1126-1128 | one draw of the generator: with both words read as one number, carry above, it multiplies the low word by 4164903690 and adds the carry |
| FeatureSelection.VisitTakes | src/drv_fpc/native/fpc_recovered.c:1132-1137 | a visit takes the cell’s next position in ranking order and keeps the round fair |
| FeatureSelection.RoundsSuffice | src/drv_fpc/native/fpc_recovered.c:1132-1137 | after as many rounds as there are positions everything is chosen |
| FeatureSelection.FairIsSelected | src/drv_fpc/native/fpc_recovered.c:1132-1137 | in each cell the chosen positions are a prefix of the ranking, and a cell giving two fewer than another is exhausted |
| FeatureSelection.SelectSpatial | src/drv_fpc/native/fpc_recovered.c:1104-1140 | the round robin ends whenever no more are wanted than there are, and selects that many different positions so, in the order of their turns, which leaves one selection only |
| FeatureSelection.TurnsDecide | src/drv_fpc/native/fpc_recovered.c:1132-1137 | two selections that follow the turns agree as far as both go |
| SpatialCells.CellExactly | src/drv_fpc/native/fpc_recovered.c:1114-1121 | a point lies in cell k + 3 m exactly when its column is the k-th third of the width and its row the m-th third of the height, points outside counted to the nearest third |
| SpatialCells.InnerCellExactly | src/drv_fpc/native/fpc_recovered.c:1114-1121 | for a point inside a frame of w by h: exactly when k w <= 3 (x - xmin) < (k + 1) w and m h <= 3 (y - ymin) < (m + 1) h |
| SpatialCells.SameCellSamePlace | src/drv_fpc/native/fpc_recovered.c:1114-1121 | two points share a cell exactly when they share column and row |
| SpatialCells.BetterFirst | src/drv_fpc/native/fpc_recovered.c:1104-1140 | a point ranked before a chosen one of the same column and row is chosen too |
| SpatialCells.PlacesShare | src/drv_fpc/native/fpc_recovered.c:1132-1137 | no column and row gets a second choice while another occupied one has none |
| SpatialCells.BestOfPlace | src/drv_fpc/native/fpc_recovered.c:1163-1185 | of two points of a level in the same column and row of the image the one chosen is not the worse one |
| FeatureBudget.RankingIsPermutation | src/drv_fpc/native/fpc_recovered.c:1170-1171 | a ranking names every point, and none twice |
| FeatureBudget.LimitLevel | src/drv_fpc/native/fpc_recovered.c:1163-1185 | a level contributes all its points, or its quota of different ones by fair selection |
| FeatureBudget.QuotaExactly | src/drv_fpc/native/fpc_recovered.c:1152-1159 | a single level gets the whole budget; of two the second gets half, rounded down; a loose or negative budget keeps all |
| FeatureBudget.LevelsPartition | src/drv_fpc/native/fpc_recovered.c:1160-1167 | the levels are the points in order, as many in each as it counts |
| FeatureBudget.BudgetHolds | src/drv_fpc/native/fpc_recovered.c:1152-1159 | a tight budget is never exceeded; a loose or negative one keeps every point |
| FeatureBudget.LimitFeatureBudget | src/drv_fpc/native/fpc_recovered.c:1142-1190 | every level keeps exactly the smaller of quota and size, in order |
| PackedMasks.CountPacked | src/drv_fpc/native/fpc_recovered.c:2004-2016 | the packed count is the number of set pixels |
| BitLaws.WordBits | src/drv_fpc/native/fpc_recovered.c:2004-2016 | pixel k of a mask word is its k-th binary digit from below |
| PackedMasks.ExpandMask | src/drv_fpc/native/fpc_recovered.c:1006-1019 | the expanded byte is 255 exactly for a set pixel |
| Morphology.TwoPasses | src/drv_fpc/native/profile300.c:317-330 | the two passes together look at the whole 3x3 neighbourhood |
| Morphology.Morph | src/drv_fpc/native/profile300.c:317-330 | one dilation or erosion in place |
| Morphology.Adjoint | src/drv_fpc/native/profile300.c:317-330 | with these edge rules a dilation stays within t exactly when the shape stays within t eroded |
| Morphology.AdjointRepeated | src/drv_fpc/native/profile300.c:336-339 | the same for any number of repetitions |
| Morphology.ClosingExtends | src/drv_fpc/native/profile300.c:336-339 | closing only adds |
| Morphology.ClosingIsMonotone | src/drv_fpc/native/profile300.c:336-339 | closing is monotone |
| Morphology.ClosingIsIdempotent | src/drv_fpc/native/profile300.c:336-339 | closing twice is closing once |
| CaptureMask.FillColumns | src/drv_fpc/native/profile300.c:340-351 | fills each column between its first and last spot |
| CaptureMask.FillRows | src/drv_fpc/native/profile300.c:352-363 | fills each row between its first and last spot |
| CaptureMask.MaskIsMonotone | src/drv_fpc/native/profile300.c:331-381 | a larger input mask never gives a smaller final mask |
| MaskShape.GrownExactly | src/drv_fpc/native/profile300.c:317-330 | k dilations turn on exactly what lies within k rows and columns of a spot |
| MaskShape.ShrunkExactly | src/drv_fpc/native/profile300.c:317-330 | k erosions keep exactly the spots around which the frame is on within k |
| MaskShape.MaskExactly | src/drv_fpc/native/profile300.c:331-381 | a spot is in the final mask exactly when everything within ten of it is margin or closed and filled, closing and filling described by distances |
| MaskShape.FullMaskStays | src/drv_fpc/native/profile300.c:331-381 | a full input keeps every spot inside the margin |
| CaptureMask.WriteMasks | src/drv_fpc/native/profile300.c:370-380 | writes both masks and counts |
| CaptureMask.MakeMask | src/drv_fpc/native/profile300.c:331-381 | the byte mask is 255 exactly on the final shape, the packed mask shows the same pixels, and the valid count is the packed count |
| FrameRanking.BoxRow | src/drv_fpc/native/profile300.c:383-396 | the running sum is the window sum at every position of a row |
| FrameRanking.Box15 | src/drv_fpc/native/profile300.c:382-410 | the two passes leave the mean over a 15x15 window at every pixel: rows first, then columns |
| FrameRanking.FrameScore | src/drv_fpc/native/profile300.c:411-437 | the score of a frame from its saturation and its local contrast, the box mean applied twice; -1 only without memory |
| FrameRanking.ScoreInRange | src/drv_fpc/native/profile300.c:411-437 | a score lies between 0 and 1000 |
| FrameScores.ScoreExactly | src/drv_fpc/native/profile300.c:411-437 | three quarters of the score are the pixels neither black nor white, one quarter the places more than thirteen levels from their surroundings, both in thousandths |
| FrameScores.MeanIsLocal | src/drv_fpc/native/profile300.c:383-396 | where a line is constant over fifteen positions its mean is that constant |
| FrameScores.MeanRounds | src/drv_fpc/native/profile300.c:383-396 | a mean is a fifteenth of its window to the nearest whole, except that eight fifteenths above 2184 are rounded down |
| FrameRanking.FlatFrame | src/drv_fpc/native/profile300.c:411-437 | a frame of one value scores 750, or 0 when it is black or white |
| FrameRanking.RankFrames | src/drv_fpc/native/profile300.c:438-458 | one to five frames are ordered by descending score, equal scores in frame order; the error cases exactly |
| CaptureProtocol.DeliveryIsSafe | src/drv_fpc/fpc9201.cpp:250-330 | a worker taking a delivery keeps the protocol’s invariant: an image counts only for the worker’s own generation |
| CaptureProtocol.HandlingIsSafe | src/drv_fpc/fpc9201.cpp:2172-2304 | so does the controller handling any message |
| SensorOrders.OrdersGiven | src/drv_fpc/fpc9201.cpp:203-353 | a stage orders the sensor on before it waits, an operation orders it off before it is gone, sleep and wake-up are passed on |
| SensorOrders.NoOtherWay | src/drv_fpc/fpc9201.cpp:203-353 | there is no other way into waiting, nor out of stopping except being cancelled |
| SensorOrders.OrdersTaken | src/drv_fpc/fpc9201.cpp:2284-2297 | a stop ends the capture in any state; a start arms it for the generation then current unless the session is not ready or asleep |
| SensorOrders.ImagesTaken | src/drv_fpc/fpc9201.cpp:2228-2240 | an image is passed on exactly when a capture of the current generation is under way and it is not stale |
| SensorOrders.StaleTouches | src/drv_fpc/fpc9201.cpp:2210-2225 | a touch is stale exactly when it is the first awaited and comes early |
| SensorOrders.LossEnds | src/drv_fpc/fpc9201.cpp:2293-2297 | a lost session tells a running operation and recovers |
| SensorOrders.NothingBeforeSession | src/drv_fpc/fpc9201.cpp:2256-2287 | over every run in which the device has not reported a session no capture is armed and no image taken in or used |
| SensorOrders.StageCompletes | src/drv_fpc/fpc9201.cpp:203-330 | from any ready and quiet session an operation can begin, arm the sensor, be told of the touch and use the image, ending ready and quiet again |
| SensorOrders.EndingStops | src/drv_fpc/fpc9201.cpp:250-330 | a failure or an asked-for stop ends the operation by stopping the sensor |
| CaptureProtocol.RunIsSafe | src/drv_fpc/fpc9201.cpp:203-356 | so does every run |
| CaptureProtocol.GenerationsProtectCaptures | src/drv_fpc/fpc9201.cpp:2228-2240 | in every interleaving a used image was taken in while its stage’s generation was current, and each generation is used at most once |
| LateUses.CurrentExactly | src/drv_fpc/fpc9201.cpp:203-353 | the generation is the same at two points of a run exactly when no step between them makes a new one current |
| LateUses.EveryUseIsMade | src/drv_fpc/fpc9201.cpp:250-330 | every use of an image in every run was made by one step, for a stage with a beginning |
| LateUses.OnlyForeignRaises | src/drv_fpc/fpc9201.cpp:203-353 | between a stage’s beginning and its use only sleep, another operation’s beginning or another worker can raise the generation: a recovery drops the image, and the worker’s own raising steps end its stage |
| LateUses.CurrentAtUseExactly | src/drv_fpc/fpc9201.cpp:250-330 | over every run the generation is still current at a use exactly when none of those raised it since the stage began |
| LateUses.SleepMayPrecedeUse | src/drv_fpc/fpc9201.cpp:518-519 | it need not be: a run in which sleep comes in between |
| LateUses.NewOperationMayPrecedeUse | src/drv_fpc/fpc9201.cpp:1373-1376 | nor without sleep: a stop request is queued behind the image and another operation begins |
| UsbLifetime.PendingHandles.Submit | src/drv_fpc/usb_transfer.hpp:134-150 | the tracking part of a submission: an entry first, none left behind by a refused transfer |
| UsbLifetime.PendingHandles.FinishTransfer | src/drv_fpc/usb_transfer.hpp:21-29 | the completion bookkeeping on the shared table |
| UsbLifetime.PendingHandles.DeferClose | src/drv_fpc/usb_transfer.hpp:30-43 | the deferred close on the shared table |
| UsbLifetime.PendingHandles.DrainCloses | src/drv_fpc/usb_transfer.hpp:50-59 | the walk closes exactly the handles that wait and have nothing in flight |
| UsbLifetime.RunFollows | src/drv_fpc/usb_transfer.hpp:21-168 | the table of a run is what its calls make of an empty table |
| UsbLifetime.FollowRun | src/drv_fpc/usb_transfer.hpp:21-168 | the table object driven by those calls ends with exactly the transfers in flight counted and no handle closed twice |
| UsbLifetime.StepKeeps | src/drv_fpc/usb_transfer.hpp:21-168 | every operation keeps counts, ownership and closings right, and closes only idle handles |
| UsbLifetime.LifetimesAreSound | src/drv_fpc/usb_transfer.hpp:21-168 | in every run the table counts the transfers in flight, no handle is closed twice, and each transfer is owned, orphaned in flight, or freed exactly once |
| UsbTeardown.AllocateGives | src/drv_fpc/usb_transfer.hpp:89-102 | a new transfer belongs to its owner, or without memory is freed at once |
| UsbTeardown.ReleaseLetsGo | src/drv_fpc/usb_transfer.hpp:69-81 | letting go of a transfer frees it, unless it is in flight |
| UsbTeardown.CompleteReturns | src/drv_fpc/usb_transfer.hpp:159-168 | a completed transfer goes back to its owner, or is freed when there is none |
| UsbTeardown.TeardownLeavesNothing | src/drv_fpc/usb_transfer.hpp:21-168 | from every reachable state: letting go of all transfers, completing those in flight, giving up all handles and draining frees every transfer exactly once, closes every handle exactly once and empties the table |
| UsbLifetime.ClosingIsQuiet | src/drv_fpc/usb_transfer.hpp:30-59 | no handle is closed while a transfer is in flight on it |
| UsbLifetime.LateLaunchExactly | src/drv_fpc/usb_transfer.hpp:134-150 | after a handle was given up a submission goes through exactly when the handle is already closed |
| UsbLifetime.LateLaunchHappens | src/drv_fpc/usb_transfer.hpp:35-40 | such a submission can happen: the transfer allocated first, submitted after an immediate close |
| UsbLifetime.CarefulRunsNeverLaunchLate | src/drv_fpc/usb_transfer.hpp:134-150 | it cannot when handles are given up only without unsubmitted transfers on them |

## Left out

- Floating-point numerics: transforms and their averaging, enhancement, orientation fields, image measurements; they appear as given values that may fail.
- Image preparation other than frame scores and ranking and the validity mask: it would only add numerics.
- The legacy paths off profile 300: resizing, blurring, circle detection, score remapping, group and pair payloads, and the feature-list variant of matching.
- Encryption, key handling, file-system calls, D-Bus messages, timers and USB transfers' contents: libraries whose code is not part of this model.
- Authorization, claiming and hot-plugging: message plumbing.
- The movement and group-change figures of an enrollment report: they are derived values nothing depends on.
- Mask unions, warping and the area metrics computed from them: their results enter as measurements.
- Matrices and packed coordinate tables are sequences of rows; the C code uses one flat buffer with a stride, so index arithmetic within such a buffer is only modelled where it is the point (pair index, packed masks, codec offsets).
- Sizes beyond `size_t` and the C checks against them.
- Grouping.GrowGroups: requires successful pairs to have non-negative inliers with sums below 2^31, which the code does not check; EnrollmentSession.TablesFit shows that a session always satisfies it.
- GroupSelection.RebuildGroups: says nothing about the arrays and the selection after a failure part way; the session is marked failed then.
- GeometryVerification.VerifyGeometry: keeps the flags of the pairs in an array of their own, and takes the sampling tolerance as the shift of 3 that is the only one in use.
- EnrollmentSession.NativeEnrollment.Add: of a call that fails part way it says that the session has failed, that its quality state is the judged one, and that at most one capture and some records came behind the stored ones, not how many records; nothing reads them afterwards.
- TemplateBuffers.Serialize: takes captures whose level counts add up and collection capacities up to 65535; the code also writes others, which it would refuse to load. Ages beyond the retention capacity are cut off, as in the code.
- TemplateReader.LoadTemplate: graph words are parsed by a function rather than the code's copying loop.
- CaptureProtocol.GenerationsProtectCaptures: the generation counter is unbounded here, 64 bits wide in the code.
- UsbLifetime.LifetimesAreSound: interface release and the order in which a drain closes several handles are not modelled; handle values are never reused.
