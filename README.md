# Track candidate compare-and-merge engine

This is a Dafny model of the deduplication core of the tracklet firmware's
`TrackHandler`. A track candidate holds, for each of 4 detector layers:

- a barrel and a disk stub array, where slot 0 is the layer's primary stub
  and slots 1..S-1 are secondary stubs;
- a barrel and a disk match flag.

`CompareTrack` (the master compared with another candidate) sets each
layer's flags. It extracts an identity token from the primary slot of both
candidates and sets the flag when the tokens are equal and the master's is
nonzero. `MergeTrack` counts the eight flags. When the count reaches the
merge condition, it reports a match and merges the other candidate into
the master:

- A primary slot is adopted when the master has no match in that layer and
  the other candidate's own flag is set.
- A secondary slot is copied when the master's is empty and the other's is
  not. Otherwise it is padded: `stubPadding << bit` is OR-ed in across the
  whole field width.

The project has three modules.

- `BitFields` (`bitfields.dfy`) models the `ap_uint` operations the handler
  uses, on unbounded naturals:
  - `.range(msb, lsb)` is `(x >> lsb) % 2^(msb-lsb+1)`;
  - the cast to `ap_uint<N>` is `% 2^N`;
  - `<<` is multiplication by a power of two, and `|` is a recursive
    bitwise or.

  Each operation is proved against an independent per-bit definition,
  `Bit`.
- `TrackModel` (`trackmodel.dfy`) gives the value-level specification:
  - a `Config` holds the header constants, which stay symbolic under
    their evident constraints (`ValidConfig`);
  - a `Candidate` is the contents of a handler;
  - `Compared` and `Merged` are the values the two operations produce;
  - the lemmas state the properties of those values.
- `Handler` (`trackhandler.dfy`) holds the class `TrackHandler`. Its four
  `array2<nat>` fields are updated in place, with the loops of the source.
  Each method is proved to leave `Snapshot()` equal to the specification
  of its old state:
  - `CompareTrack` leaves `Compared(cfg, old(Snapshot()), track)`;
  - `MergeTrack` leaves `Merged(cfg, old(Snapshot()), track, mergeCondition)`.

  The candidate passed by value is a `Candidate` value. A caller passes
  `other.Snapshot()`, so no aliasing arises.

MergeTrack's loop body is split into the helper methods `MergeLayer`,
`MergeSecondarySlot` and `PadSlot`, which keeps each proof small. The
source has no such functions: it writes these bodies inline inside its
loops (TrackletAlgorithm/TrackHandler.cc:47-91).

Three behaviours of the code are worth stating outright:

- **Primary-slot adoption.** Adoption tests the other candidate's own
  match flag, not whether its primary slot is filled. That flag is left
  over from whatever comparison last ran with the other candidate as
  master. `TrackModel.PrimaryNeedsOwnFlag` shows the consequence: with
  that flag clear, a filled slot is not adopted.
- **The padded value.** A secondary slot that is not copied is OR-ed with
  `stubPadding` shifted across the slot width. It always keeps all its
  old bits (`TrackModel.PaddedKeepsBits`). With an odd `stubPadding` it
  becomes the all-ones word of the slot width, whatever it held
  (`TrackModel.PaddedSentinel`). An empty slot becomes that all-ones word
  exactly when `stubPadding` is odd (`TrackModel.PaddedEmptySentinelIff`).
  With `stubPadding == 0` the slot is left unchanged
  (`TrackModel.PaddedZero`).
- **Both slots empty.** A secondary slot that is empty in both candidates
  is padded too (`TrackModel.MergeSecondarySentinel`).

## Model

| member | source | states |
|---|---|---|
| BitFields.BitRange | TrackletAlgorithm/TrackHandler.cc:10-13 | bit i of `x.range(msb, lsb)` is bit lsb+i of x for i <= msb-lsb, and clear above |
| BitFields.BitTrunc | TrackletAlgorithm/TrackHandler.cc:10-13 | the conversion to `ap_uint<n>` keeps exactly the bits below n |
| BitFields.BitShl | TrackletAlgorithm/TrackHandler.cc:70 | bit i of `x << k` is bit i-k of x when k <= i, and clear otherwise |
| BitFields.BitOr | TrackletAlgorithm/TrackHandler.cc:82 | each bit of the bitwise or of a and b is set exactly when it is set in a or in b |
| TrackModel.TokenBits | TrackletAlgorithm/TrackHandler.cc:10-13 | the token holds exactly the low min(kTFStubIndexSize, msb-lsb+1) bits of the index field at lsb |
| TrackModel.TokensEqualIff | TrackletAlgorithm/TrackHandler.cc:10-15 | two stub words have equal tokens exactly when they agree on those bits of the index field (both directions) |
| TrackModel.CompareRule | TrackletAlgorithm/TrackHandler.cc:9-29 | after comparing, a layer's flag is 1 iff the tokens are equal and the master's is > 0, else 0; later flag entries and all stubs are unchanged |
| TrackModel.CompareFieldBits | TrackletAlgorithm/TrackHandler.cc:10-28 | a flag is set iff the master's token is nonzero and both words agree on the token's bits of the index field |
| TrackModel.ZeroTokenNeverMatches | TrackletAlgorithm/TrackHandler.cc:15-28 | a zero master token never gives a match, even against another zero token |
| TrackModel.CompareSelf | TrackletAlgorithm/TrackHandler.cc:15-28 | comparing a candidate with a copy of itself flags exactly the layers whose token is nonzero |
| TrackModel.CompareIdempotent | TrackletAlgorithm/TrackHandler.cc:9-29 | the flags depend only on the stubs: comparing again with the same track changes nothing |
| TrackModel.CompareWellFormed | TrackletAlgorithm/TrackHandler.cc:9-29 | comparison keeps the flags within 0..1 and the stubs within their widths |
| Handler.TrackHandler.CompareTrack | TrackletAlgorithm/TrackHandler.cc:3-30 | the in-place loop leaves the handler equal to `Compared(old, track)`: each flag [l][0] is set by the token rule, and only those entries change |
| TrackModel.MatchCountSum | TrackletAlgorithm/TrackHandler.cc:35-38 | the count accumulated by the first loop is the sum of the eight used flags |
| TrackModel.MatchCountRange | TrackletAlgorithm/TrackHandler.cc:35-38 | the match count lies in 0..8 |
| TrackModel.MatchFoundRule | TrackletAlgorithm/TrackHandler.cc:39-95 | matchFound is 1 exactly when the count reaches mergeCondition, and 0 otherwise |
| TrackModel.MergeConditionZero | TrackletAlgorithm/TrackHandler.cc:39-40 | a merge condition of 0 always gives matchFound = 1 |
| TrackModel.MergeConditionAboveEight | TrackletAlgorithm/TrackHandler.cc:39-95 | a merge condition above 8 gives matchFound = 0 and leaves the master unchanged |
| TrackModel.MergeBelowThreshold | TrackletAlgorithm/TrackHandler.cc:39-95 | below the threshold, no stub and no flag of the master changes |
| TrackModel.MergeKeepsMatches | TrackletAlgorithm/TrackHandler.cc:32-96 | merging never changes the master's flags |
| TrackModel.MergePrimary | TrackletAlgorithm/TrackHandler.cc:47-57 | on a merge, slot 0 becomes the track's exactly when the master's flag is 0 and the track's own flag is 1; otherwise it is kept |
| TrackModel.PrimaryNeedsOwnFlag | TrackletAlgorithm/TrackHandler.cc:48-49 | with the track's flag clear, the master's primary slot is kept even when the track's slot is filled |
| TrackModel.MergeSecondary | TrackletAlgorithm/TrackHandler.cc:65-89 | a secondary slot takes the track's word when the master's is 0 and the track's is not; otherwise it is padded, and it keeps every bit it had |
| TrackModel.MergeSecondarySentinel | TrackletAlgorithm/TrackHandler.cc:66-89 | with odd stubPadding, a secondary slot that is not copied (occupied, or empty on both sides) becomes 2^width - 1 |
| TrackModel.PadUpToBits | TrackletAlgorithm/TrackHandler.cc:69-76 | after n passes of the padding loop, the slot's bits are its old bits plus the bits of `stubPadding << b` for b < n, within the slot width |
| TrackModel.PaddedKeepsBits | TrackletAlgorithm/TrackHandler.cc:69-76 | padding keeps every old bit and stays below 2^width |
| TrackModel.PaddedSentinel | TrackletAlgorithm/TrackHandler.cc:69-76 | with odd stubPadding, padding yields the all-ones word of the slot width, whatever the slot held |
| TrackModel.PaddedEmptySentinelIff | TrackletAlgorithm/TrackHandler.cc:69-76 | an empty slot is padded to the all-ones word of its width exactly when stubPadding is odd (both directions) |
| TrackModel.PaddedZero | TrackletAlgorithm/TrackHandler.cc:81-88 | with stubPadding == 0, padding leaves the slot unchanged |
| TrackModel.PaddedIdempotent | TrackletAlgorithm/TrackHandler.cc:69-76 | padding an already padded slot changes nothing |
| TrackModel.MergeWellFormed | TrackletAlgorithm/TrackHandler.cc:47-92 | merging keeps every stub within its width and the flags within 0..1, and leaves both flag grids equal to the master's |
| TrackModel.ScenarioSingleBarrelMatch | TrackletAlgorithm/TrackHandler.cc:9-57 | when only layer 0's barrel tokens are nonzero and equal, exactly that flag is set, the count is 1, condition 1 merges, and the master's layer-0 barrel primary slot is kept |
| Handler.PadSlot | TrackletAlgorithm/TrackHandler.cc:69-76 | the bit loop leaves the slot equal to the padding function of its old value, and no other element changes |
| Handler.TrackHandler.MergeSecondarySlot | TrackletAlgorithm/TrackHandler.cc:66-89 | one secondary slot of each region becomes `SecondarySlot(old, track)`; every other slot is unchanged |
| Handler.TrackHandler.MergeLayer | TrackletAlgorithm/TrackHandler.cc:47-91 | every slot of the layer becomes its merged value; other layers are unchanged |
| Handler.TrackHandler.MergeTrack | TrackletAlgorithm/TrackHandler.cc:32-96 | the in-place loops leave the handler equal to `Merged(old, track, mergeCondition)`; matchFound is 1 iff the count reaches mergeCondition |

## Left out

- TrackletAlgorithm/MatchEngine.h declares the matching engine that
  produces candidates. Its body is not part of this model.
- The diagnostic `std::cout` output and the commented-out debug blocks
  have no effect on state, so they are left out.
- The `#pragma HLS inline` directives are synthesis hints only.
- `TrackHandler.h` and `TrackFit` are not part of this model. The
  constants they define stay symbolic in `Config`. A few facts about them
  are therefore modelling choices:
  - each stub word is taken to be `kBarrelStubSize` or `kDiskStubSize`
    bits wide;
  - the match-flag arrays have `matchSlots >= 1` entries per layer;
  - the used flag of each layer is a bit. Only 0 and 1 are ever written
    to it, and the model takes it as 0..1 from construction. A flag that
    could hold another value is not modelled.
- The type of `stubPadding` is not shown. `stubPadding << bitIndex` is
  modelled as an unbounded shift that the assignment then truncates to
  the slot width. A `stubPadding` narrower than the slot would drop the
  high bits of the shift, and that is not modelled.
- `mergeCondition` and `matchFound` are `unsigned int` in the source.
  They are modelled as naturals. The count never exceeds 8, so a 32-bit
  bound changes no outcome.
- Folding merges across a whole epoch of candidates is left out, because
  no driver for it is shown.
- The handler's constructor is declared in the header, which is not
  shown. The model's constructor builds a handler from a given
  well-formed candidate.
