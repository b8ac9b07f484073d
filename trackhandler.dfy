/**
 * The track handler as the firmware has it: an object holding the barrel and
 * disk stub arrays and the per-layer match flags of one track candidate,
 * whose CompareTrack and MergeTrack update those arrays in place.  Each
 * method is proved to leave the object in the state the value-level model
 * (module TrackModel) prescribes.
 */
module Handler {
  import opened BitFields
  import opened TrackModel

  /** The contents of a two-dimensional array, row by row. */
  function Grid(a: array2<nat>): (g: seq<seq<nat>>)
    reads a
    ensures |g| == a.Length0
    ensures forall l | 0 <= l < a.Length0 :: |g[l]| == a.Length1 && forall k | 0 <= k < a.Length1 :: g[l][k] == a[l, k]
  {
    seq(a.Length0, l requires 0 <= l < a.Length0 reads a =>
      seq(a.Length1, k requires 0 <= k < a.Length1 reads a => a[l, k]))
  }

  lemma GridEquals(a: array2<nat>, s: seq<seq<nat>>)
    requires |s| == a.Length0
    requires forall l | 0 <= l < a.Length0 :: |s[l]| == a.Length1 && forall k | 0 <= k < a.Length1 :: s[l][k] == a[l, k]
    ensures Grid(a) == s
  {
    forall l | 0 <= l < a.Length0
      ensures Grid(a)[l] == s[l]
    {
    }
  }

  /**
   * The padding loop of MergeTrack on one slot: `width` times, or the
   * padding word shifted by the bit index into the slot, keeping the slot's
   * width.  No other element of the array changes.
   */
  method PadSlot(a: array2<nat>, l: nat, k: nat, width: nat, stubPadding: nat)
    requires l < a.Length0 && k < a.Length1
    modifies a
    ensures a[l, k] == PadUpTo(old(a[l, k]), stubPadding, width, width)
    ensures forall l', k' | 0 <= l' < a.Length0 && 0 <= k' < a.Length1 && (l', k') != (l, k) :: a[l', k'] == old(a[l', k'])
  {
    for bitIndex := 0 to width
      invariant a[l, k] == PadUpTo(old(a[l, k]), stubPadding, width, bitIndex)
      invariant forall l', k' | 0 <= l' < a.Length0 && 0 <= k' < a.Length1 && (l', k') != (l, k) :: a[l', k'] == old(a[l', k'])
    {
      a[l, k] := Trunc(Or(a[l, k], Shl(stubPadding, bitIndex)), width);
    }
  }

  class TrackHandler {
    const cfg: Config
    const barrelStubArray: array2<nat>
    const diskStubArray: array2<nat>
    const matchesFoundBarrel: array2<nat>
    const matchesFoundDisk: array2<nat>

    /** Array dimensions as the constants give them, and four separate arrays. */
    predicate Shaped()
    {
      barrelStubArray.Length0 == Layers && barrelStubArray.Length1 == cfg.layerStubIndexSize &&
      diskStubArray.Length0 == Layers && diskStubArray.Length1 == cfg.layerStubIndexSize &&
      matchesFoundBarrel.Length0 == Layers && matchesFoundBarrel.Length1 == cfg.matchSlots &&
      matchesFoundDisk.Length0 == Layers && matchesFoundDisk.Length1 == cfg.matchSlots &&
      barrelStubArray != diskStubArray && barrelStubArray != matchesFoundBarrel &&
      barrelStubArray != matchesFoundDisk && diskStubArray != matchesFoundBarrel &&
      diskStubArray != matchesFoundDisk && matchesFoundBarrel != matchesFoundDisk
    }

    /** The handler's contents as a value; passing a handler by value passes this. */
    function Snapshot(): Candidate
      reads barrelStubArray, diskStubArray, matchesFoundBarrel, matchesFoundDisk
    {
      Candidate(Grid(barrelStubArray), Grid(diskStubArray), Grid(matchesFoundBarrel), Grid(matchesFoundDisk))
    }

    ghost predicate Valid()
      reads barrelStubArray, diskStubArray, matchesFoundBarrel, matchesFoundDisk
    {
      Shaped() && WellFormed(cfg, Snapshot())
    }

    /** A handler holding the given candidate. */
    constructor (cfg: Config, c: Candidate)
      requires WellFormed(cfg, c)
      ensures Valid() && this.cfg == cfg && Snapshot() == c
      ensures fresh(barrelStubArray) && fresh(diskStubArray) && fresh(matchesFoundBarrel) && fresh(matchesFoundDisk)
    {
      var slots, flags := cfg.layerStubIndexSize, cfg.matchSlots;
      this.cfg := cfg;
      barrelStubArray := new nat[Layers, slots]((l, k) requires 0 <= l < Layers && 0 <= k < slots => c.barrelStubs[l][k]);
      diskStubArray := new nat[Layers, slots]((l, k) requires 0 <= l < Layers && 0 <= k < slots => c.diskStubs[l][k]);
      matchesFoundBarrel := new nat[Layers, flags]((l, j) requires 0 <= l < Layers && 0 <= j < flags => c.barrelMatches[l][j]);
      matchesFoundDisk := new nat[Layers, flags]((l, j) requires 0 <= l < Layers && 0 <= j < flags => c.diskMatches[l][j]);
      new;
      GridEquals(barrelStubArray, c.barrelStubs);
      GridEquals(diskStubArray, c.diskStubs);
      GridEquals(matchesFoundBarrel, c.barrelMatches);
      GridEquals(matchesFoundDisk, c.diskMatches);
    }

    /**
     * Compares this (master) candidate with track, layer by layer: the used
     * flag of each layer becomes 1 exactly when the primary-slot tokens are
     * equal and the master's is nonzero, and 0 otherwise.  Nothing else
     * changes.
     */
    method CompareTrack(track: Candidate)
      requires Valid() && WellFormed(cfg, track)
      modifies matchesFoundBarrel, matchesFoundDisk
      ensures Valid()
      ensures Snapshot() == Compared(cfg, old(Snapshot()), track)
      ensures forall l | 0 <= l < Layers ::
                var m, t := Token(cfg, Barrel, barrelStubArray[l, 0]), Token(cfg, Barrel, track.barrelStubs[l][0]);
                matchesFoundBarrel[l, 0] == (if m == t && m > 0 then 1 else 0)
      ensures forall l | 0 <= l < Layers ::
                var m, t := Token(cfg, Disk, diskStubArray[l, 0]), Token(cfg, Disk, track.diskStubs[l][0]);
                matchesFoundDisk[l, 0] == (if m == t && m > 0 then 1 else 0)
      ensures forall l, j | 0 <= l < Layers && 1 <= j < cfg.matchSlots ::
                matchesFoundBarrel[l, j] == old(matchesFoundBarrel[l, j]) && matchesFoundDisk[l, j] == old(matchesFoundDisk[l, j])
    {
      ghost var before := Snapshot();
      for layerIndex := 0 to Layers
        invariant forall l, j | 0 <= l < Layers && 0 <= j < cfg.matchSlots ::
                    matchesFoundBarrel[l, j] ==
                      if l < layerIndex && j == 0 then MatchFlag(cfg, Barrel, barrelStubArray[l, 0], track.barrelStubs[l][0])
                      else old(matchesFoundBarrel[l, j])
        invariant forall l, j | 0 <= l < Layers && 0 <= j < cfg.matchSlots ::
                    matchesFoundDisk[l, j] ==
                      if l < layerIndex && j == 0 then MatchFlag(cfg, Disk, diskStubArray[l, 0], track.diskStubs[l][0])
                      else old(matchesFoundDisk[l, j])
      {
        var masterBarrelStubIndex := Token(cfg, Barrel, barrelStubArray[layerIndex, 0]);
        var inputBarrelStubIndex := Token(cfg, Barrel, track.barrelStubs[layerIndex][0]);
        var masterDiskStubIndex := Token(cfg, Disk, diskStubArray[layerIndex, 0]);
        var inputDiskStubIndex := Token(cfg, Disk, track.diskStubs[layerIndex][0]);

        if masterBarrelStubIndex == inputBarrelStubIndex && masterBarrelStubIndex > 0 {
          matchesFoundBarrel[layerIndex, 0] := 1;
        } else {
          matchesFoundBarrel[layerIndex, 0] := 0;
        }

        if masterDiskStubIndex == inputDiskStubIndex && masterDiskStubIndex > 0 {
          matchesFoundDisk[layerIndex, 0] := 1;
        } else {
          matchesFoundDisk[layerIndex, 0] := 0;
        }
      }
      ComparedState(before, track);
    }

    /** The flag arrays as CompareTrack leaves them hold the compared candidate. */
    lemma ComparedState(before: Candidate, track: Candidate)
      requires Shaped() && WellFormed(cfg, before) && WellFormed(cfg, track)
      requires Grid(barrelStubArray) == before.barrelStubs && Grid(diskStubArray) == before.diskStubs
      requires forall l, j | 0 <= l < Layers && 0 <= j < cfg.matchSlots ::
                 matchesFoundBarrel[l, j] ==
                   if j == 0 then MatchFlag(cfg, Barrel, barrelStubArray[l, 0], track.barrelStubs[l][0])
                   else before.barrelMatches[l][j]
      requires forall l, j | 0 <= l < Layers && 0 <= j < cfg.matchSlots ::
                 matchesFoundDisk[l, j] ==
                   if j == 0 then MatchFlag(cfg, Disk, diskStubArray[l, 0], track.diskStubs[l][0])
                   else before.diskMatches[l][j]
      ensures WellFormed(cfg, Snapshot()) && Snapshot() == Compared(cfg, before, track)
    {
      GridEquals(matchesFoundBarrel, ComparedMatches(cfg, Barrel, before, track));
      GridEquals(matchesFoundDisk, ComparedMatches(cfg, Disk, before, track));
      CompareWellFormed(cfg, before, track);
    }

    /**
     * The body of MergeTrack's layer loop: adopt the primary slots, then copy
     * or pad each secondary slot of the layer.  Other layers do not change.
     */
    method MergeLayer(layerIndex: nat, track: Candidate)
      requires Shaped() && layerIndex < Layers && WellFormed(cfg, track)
      modifies barrelStubArray, diskStubArray
      ensures forall l, k | 0 <= l < Layers && 0 <= k < cfg.layerStubIndexSize ::
                barrelStubArray[l, k] ==
                  if l == layerIndex
                  then MergedSlot(cfg, Barrel, k, matchesFoundBarrel[l, 0], track.barrelMatches[l][0],
                                  old(barrelStubArray[l, k]), track.barrelStubs[l][k])
                  else old(barrelStubArray[l, k])
      ensures forall l, k | 0 <= l < Layers && 0 <= k < cfg.layerStubIndexSize ::
                diskStubArray[l, k] ==
                  if l == layerIndex
                  then MergedSlot(cfg, Disk, k, matchesFoundDisk[l, 0], track.diskMatches[l][0],
                                  old(diskStubArray[l, k]), track.diskStubs[l][k])
                  else old(diskStubArray[l, k])
    {
      if matchesFoundBarrel[layerIndex, 0] == 0 && track.barrelMatches[layerIndex][0] == 1 {
        barrelStubArray[layerIndex, 0] := track.barrelStubs[layerIndex][0];
      }
      if matchesFoundDisk[layerIndex, 0] == 0 && track.diskMatches[layerIndex][0] == 1 {
        diskStubArray[layerIndex, 0] := track.diskStubs[layerIndex][0];
      }

      for stubIndex := 1 to cfg.layerStubIndexSize
        invariant forall l, k | 0 <= l < Layers && 0 <= k < cfg.layerStubIndexSize ::
                    barrelStubArray[l, k] ==
                      if l == layerIndex && k < stubIndex
                      then MergedSlot(cfg, Barrel, k, matchesFoundBarrel[l, 0], track.barrelMatches[l][0],
                                      old(barrelStubArray[l, k]), track.barrelStubs[l][k])
                      else old(barrelStubArray[l, k])
        invariant forall l, k | 0 <= l < Layers && 0 <= k < cfg.layerStubIndexSize ::
                    diskStubArray[l, k] ==
                      if l == layerIndex && k < stubIndex
                      then MergedSlot(cfg, Disk, k, matchesFoundDisk[l, 0], track.diskMatches[l][0],
                                      old(diskStubArray[l, k]), track.diskStubs[l][k])
                      else old(diskStubArray[l, k])
      {
        MergeSecondarySlot(layerIndex, stubIndex, track);
      }
    }

    /**
     * One secondary slot of MergeTrack, in both regions: take the track's
     * word if the master's is empty and the track's is not, otherwise pad
     * the master's word.  No other slot changes.
     */
    method MergeSecondarySlot(layerIndex: nat, stubIndex: nat, track: Candidate)
      requires Shaped() && layerIndex < Layers && 1 <= stubIndex < cfg.layerStubIndexSize && WellFormed(cfg, track)
      modifies barrelStubArray, diskStubArray
      ensures barrelStubArray[layerIndex, stubIndex] ==
                SecondarySlot(cfg, Barrel, old(barrelStubArray[layerIndex, stubIndex]), track.barrelStubs[layerIndex][stubIndex])
      ensures diskStubArray[layerIndex, stubIndex] ==
                SecondarySlot(cfg, Disk, old(diskStubArray[layerIndex, stubIndex]), track.diskStubs[layerIndex][stubIndex])
      ensures forall l, k | 0 <= l < Layers && 0 <= k < cfg.layerStubIndexSize && (l, k) != (layerIndex, stubIndex) ::
                barrelStubArray[l, k] == old(barrelStubArray[l, k]) && diskStubArray[l, k] == old(diskStubArray[l, k])
    {
      if barrelStubArray[layerIndex, stubIndex] == 0 && track.barrelStubs[layerIndex][stubIndex] != 0 {
        barrelStubArray[layerIndex, stubIndex] := track.barrelStubs[layerIndex][stubIndex];
      } else {
        PadSlot(barrelStubArray, layerIndex, stubIndex, cfg.barrelStubSize, cfg.stubPadding);
      }
      if diskStubArray[layerIndex, stubIndex] == 0 && track.diskStubs[layerIndex][stubIndex] != 0 {
        diskStubArray[layerIndex, stubIndex] := track.diskStubs[layerIndex][stubIndex];
      } else {
        PadSlot(diskStubArray, layerIndex, stubIndex, cfg.diskStubSize, cfg.stubPadding);
      }
    }

    /** The stub arrays as MergeTrack leaves them hold the merged candidate. */
    lemma MergedState(before: Candidate, track: Candidate)
      requires Shaped() && WellFormed(cfg, before) && WellFormed(cfg, track)
      requires Grid(matchesFoundBarrel) == before.barrelMatches && Grid(matchesFoundDisk) == before.diskMatches
      requires forall l, k | 0 <= l < Layers && 0 <= k < cfg.layerStubIndexSize ::
                 barrelStubArray[l, k] ==
                   MergedSlot(cfg, Barrel, k, before.barrelMatches[l][0], track.barrelMatches[l][0],
                              before.barrelStubs[l][k], track.barrelStubs[l][k])
      requires forall l, k | 0 <= l < Layers && 0 <= k < cfg.layerStubIndexSize ::
                 diskStubArray[l, k] ==
                   MergedSlot(cfg, Disk, k, before.diskMatches[l][0], track.diskMatches[l][0],
                              before.diskStubs[l][k], track.diskStubs[l][k])
      ensures Snapshot() == before.(barrelStubs := MergedStubs(cfg, Barrel, before, track),
                                    diskStubs := MergedStubs(cfg, Disk, before, track))
    {
      GridEquals(barrelStubArray, MergedStubs(cfg, Barrel, before, track));
      GridEquals(diskStubArray, MergedStubs(cfg, Disk, before, track));
    }

    /**
     * Merges track into this (master) candidate when at least mergeCondition
     * of the eight flags are set, reporting in matchFound whether it did.
     */
    method MergeTrack(track: Candidate, mergeCondition: nat) returns (matchFound: nat)
      requires Valid() && WellFormed(cfg, track)
      modifies barrelStubArray, diskStubArray
      ensures Valid()
      ensures matchFound == MatchFound(cfg, old(Snapshot()), mergeCondition)
      ensures matchFound == 1 <==> MatchCount(cfg, old(Snapshot())) >= mergeCondition
      ensures Snapshot() == Merged(cfg, old(Snapshot()), track, mergeCondition)
    {
      ghost var before := Snapshot();
      var matchesFound := 0;
      for layerIndex := 0 to Layers
        invariant matchesFound == CountUpTo(before, layerIndex)
      {
        matchesFound := matchesFound + matchesFoundBarrel[layerIndex, 0] + matchesFoundDisk[layerIndex, 0];
      }
      if matchesFound >= mergeCondition {
        matchFound := 1;
        for layerIndex := 0 to Layers
          invariant forall l, k | 0 <= l < Layers && 0 <= k < cfg.layerStubIndexSize ::
                      barrelStubArray[l, k] ==
                        if l < layerIndex
                        then MergedSlot(cfg, Barrel, k, matchesFoundBarrel[l, 0], track.barrelMatches[l][0],
                                        old(barrelStubArray[l, k]), track.barrelStubs[l][k])
                        else old(barrelStubArray[l, k])
          invariant forall l, k | 0 <= l < Layers && 0 <= k < cfg.layerStubIndexSize ::
                      diskStubArray[l, k] ==
                        if l < layerIndex
                        then MergedSlot(cfg, Disk, k, matchesFoundDisk[l, 0], track.diskMatches[l][0],
                                        old(diskStubArray[l, k]), track.diskStubs[l][k])
                        else old(diskStubArray[l, k])
        {
          MergeLayer(layerIndex, track);
        }
        MergedState(before, track);
      } else {
        matchFound := 0;
      }
      MergeWellFormed(cfg, before, track, mergeCondition);
    }
  }
}
