/**
 * The value-level model of a track candidate and of the two operations of
 * the track handler: comparing a master candidate with another one layer by
 * layer, and merging the other candidate into the master when enough layers
 * matched.  The header constants the handler is compiled with are kept
 * symbolic in a `Config`; only their evident constraints are assumed.
 */
module TrackModel {
  import opened BitFields

  /** Number of detector layers a candidate covers. */
  const Layers: nat := 4

  /** The two region kinds of a layer. */
  datatype Region = Barrel | Disk

  /** The compile-time constants of the handler. */
  datatype Config = Config(
    barrelIndexMsb: nat,      // kBarrelStubIndexSizeMSB
    barrelIndexLsb: nat,      // kBarrelStubIndexSizeLSB
    diskIndexMsb: nat,        // kDiskStubIndexSizeMSB
    diskIndexLsb: nat,        // kDiskStubIndexSizeLSB
    tfStubIndexSize: nat,     // TrackFit::kTFStubIndexSize
    barrelStubSize: nat,      // TrackFit::kBarrelStubSize
    diskStubSize: nat,        // TrackFit::kDiskStubSize
    layerStubIndexSize: nat,  // slots per layer
    matchSlots: nat,          // second dimension of the match-flag arrays
    stubPadding: nat)         // stubPadding

  predicate ValidConfig(cfg: Config)
  {
    cfg.barrelIndexLsb <= cfg.barrelIndexMsb &&
    cfg.diskIndexLsb <= cfg.diskIndexMsb &&
    cfg.tfStubIndexSize >= 1 &&
    cfg.barrelStubSize >= 1 &&
    cfg.diskStubSize >= 1 &&
    cfg.layerStubIndexSize >= 1 &&
    cfg.matchSlots >= 1
  }

  function IndexMsb(cfg: Config, region: Region): nat
  {
    match region
    case Barrel => cfg.barrelIndexMsb
    case Disk => cfg.diskIndexMsb
  }

  function IndexLsb(cfg: Config, region: Region): nat
  {
    match region
    case Barrel => cfg.barrelIndexLsb
    case Disk => cfg.diskIndexLsb
  }

  /** Width of one stub word of the region. */
  function StubSize(cfg: Config, region: Region): nat
  {
    match region
    case Barrel => cfg.barrelStubSize
    case Disk => cfg.diskStubSize
  }

  /**
   * A track candidate: the contents of one `TrackHandler`.  Stub grids are
   * indexed [layer][slot]; flag grids [layer][j], of which only j == 0 is used.
   */
  datatype Candidate = Candidate(
    barrelStubs: seq<seq<nat>>,
    diskStubs: seq<seq<nat>>,
    barrelMatches: seq<seq<nat>>,
    diskMatches: seq<seq<nat>>)

  function Stubs(c: Candidate, region: Region): seq<seq<nat>>
  {
    match region
    case Barrel => c.barrelStubs
    case Disk => c.diskStubs
  }

  function Matches(c: Candidate, region: Region): seq<seq<nat>>
  {
    match region
    case Barrel => c.barrelMatches
    case Disk => c.diskMatches
  }

  /** Layers x slots stub words, each of the given width. */
  predicate StubGrid(s: seq<seq<nat>>, slots: nat, width: nat)
  {
    |s| == Layers &&
    forall l | 0 <= l < Layers :: |s[l]| == slots && forall k | 0 <= k < slots :: s[l][k] < Pow2(width)
  }

  /** Layers x slots flags, the used flag of each layer being a bit. */
  predicate FlagGrid(f: seq<seq<nat>>, slots: nat)
  {
    slots >= 1 && |f| == Layers &&
    forall l | 0 <= l < Layers :: |f[l]| == slots && f[l][0] <= 1
  }

  predicate WellFormed(cfg: Config, c: Candidate)
  {
    ValidConfig(cfg) &&
    StubGrid(c.barrelStubs, cfg.layerStubIndexSize, cfg.barrelStubSize) &&
    StubGrid(c.diskStubs, cfg.layerStubIndexSize, cfg.diskStubSize) &&
    FlagGrid(c.barrelMatches, cfg.matchSlots) &&
    FlagGrid(c.diskMatches, cfg.matchSlots)
  }

  lemma WellFormedRegion(cfg: Config, c: Candidate, region: Region)
    requires WellFormed(cfg, c)
    ensures StubGrid(Stubs(c, region), cfg.layerStubIndexSize, StubSize(cfg, region))
    ensures FlagGrid(Matches(c, region), cfg.matchSlots)
  {
  }

  // =====================================================================
  // Token extraction

  /**
   * The identity token of a stub word: bits IndexMsb..IndexLsb of it,
   * converted to `ap_uint<kTFStubIndexSize>`.
   */
  function Token(cfg: Config, region: Region, stub: nat): nat
    requires ValidConfig(cfg)
  {
    Trunc(Range(stub, IndexMsb(cfg, region), IndexLsb(cfg, region)), cfg.tfStubIndexSize)
  }

  /** Number of field bits that survive into the token. */
  function TokenWidth(cfg: Config, region: Region): nat
    requires ValidConfig(cfg)
  {
    var field := IndexMsb(cfg, region) - IndexLsb(cfg, region) + 1;
    if cfg.tfStubIndexSize < field then cfg.tfStubIndexSize else field
  }

  /** Bit i of the region's index field of a stub word. */
  predicate FieldBit(cfg: Config, region: Region, stub: nat, i: nat)
  {
    Bit(stub, IndexLsb(cfg, region) + i)
  }

  /** The token holds exactly the low TokenWidth bits of the index field. */
  lemma TokenBits(cfg: Config, region: Region, stub: nat, i: nat)
    requires ValidConfig(cfg)
    ensures Bit(Token(cfg, region, stub), i) == (i < TokenWidth(cfg, region) && FieldBit(cfg, region, stub, i))
  {
    var msb, lsb := IndexMsb(cfg, region), IndexLsb(cfg, region);
    BitTrunc(Range(stub, msb, lsb), cfg.tfStubIndexSize, i);
    BitRange(stub, msb, lsb, i);
  }

  lemma TokenBound(cfg: Config, region: Region, stub: nat)
    requires ValidConfig(cfg)
    ensures Token(cfg, region, stub) < Pow2(TokenWidth(cfg, region))
  {
    var msb, lsb := IndexMsb(cfg, region), IndexLsb(cfg, region);
    var r := Range(stub, msb, lsb);
    TruncAtMost(r, cfg.tfStubIndexSize);
    if cfg.tfStubIndexSize < msb - lsb + 1 {
    } else {
      assert Token(cfg, region, stub) <= r;
    }
  }

  /**
   * Two stub words have equal tokens exactly when they agree on the
   * TokenWidth low bits of the index field: the comparison looks at that
   * field and at nothing else of the word.
   */
  lemma TokensEqualIff(cfg: Config, region: Region, x: nat, y: nat)
    requires ValidConfig(cfg)
    ensures Token(cfg, region, x) == Token(cfg, region, y) <==>
            forall i | 0 <= i < TokenWidth(cfg, region) :: FieldBit(cfg, region, x, i) == FieldBit(cfg, region, y, i)
  {
    var w := TokenWidth(cfg, region);
    var tx, ty := Token(cfg, region, x), Token(cfg, region, y);
    if forall i | 0 <= i < w :: FieldBit(cfg, region, x, i) == FieldBit(cfg, region, y, i) {
      forall i | 0 <= i < w
        ensures Bit(tx, i) == Bit(ty, i)
      {
        TokenBits(cfg, region, x, i);
        TokenBits(cfg, region, y, i);
      }
      TokenBound(cfg, region, x);
      TokenBound(cfg, region, y);
      BitsEqual(tx, ty, w);
    }
    if tx == ty {
      forall i | 0 <= i < w
        ensures FieldBit(cfg, region, x, i) == FieldBit(cfg, region, y, i)
      {
        TokenBits(cfg, region, x, i);
        TokenBits(cfg, region, y, i);
      }
    }
  }

  // =====================================================================
  // Comparison

  /** The flag CompareTrack stores for one layer of one region. */
  function MatchFlag(cfg: Config, region: Region, master: nat, other: nat): nat
    requires ValidConfig(cfg)
  {
    var m := Token(cfg, region, master);
    if m == Token(cfg, region, other) && m > 0 then 1 else 0
  }

  /** The region's flag grid of the master after comparing it with track. */
  function ComparedMatches(cfg: Config, region: Region, master: Candidate, track: Candidate): seq<seq<nat>>
    requires WellFormed(cfg, master) && WellFormed(cfg, track)
  {
    WellFormedRegion(cfg, master, region);
    WellFormedRegion(cfg, track, region);
    var flags, ms, ts := Matches(master, region), Stubs(master, region), Stubs(track, region);
    seq(Layers, l requires 0 <= l < Layers => flags[l][0 := MatchFlag(cfg, region, ms[l][0], ts[l][0])])
  }

  /** The master after `CompareTrack(track)`. */
  function Compared(cfg: Config, master: Candidate, track: Candidate): Candidate
    requires WellFormed(cfg, master) && WellFormed(cfg, track)
  {
    master.(barrelMatches := ComparedMatches(cfg, Barrel, master, track),
            diskMatches := ComparedMatches(cfg, Disk, master, track))
  }

  /**
   * After a comparison, the flag of each layer is 1 exactly when the master's
   * and the track's tokens of the primary slot are equal and the master's is
   * nonzero, and 0 otherwise; no other flag and no stub changes.
   */
  lemma CompareRule(cfg: Config, master: Candidate, track: Candidate, region: Region, l: nat)
    requires WellFormed(cfg, master) && WellFormed(cfg, track) && l < Layers
    ensures var after, m, t := Compared(cfg, master, track),
                               Token(cfg, region, Stubs(master, region)[l][0]),
                               Token(cfg, region, Stubs(track, region)[l][0]);
            Matches(after, region)[l][0] == (if m == t && m > 0 then 1 else 0) &&
            (Matches(after, region)[l][0] == 1 <==> m == t && m > 0) &&
            |Matches(after, region)[l]| == cfg.matchSlots &&
            (forall j | 1 <= j < cfg.matchSlots :: Matches(after, region)[l][j] == Matches(master, region)[l][j]) &&
            Stubs(after, region) == Stubs(master, region)
  {
  }

  /** Comparison keeps a candidate well formed. */
  lemma CompareWellFormed(cfg: Config, master: Candidate, track: Candidate)
    requires WellFormed(cfg, master) && WellFormed(cfg, track)
    ensures WellFormed(cfg, Compared(cfg, master, track))
  {
  }

  /**
   * The flag of a layer, read in terms of stub bits: set exactly when the
   * master's token is nonzero and both words agree on the token's bits of the
   * index field.
   */
  lemma CompareFieldBits(cfg: Config, master: Candidate, track: Candidate, region: Region, l: nat)
    requires WellFormed(cfg, master) && WellFormed(cfg, track) && l < Layers
    ensures var m, t := Stubs(master, region)[l][0], Stubs(track, region)[l][0];
            Matches(Compared(cfg, master, track), region)[l][0] == 1 <==>
              Token(cfg, region, m) != 0 &&
              forall i | 0 <= i < TokenWidth(cfg, region) :: FieldBit(cfg, region, m, i) == FieldBit(cfg, region, t, i)
  {
    TokensEqualIff(cfg, region, Stubs(master, region)[l][0], Stubs(track, region)[l][0]);
  }

  /** A zero master token never produces a match, whatever the other token. */
  lemma ZeroTokenNeverMatches(cfg: Config, master: Candidate, track: Candidate, region: Region, l: nat)
    requires WellFormed(cfg, master) && WellFormed(cfg, track) && l < Layers
    requires Token(cfg, region, Stubs(master, region)[l][0]) == 0
    ensures Matches(Compared(cfg, master, track), region)[l][0] == 0
  {
  }

  /**
   * Comparing a candidate with a copy of itself flags exactly the layers whose
   * token is nonzero.
   */
  lemma CompareSelf(cfg: Config, c: Candidate, region: Region, l: nat)
    requires WellFormed(cfg, c) && l < Layers
    ensures Matches(Compared(cfg, c, c), region)[l][0] == 1 <==> Token(cfg, region, Stubs(c, region)[l][0]) != 0
    ensures Matches(Compared(cfg, c, c), region)[l][0] == 0 <==> Token(cfg, region, Stubs(c, region)[l][0]) == 0
  {
  }

  /**
   * The flags depend only on the stubs, so comparing again with the same track
   * changes nothing.
   */
  lemma CompareIdempotent(cfg: Config, master: Candidate, track: Candidate)
    requires WellFormed(cfg, master) && WellFormed(cfg, track)
    ensures WellFormed(cfg, Compared(cfg, master, track))
    ensures Compared(cfg, Compared(cfg, master, track), track) == Compared(cfg, master, track)
  {
    var once := Compared(cfg, master, track);
    CompareWellFormed(cfg, master, track);
    forall region: Region
      ensures ComparedMatches(cfg, region, once, track) == Matches(once, region)
    {
      var again := ComparedMatches(cfg, region, once, track);
      forall l | 0 <= l < Layers
        ensures again[l] == Matches(once, region)[l]
      {
        assert Stubs(once, region) == Stubs(master, region);
      }
    }
    assert ComparedMatches(cfg, Barrel, once, track) == once.barrelMatches;
    assert ComparedMatches(cfg, Disk, once, track) == once.diskMatches;
  }

  // =====================================================================
  // Merging

  /** Sum of the used flags of layers 0..n-1, as MergeTrack accumulates it. */
  function CountUpTo(c: Candidate, n: nat): nat
    requires n <= Layers
    requires |c.barrelMatches| == Layers && |c.diskMatches| == Layers
    requires forall l | 0 <= l < Layers :: |c.barrelMatches[l]| >= 1 && |c.diskMatches[l]| >= 1
  {
    if n == 0 then 0
    else CountUpTo(c, n - 1) + c.barrelMatches[n - 1][0] + c.diskMatches[n - 1][0]
  }

  /** The number of matching layer regions (barrel and disk) of a candidate. */
  function MatchCount(cfg: Config, c: Candidate): nat
    requires WellFormed(cfg, c)
  {
    CountUpTo(c, Layers)
  }

  lemma {:induction false} CountUpToBound(cfg: Config, c: Candidate, n: nat)
    requires WellFormed(cfg, c) && n <= Layers
    ensures CountUpTo(c, n) <= 2 * n
  {
    if n > 0 {
      CountUpToBound(cfg, c, n - 1);
    }
  }

  /** The match count written out as the sum of the eight used flags. */
  lemma MatchCountSum(cfg: Config, c: Candidate)
    requires WellFormed(cfg, c)
    ensures MatchCount(cfg, c) ==
            c.barrelMatches[0][0] + c.diskMatches[0][0] + c.barrelMatches[1][0] + c.diskMatches[1][0] +
            c.barrelMatches[2][0] + c.diskMatches[2][0] + c.barrelMatches[3][0] + c.diskMatches[3][0]
  {
    assert CountUpTo(c, 1) == c.barrelMatches[0][0] + c.diskMatches[0][0];
    assert CountUpTo(c, 2) == CountUpTo(c, 1) + c.barrelMatches[1][0] + c.diskMatches[1][0];
    assert CountUpTo(c, 3) == CountUpTo(c, 2) + c.barrelMatches[2][0] + c.diskMatches[2][0];
  }

  /** The match count lies in 0..8. */
  lemma MatchCountRange(cfg: Config, c: Candidate)
    requires WellFormed(cfg, c)
    ensures MatchCount(cfg, c) <= 2 * Layers
  {
    CountUpToBound(cfg, c, Layers);
  }

  /** The value MergeTrack writes to matchFound. */
  function MatchFound(cfg: Config, master: Candidate, mergeCondition: nat): nat
    requires WellFormed(cfg, master)
  {
    if MatchCount(cfg, master) >= mergeCondition then 1 else 0
  }

  /**
   * The value of a secondary slot after the padding loop has run n of its
   * iterations, each or-ing `pad << bit` into the slot's width.
   */
  function PadUpTo(x: nat, pad: nat, width: nat, n: nat): nat
  {
    if n == 0 then x else Trunc(Or(PadUpTo(x, pad, width, n - 1), Shl(pad, n - 1)), width)
  }

  /** A secondary slot after the whole padding loop. */
  function Padded(cfg: Config, region: Region, x: nat): nat
  {
    PadUpTo(x, cfg.stubPadding, StubSize(cfg, region), StubSize(cfg, region))
  }

  /** Some shift pad << k with k < n has bit i set. */
  predicate SpreadBit(pad: nat, i: nat, n: nat)
  {
    n > 0 && (SpreadBit(pad, i, n - 1) || (n - 1 <= i && Bit(pad, i - (n - 1))))
  }

  /** The padding loop keeps the slot's bits and adds the bits of the shifted padding, within the slot's width. */
  lemma {:induction false} PadUpToBits(x: nat, pad: nat, width: nat, n: nat, i: nat)
    requires x < Pow2(width) && 0 < n
    ensures Bit(PadUpTo(x, pad, width, n), i) == (i < width && (Bit(x, i) || SpreadBit(pad, i, n)))
  {
    var prev := PadUpTo(x, pad, width, n - 1);
    BitTrunc(Or(prev, Shl(pad, n - 1)), width, i);
    BitOr(prev, Shl(pad, n - 1), i);
    BitShl(pad, n - 1, i);
    if n > 1 {
      PadUpToBits(x, pad, width, n - 1, i);
    } else if i >= width {
      BitsAbove(x, width, i);
    }
  }

  lemma PadUpToBound(x: nat, pad: nat, width: nat, n: nat)
    requires x < Pow2(width)
    ensures PadUpTo(x, pad, width, n) < Pow2(width)
  {
  }

  /** With the lowest padding bit set, every bit position of the slot gets set. */
  lemma {:induction false} SpreadBitOdd(pad: nat, i: nat, n: nat)
    requires Bit(pad, 0) && i < n
    ensures SpreadBit(pad, i, n)
  {
    if i < n - 1 {
      SpreadBitOdd(pad, i, n - 1);
    }
  }

  /** A zero padding word sets no bit. */
  lemma {:induction false} SpreadBitZero(i: nat, n: nat)
    ensures !SpreadBit(0, i, n)
  {
    if n > 0 {
      SpreadBitZero(i, n - 1);
      if n - 1 <= i {
        BitZero(i - (n - 1));
      }
    }
  }

  /** Bits of a padded slot: those of the slot and those of the spread padding, within the width. */
  lemma PaddedBits(cfg: Config, region: Region, x: nat, i: nat)
    requires ValidConfig(cfg) && x < Pow2(StubSize(cfg, region))
    ensures Bit(Padded(cfg, region, x), i) ==
            (i < StubSize(cfg, region) && (Bit(x, i) || SpreadBit(cfg.stubPadding, i, StubSize(cfg, region))))
  {
    PadUpToBits(x, cfg.stubPadding, StubSize(cfg, region), StubSize(cfg, region), i);
  }

  /** Padding keeps every bit the slot had and stays within the slot's width. */
  lemma PaddedKeepsBits(cfg: Config, region: Region, x: nat, i: nat)
    requires ValidConfig(cfg) && x < Pow2(StubSize(cfg, region))
    ensures Padded(cfg, region, x) < Pow2(StubSize(cfg, region))
    ensures Bit(x, i) ==> Bit(Padded(cfg, region, x), i)
  {
    PadUpToBound(x, cfg.stubPadding, StubSize(cfg, region), StubSize(cfg, region));
    PaddedBits(cfg, region, x, i);
    if Bit(x, i) && i >= StubSize(cfg, region) {
      BitsAbove(x, StubSize(cfg, region), i);
    }
  }

  /**
   * With an odd padding word (for instance stubPadding == 1) the padded slot
   * is the all-ones sentinel of the slot's width, whatever the slot held.
   */
  lemma PaddedSentinel(cfg: Config, region: Region, x: nat)
    requires ValidConfig(cfg) && x < Pow2(StubSize(cfg, region))
    requires cfg.stubPadding % 2 == 1
    ensures Padded(cfg, region, x) == Pow2(StubSize(cfg, region)) - 1
  {
    var w := StubSize(cfg, region);
    forall i | 0 <= i < w
      ensures Bit(Padded(cfg, region, x), i) == Bit(Pow2(w) - 1, i)
    {
      PaddedBits(cfg, region, x, i);
      SpreadBitOdd(cfg.stubPadding, i, w);
      BitAllOnes(w, i);
    }
    PadUpToBound(x, cfg.stubPadding, w, w);
    BitsEqual(Padded(cfg, region, x), Pow2(w) - 1, w);
  }

  /** Bit 0 of the spread padding word is bit 0 of the padding word itself. */
  lemma {:induction false} SpreadBitLow(pad: nat, n: nat)
    requires n >= 1
    ensures SpreadBit(pad, 0, n) == Bit(pad, 0)
  {
    if n > 1 {
      SpreadBitLow(pad, n - 1);
    }
  }

  /**
   * An empty slot is padded to the all-ones sentinel exactly when the padding
   * word is odd: with an even one, bit 0 of the padded slot stays clear.
   */
  lemma PaddedEmptySentinelIff(cfg: Config, region: Region)
    requires ValidConfig(cfg)
    ensures Padded(cfg, region, 0) == Pow2(StubSize(cfg, region)) - 1 <==> cfg.stubPadding % 2 == 1
  {
    var w := StubSize(cfg, region);
    if cfg.stubPadding % 2 == 1 {
      PaddedSentinel(cfg, region, 0);
    } else {
      PaddedBits(cfg, region, 0, 0);
      SpreadBitLow(cfg.stubPadding, w);
      BitAllOnes(w, 0);
    }
  }

  /** With a zero padding word the padding loop leaves the slot as it was. */
  lemma PaddedZero(cfg: Config, region: Region, x: nat)
    requires ValidConfig(cfg) && x < Pow2(StubSize(cfg, region))
    requires cfg.stubPadding == 0
    ensures Padded(cfg, region, x) == x
  {
    var w := StubSize(cfg, region);
    forall i | 0 <= i < w
      ensures Bit(Padded(cfg, region, x), i) == Bit(x, i)
    {
      PaddedBits(cfg, region, x, i);
      SpreadBitZero(i, w);
    }
    PadUpToBound(x, 0, w, w);
    BitsEqual(Padded(cfg, region, x), x, w);
  }

  /** Padding an already padded slot changes nothing. */
  lemma PaddedIdempotent(cfg: Config, region: Region, x: nat)
    requires ValidConfig(cfg) && x < Pow2(StubSize(cfg, region))
    ensures Padded(cfg, region, Padded(cfg, region, x)) == Padded(cfg, region, x)
  {
    var w := StubSize(cfg, region);
    var once := Padded(cfg, region, x);
    PadUpToBound(x, cfg.stubPadding, w, w);
    PadUpToBound(once, cfg.stubPadding, w, w);
    forall i | 0 <= i < w
      ensures Bit(Padded(cfg, region, once), i) == Bit(once, i)
    {
      PaddedBits(cfg, region, x, i);
      PaddedBits(cfg, region, once, i);
    }
    BitsEqual(Padded(cfg, region, once), once, w);
  }

  /**
   * The primary slot after a merge, from the master's and the track's flags
   * and slots of that layer.
   */
  function PrimarySlot(masterFlag: nat, trackFlag: nat, master: nat, other: nat): nat
  {
    if masterFlag == 0 && trackFlag == 1 then other else master
  }

  /** A secondary slot after a merge, from the master's and the track's values. */
  function SecondarySlot(cfg: Config, region: Region, master: nat, other: nat): nat
  {
    if master == 0 && other != 0 then other else Padded(cfg, region, master)
  }

  /** Slot k of a layer after a merge. */
  function MergedSlot(cfg: Config, region: Region, k: nat, masterFlag: nat, trackFlag: nat, master: nat, other: nat): nat
  {
    if k == 0 then PrimarySlot(masterFlag, trackFlag, master, other)
    else SecondarySlot(cfg, region, master, other)
  }

  /** The region's stub grid of the master after a merge that met the threshold. */
  function MergedStubs(cfg: Config, region: Region, master: Candidate, track: Candidate): seq<seq<nat>>
    requires WellFormed(cfg, master) && WellFormed(cfg, track)
  {
    WellFormedRegion(cfg, master, region);
    WellFormedRegion(cfg, track, region);
    var ms, ts, mf, tf := Stubs(master, region), Stubs(track, region), Matches(master, region), Matches(track, region);
    seq(Layers, l requires 0 <= l < Layers =>
      seq(cfg.layerStubIndexSize, k requires 0 <= k < cfg.layerStubIndexSize =>
        MergedSlot(cfg, region, k, mf[l][0], tf[l][0], ms[l][k], ts[l][k])))
  }

  /** The master after `MergeTrack(track, matchFound, mergeCondition)`. */
  function Merged(cfg: Config, master: Candidate, track: Candidate, mergeCondition: nat): Candidate
    requires WellFormed(cfg, master) && WellFormed(cfg, track)
  {
    if MatchCount(cfg, master) >= mergeCondition
    then master.(barrelStubs := MergedStubs(cfg, Barrel, master, track),
                 diskStubs := MergedStubs(cfg, Disk, master, track))
    else master
  }

  /** matchFound is 1 exactly when the match count reaches the merge condition, and 0 otherwise. */
  lemma MatchFoundRule(cfg: Config, master: Candidate, mergeCondition: nat)
    requires WellFormed(cfg, master)
    ensures MatchFound(cfg, master, mergeCondition) <= 1
    ensures MatchFound(cfg, master, mergeCondition) == 1 <==> MatchCount(cfg, master) >= mergeCondition
  {
  }

  /** A merge condition of 0 is always met. */
  lemma MergeConditionZero(cfg: Config, master: Candidate)
    requires WellFormed(cfg, master)
    ensures MatchFound(cfg, master, 0) == 1
  {
  }

  /** A merge condition above 8 is never met, and the master is returned unchanged. */
  lemma MergeConditionAboveEight(cfg: Config, master: Candidate, track: Candidate, mergeCondition: nat)
    requires WellFormed(cfg, master) && WellFormed(cfg, track)
    requires mergeCondition > 2 * Layers
    ensures MatchFound(cfg, master, mergeCondition) == 0
    ensures Merged(cfg, master, track, mergeCondition) == master
  {
    MatchCountRange(cfg, master);
  }

  /** Below the threshold nothing of the master changes. */
  lemma MergeBelowThreshold(cfg: Config, master: Candidate, track: Candidate, mergeCondition: nat)
    requires WellFormed(cfg, master) && WellFormed(cfg, track)
    requires MatchCount(cfg, master) < mergeCondition
    ensures MatchFound(cfg, master, mergeCondition) == 0
    ensures Merged(cfg, master, track, mergeCondition) == master
  {
  }

  /** A merge never changes the master's flags. */
  lemma MergeKeepsMatches(cfg: Config, master: Candidate, track: Candidate, mergeCondition: nat)
    requires WellFormed(cfg, master) && WellFormed(cfg, track)
    ensures Merged(cfg, master, track, mergeCondition).barrelMatches == master.barrelMatches
    ensures Merged(cfg, master, track, mergeCondition).diskMatches == master.diskMatches
  {
  }

  /**
   * On a merge, the primary slot of a layer is adopted from the track exactly
   * when the master has no match there and the track's own flag is set;
   * otherwise it keeps its value.
   */
  lemma MergePrimary(cfg: Config, master: Candidate, track: Candidate, mergeCondition: nat, region: Region, l: nat)
    requires WellFormed(cfg, master) && WellFormed(cfg, track) && l < Layers
    requires MatchCount(cfg, master) >= mergeCondition
    ensures Stubs(Merged(cfg, master, track, mergeCondition), region)[l][0] ==
            if Matches(master, region)[l][0] == 0 && Matches(track, region)[l][0] == 1
            then Stubs(track, region)[l][0]
            else Stubs(master, region)[l][0]
  {
  }

  /**
   * The adoption tests the track's own flag, not whether the track's slot is
   * filled: with the track's flag clear, a filled track slot is not adopted
   * into an unmatched master layer.
   */
  lemma PrimaryNeedsOwnFlag(cfg: Config, master: Candidate, track: Candidate, mergeCondition: nat, region: Region, l: nat)
    requires WellFormed(cfg, master) && WellFormed(cfg, track) && l < Layers
    requires MatchCount(cfg, master) >= mergeCondition
    requires Matches(master, region)[l][0] == 0 && Matches(track, region)[l][0] == 0
    ensures Stubs(Merged(cfg, master, track, mergeCondition), region)[l][0] == Stubs(master, region)[l][0]
  {
  }

  /**
   * On a merge, a secondary slot takes the track's value when the master's is
   * empty and the track's is not; otherwise it is padded, which keeps all the
   * bits it had.
   */
  lemma MergeSecondary(cfg: Config, master: Candidate, track: Candidate, mergeCondition: nat, region: Region, l: nat, k: nat, i: nat)
    requires WellFormed(cfg, master) && WellFormed(cfg, track) && l < Layers
    requires 1 <= k < cfg.layerStubIndexSize
    requires MatchCount(cfg, master) >= mergeCondition
    ensures var m, t := Stubs(master, region)[l][k], Stubs(track, region)[l][k];
            var after := Stubs(Merged(cfg, master, track, mergeCondition), region)[l][k];
            (m == 0 && t != 0 ==> after == t) &&
            (m != 0 || t == 0 ==> after == Padded(cfg, region, m)) &&
            (Bit(m, i) ==> Bit(after, i))
  {
    WellFormedRegion(cfg, master, region);
    PaddedKeepsBits(cfg, region, Stubs(master, region)[l][k], i);
    BitZero(i);
  }

  /**
   * With an odd padding word, a merged secondary slot that is not filled from
   * the track becomes the all-ones sentinel: when the master's slot is
   * occupied, and also when both slots are empty.
   */
  lemma MergeSecondarySentinel(cfg: Config, master: Candidate, track: Candidate, mergeCondition: nat, region: Region, l: nat, k: nat)
    requires WellFormed(cfg, master) && WellFormed(cfg, track) && l < Layers
    requires 1 <= k < cfg.layerStubIndexSize
    requires MatchCount(cfg, master) >= mergeCondition
    requires cfg.stubPadding % 2 == 1
    requires Stubs(master, region)[l][k] != 0 || Stubs(track, region)[l][k] == 0
    ensures Stubs(Merged(cfg, master, track, mergeCondition), region)[l][k] == Pow2(StubSize(cfg, region)) - 1
  {
    WellFormedRegion(cfg, master, region);
    PaddedSentinel(cfg, region, Stubs(master, region)[l][k]);
  }

  /** Merging keeps a candidate well formed and leaves its flags as they were. */
  lemma MergeWellFormed(cfg: Config, master: Candidate, track: Candidate, mergeCondition: nat)
    requires WellFormed(cfg, master) && WellFormed(cfg, track)
    ensures WellFormed(cfg, Merged(cfg, master, track, mergeCondition))
    ensures Merged(cfg, master, track, mergeCondition).barrelMatches == master.barrelMatches
    ensures Merged(cfg, master, track, mergeCondition).diskMatches == master.diskMatches
  {
    if MatchCount(cfg, master) >= mergeCondition {
      forall region: Region
        ensures StubGrid(MergedStubs(cfg, region, master, track), cfg.layerStubIndexSize, StubSize(cfg, region))
      {
        MergedStubsFit(cfg, region, master, track);
      }
      assert StubGrid(MergedStubs(cfg, Barrel, master, track), cfg.layerStubIndexSize, StubSize(cfg, Barrel));
      assert StubGrid(MergedStubs(cfg, Disk, master, track), cfg.layerStubIndexSize, StubSize(cfg, Disk));
    }
  }

  lemma MergedStubsFit(cfg: Config, region: Region, master: Candidate, track: Candidate)
    requires WellFormed(cfg, master) && WellFormed(cfg, track)
    ensures StubGrid(MergedStubs(cfg, region, master, track), cfg.layerStubIndexSize, StubSize(cfg, region))
  {
    WellFormedRegion(cfg, master, region);
    WellFormedRegion(cfg, track, region);
    var s := MergedStubs(cfg, region, master, track);
    forall l, k | 0 <= l < Layers && 0 <= k < cfg.layerStubIndexSize
      ensures s[l][k] < Pow2(StubSize(cfg, region))
    {
      var m := Stubs(master, region)[l][k];
      PadUpToBound(m, cfg.stubPadding, StubSize(cfg, region), StubSize(cfg, region));
    }
  }

  // =====================================================================
  // A worked example

  /**
   * Only layer 0's barrel tokens are nonzero and they are equal: after the
   * comparison exactly that flag is set, the count is 1, a merge condition of
   * 1 is met and the master's layer-0 barrel primary slot is kept.
   */
  lemma ScenarioSingleBarrelMatch(cfg: Config, master: Candidate, track: Candidate)
    requires WellFormed(cfg, master) && WellFormed(cfg, track)
    requires Token(cfg, Barrel, master.barrelStubs[0][0]) == Token(cfg, Barrel, track.barrelStubs[0][0]) != 0
    requires forall l | 1 <= l < Layers :: Token(cfg, Barrel, master.barrelStubs[l][0]) == 0
    requires forall l | 0 <= l < Layers :: Token(cfg, Disk, master.diskStubs[l][0]) == 0
    ensures var c := Compared(cfg, master, track);
            WellFormed(cfg, c) &&
            c.barrelMatches[0][0] == 1 &&
            (forall l | 1 <= l < Layers :: c.barrelMatches[l][0] == 0) &&
            (forall l | 0 <= l < Layers :: c.diskMatches[l][0] == 0) &&
            MatchCount(cfg, c) == 1 &&
            MatchFound(cfg, c, 1) == 1 &&
            Merged(cfg, c, track, 1).barrelStubs[0][0] == master.barrelStubs[0][0]
  {
    var c := Compared(cfg, master, track);
    CompareWellFormed(cfg, master, track);
    forall l | 0 <= l < Layers
      ensures c.barrelMatches[l][0] == (if l == 0 then 1 else 0) && c.diskMatches[l][0] == 0
    {
      CompareRule(cfg, master, track, Barrel, l);
      CompareRule(cfg, master, track, Disk, l);
    }
    MatchCountSum(cfg, c);
    MergePrimary(cfg, c, track, 1, Barrel, 0);
  }
}
