/** The leaf scan (`extent_get_block_from_ees`): a linear pass over an array
    of extents that stops at the first entry whose end, computed in 32-bit
    arithmetic, lies beyond the wanted logical block. */
module LeafScan {
  import opened Ext4Types

  /** The match test of the scan: the extent's end (wrapping at 2^32) lies
      beyond `lblock`. The start of the extent is not consulted. */
  predicate EndsAfter(e: Extent, lblock: u32) {
    Add32(e.block, e.len) > lblock
  }

  /** What the scan returns once it has settled on extent `e`: the physical
      block at the same offset into the extent, and the remaining run
      written through the out-pointer, both in 32-bit arithmetic. */
  function Hit(e: Extent, lblock: u32): Outcome {
    Returned(Add32(e.startLo, Sub32(lblock, e.block)), Some(Sub32(Add32(e.block, e.len), lblock)))
  }

  /** Nothing matched: 0 is returned and the out-pointer is left alone. */
  const Miss: Outcome := Returned(0, None)

  /** The scan from entry `i` on: the high half of each visited entry is
      checked before its end is tested. */
  function ScanFrom(ee: seq<Extent>, lblock: u32, i: nat): Outcome
    requires i <= |ee|
    decreases |ee| - i
  {
    if i == |ee| then Miss
    else if ee[i].startHi != 0 then Corrupt(ExtentHighSet)
    else if EndsAfter(ee[i], lblock) then Hit(ee[i], lblock)
    else ScanFrom(ee, lblock, i + 1)
  }

  /** The whole scan, over exactly the entries it is handed. */
  function Scan(ee: seq<Extent>, lblock: u32): Outcome {
    ScanFrom(ee, lblock, 0)
  }

  /** extent_get_block_from_ees: scans the first `nEe` entries of `ee`. */
  method GetBlockFromEes(ee: seq<Extent>, nEe: nat, lblock: u32) returns (r: Outcome)
    requires nEe <= |ee|
    ensures r == Scan(ee[..nEe], lblock)
  {
    var blockExtIndex: nat := 0;
    var blockExtOffset: u32 := 0;
    var extent: Option<u32> := None;
    var i: nat := 0;
    while i < nEe
      invariant i <= nEe
      invariant extent == None
      invariant ScanFrom(ee[..nEe], lblock, i) == Scan(ee[..nEe], lblock)
    {
      if ee[i].startHi != 0 {
        return Corrupt(ExtentHighSet);
      }
      if Add32(ee[i].block, ee[i].len) > lblock {
        blockExtIndex := i;
        blockExtOffset := Sub32(lblock, ee[i].block);
        extent := Some(Sub32(Add32(ee[i].block, ee[i].len), lblock));
        break;
      }
      i := i + 1;
    }
    if i == nEe {
      r := Returned(0, extent);
    } else {
      r := Returned(Add32(ee[blockExtIndex].startLo, blockExtOffset), extent);
    }
  }

  // ----- What the scan returns -----

  lemma {:induction false} ScanFromFirstMatch(ee: seq<Extent>, lblock: u32, i: nat, k: nat)
    requires k <= i < |ee|
    requires forall j :: k <= j < i ==> ee[j].startHi == 0 && !EndsAfter(ee[j], lblock)
    requires ee[i].startHi == 0 && EndsAfter(ee[i], lblock)
    ensures ScanFrom(ee, lblock, k) == Hit(ee[i], lblock)
    decreases i - k
  {
    if k < i {
      ScanFromFirstMatch(ee, lblock, i, k + 1);
    }
  }

  /** The first entry whose end lies beyond `lblock` decides the result,
      provided it and every entry before it have a zero high half. */
  lemma ScanFirstMatch(ee: seq<Extent>, lblock: u32, i: nat)
    requires i < |ee|
    requires forall j :: 0 <= j < i ==> ee[j].startHi == 0 && !EndsAfter(ee[j], lblock)
    requires ee[i].startHi == 0 && EndsAfter(ee[i], lblock)
    ensures Scan(ee, lblock) == Returned(Add32(ee[i].startLo, Sub32(lblock, ee[i].block)),
                                         Some(Sub32(Add32(ee[i].block, ee[i].len), lblock)))
  {
    ScanFromFirstMatch(ee, lblock, i, 0);
  }

  lemma {:induction false} ScanFromNoMatch(ee: seq<Extent>, lblock: u32, k: nat)
    requires k <= |ee|
    requires forall j :: k <= j < |ee| ==> ee[j].startHi == 0 && !EndsAfter(ee[j], lblock)
    ensures ScanFrom(ee, lblock, k) == Miss
    decreases |ee| - k
  {
    if k < |ee| {
      ScanFromNoMatch(ee, lblock, k + 1);
    }
  }

  /** No entry ends beyond `lblock`: 0 comes back and nothing is written
      through the out-pointer. */
  lemma ScanNoMatch(ee: seq<Extent>, lblock: u32)
    requires forall j :: 0 <= j < |ee| ==> ee[j].startHi == 0 && !EndsAfter(ee[j], lblock)
    ensures Scan(ee, lblock) == Returned(0, None)
  {
    ScanFromNoMatch(ee, lblock, 0);
  }

  lemma {:induction false} ScanFromCorruptIff(ee: seq<Extent>, lblock: u32, k: nat)
    requires k <= |ee|
    ensures ScanFrom(ee, lblock, k).Corrupt? <==>
      exists j :: k <= j < |ee| && ee[j].startHi != 0 && forall m :: k <= m < j ==> !EndsAfter(ee[m], lblock)
    ensures ScanFrom(ee, lblock, k).Corrupt? ==> ScanFrom(ee, lblock, k).fault == ExtentHighSet
    decreases |ee| - k
  {
    if k < |ee| {
      if ee[k].startHi != 0 {
      } else if EndsAfter(ee[k], lblock) {
        forall j | k <= j < |ee| && ee[j].startHi != 0
          ensures !forall m :: k <= m < j ==> !EndsAfter(ee[m], lblock)
        {
          assert k < j;
        }
      } else {
        ScanFromCorruptIff(ee, lblock, k + 1);
        if exists j :: k <= j < |ee| && ee[j].startHi != 0 && forall m :: k <= m < j ==> !EndsAfter(ee[m], lblock) {
          var j :| k <= j < |ee| && ee[j].startHi != 0 && forall m :: k <= m < j ==> !EndsAfter(ee[m], lblock);
          assert k + 1 <= j;
        }
      }
    }
  }

  /** The scan stops with ExtentHighSet exactly when some entry with a
      nonzero high half is reached, that is, no entry before it ends beyond
      `lblock`; and that is the only fault it can report. */
  lemma ScanCorruptIff(ee: seq<Extent>, lblock: u32)
    ensures Scan(ee, lblock).Corrupt? <==>
      exists j :: 0 <= j < |ee| && ee[j].startHi != 0 && forall m :: 0 <= m < j ==> !EndsAfter(ee[m], lblock)
    ensures Scan(ee, lblock).Corrupt? ==> Scan(ee, lblock).fault == ExtentHighSet
  {
    ScanFromCorruptIff(ee, lblock, 0);
  }

  lemma {:induction false} ScanFromShape(ee: seq<Extent>, lblock: u32, k: nat)
    requires k <= |ee|
    ensures ScanFrom(ee, lblock, k).Returned? && ScanFrom(ee, lblock, k).extent.None? ==>
      ScanFrom(ee, lblock, k) == Miss
    decreases |ee| - k
  {
    if k < |ee| && ee[k].startHi == 0 && !EndsAfter(ee[k], lblock) {
      ScanFromShape(ee, lblock, k + 1);
    }
  }

  /** The out-pointer is written on every match: a result that leaves it
      alone is the "no mapping" 0. */
  lemma ScanShape(ee: seq<Extent>, lblock: u32)
    ensures Scan(ee, lblock).Returned? && Scan(ee, lblock).extent.None? ==> Scan(ee, lblock) == Returned(0, None)
  {
    ScanFromShape(ee, lblock, 0);
  }

  lemma {:induction false} ScanFromShift(pre: seq<Extent>, tail: seq<Extent>, lblock: u32, k: nat)
    requires k <= |tail|
    ensures ScanFrom(pre + tail, lblock, |pre| + k) == ScanFrom(tail, lblock, k)
    decreases |tail| - k
  {
    if k < |tail| {
      assert (pre + tail)[|pre| + k] == tail[k];
      ScanFromShift(pre, tail, lblock, k + 1);
    }
  }

  lemma {:induction false} ScanFromAppend(pre: seq<Extent>, tail: seq<Extent>, lblock: u32, k: nat)
    requires k <= |pre|
    ensures ScanFrom(pre + tail, lblock, k) ==
      if ScanFrom(pre, lblock, k) == Miss then ScanFrom(tail, lblock, 0) else ScanFrom(pre, lblock, k)
    decreases |pre| - k
  {
    if k == |pre| {
      ScanFromShift(pre, tail, lblock, 0);
    } else {
      assert (pre + tail)[k] == pre[k];
      ScanFromAppend(pre, tail, lblock, k + 1);
    }
  }

  /** Entries after the one the scan stops at are never looked at, not even
      their high halves; when a prefix yields nothing, the scan carries on
      as if the prefix were absent. */
  lemma ScanAppend(pre: seq<Extent>, tail: seq<Extent>, lblock: u32)
    ensures Scan(pre + tail, lblock) == if Scan(pre, lblock) == Miss then Scan(tail, lblock) else Scan(pre, lblock)
  {
    ScanFromAppend(pre, tail, lblock, 0);
  }

  // ----- The intended reading: the extent that covers the block -----

  /** `e` covers `lblock`: `e.block <= lblock < e.block + e.len`, without
      wrap-around. */
  predicate Covers(e: Extent, lblock: u32) {
    e.block <= lblock < e.block as int + e.len as int
  }

  /** Extents in logical order: no end past 2^32 - 1, and sorted without
      overlap. */
  predicate Sorted(ee: seq<Extent>) {
    && (forall j :: 0 <= j < |ee| ==> ee[j].block as int + ee[j].len as int < Modulus32)
    && (forall j, k :: 0 <= j < k < |ee| ==> ee[j].block as int + ee[j].len as int <= ee[k].block)
  }

  /** An extent array as a well-formed leaf stores it: in logical order, and
      every high half zero. */
  predicate WellFormed(ee: seq<Extent>) {
    Sorted(ee) && forall j :: 0 <= j < |ee| ==> ee[j].startHi == 0
  }

  /** A settled-on extent that really covers `lblock` leaves a remaining
      run between 1 and its length, reaching exactly to the extent's end;
      when its physical run does not pass 2^32, the block returned lies
      inside that run, and block and remaining run end together at the
      run's end. */
  lemma HitInRange(e: Extent, lblock: u32)
    requires Covers(e, lblock)
    ensures 1 <= Hit(e, lblock).extent.value <= e.len
    ensures lblock + Hit(e, lblock).extent.value == e.block + e.len
    ensures e.startLo as int + e.len as int <= Modulus32 ==>
      && Hit(e, lblock).pblock == e.startLo + (lblock - e.block)
      && e.startLo <= Hit(e, lblock).pblock < e.startLo + e.len
      && Hit(e, lblock).pblock + Hit(e, lblock).extent.value == e.startLo + e.len
  {
  }

  /** In a sorted array whose high halves are zero up to the extent that
      covers `lblock`, the scan settles on that extent and leaves a
      remaining run between 1 and its length; when the extent's physical
      run does not pass 2^32, the answer lies inside that run. Entries after
      it need not be well formed. */
  lemma ScanFindsCovering(ee: seq<Extent>, lblock: u32, i: nat)
    requires Sorted(ee) && i < |ee| && Covers(ee[i], lblock)
    requires forall j :: 0 <= j <= i ==> ee[j].startHi == 0
    ensures Scan(ee, lblock) == Hit(ee[i], lblock)
    ensures 1 <= Scan(ee, lblock).extent.value <= ee[i].len
    ensures ee[i].startLo as int + ee[i].len as int <= Modulus32 ==>
      ee[i].startLo <= Scan(ee, lblock).pblock < ee[i].startLo + ee[i].len
  {
    forall j | 0 <= j < i
      ensures ee[j].startHi == 0 && !EndsAfter(ee[j], lblock)
    {
      assert ee[j].block as int + ee[j].len as int <= ee[i].block;
    }
    ScanFirstMatch(ee, lblock, i);
    HitInRange(ee[i], lblock);
  }

  /** In a well-formed array a block past the end of every extent maps to
      nothing. */
  lemma ScanPastLastExtent(ee: seq<Extent>, lblock: u32)
    requires WellFormed(ee)
    requires forall j :: 0 <= j < |ee| ==> ee[j].block as int + ee[j].len as int <= lblock
    ensures Scan(ee, lblock) == Returned(0, None)
  {
    ScanNoMatch(ee, lblock);
  }

  /** In a sorted array whose high halves are zero up to extent `i`, a
      block in the hole just before extent `i` is still "mapped": the scan
      settles on extent `i` and returns a block outside its physical run,
      though no extent covers `lblock`. */
  lemma ScanMapsHole(ee: seq<Extent>, lblock: u32, i: nat)
    requires Sorted(ee) && i < |ee| && lblock < ee[i].block
    requires forall j :: 0 <= j <= i ==> ee[j].startHi == 0
    requires forall j :: 0 <= j < i ==> ee[j].block as int + ee[j].len as int <= lblock
    ensures forall j :: 0 <= j < |ee| ==> !Covers(ee[j], lblock)
    ensures Scan(ee, lblock) == Hit(ee[i], lblock)
    ensures Scan(ee, lblock).pblock == (ee[i].startLo - (ee[i].block - lblock)) % Modulus32
    ensures ee[i].startLo as int + ee[i].len as int <= Modulus32 ==>
      !(ee[i].startLo <= Scan(ee, lblock).pblock < ee[i].startLo + ee[i].len)
  {
    forall j | 0 <= j < |ee|
      ensures !Covers(ee[j], lblock)
    {
      if i < j {
        assert ee[i].block as int + ee[i].len as int <= ee[j].block;
      }
    }
    ScanFirstMatch(ee, lblock, i);
  }

  /** The corrected scan: the same pass, but an entry is taken only when it
      covers `lblock`. */
  function CoveringScanFrom(ee: seq<Extent>, lblock: u32, i: nat): Outcome
    requires i <= |ee|
    decreases |ee| - i
  {
    if i == |ee| then Miss
    else if ee[i].startHi != 0 then Corrupt(ExtentHighSet)
    else if Covers(ee[i], lblock) then Hit(ee[i], lblock)
    else CoveringScanFrom(ee, lblock, i + 1)
  }

  function CoveringScan(ee: seq<Extent>, lblock: u32): Outcome {
    CoveringScanFrom(ee, lblock, 0)
  }

  lemma {:induction false} CoveringScanFromFinds(ee: seq<Extent>, lblock: u32, i: nat, k: nat)
    requires k <= i < |ee|
    requires forall j :: k <= j < i ==> ee[j].startHi == 0 && !Covers(ee[j], lblock)
    requires ee[i].startHi == 0 && Covers(ee[i], lblock)
    ensures CoveringScanFrom(ee, lblock, k) == Hit(ee[i], lblock)
    decreases i - k
  {
    if k < i {
      CoveringScanFromFinds(ee, lblock, i, k + 1);
    }
  }

  lemma {:induction false} CoveringScanFromMisses(ee: seq<Extent>, lblock: u32, k: nat)
    requires k <= |ee|
    requires forall j :: k <= j < |ee| ==> ee[j].startHi == 0 && !Covers(ee[j], lblock)
    ensures CoveringScanFrom(ee, lblock, k) == Miss
    decreases |ee| - k
  {
    if k < |ee| {
      CoveringScanFromMisses(ee, lblock, k + 1);
    }
  }

  /** With every high half zero, the corrected scan maps `lblock` exactly
      when some extent covers it, and then through the first such extent;
      otherwise it returns 0 and writes nothing. */
  lemma CoveringScanCorrect(ee: seq<Extent>, lblock: u32)
    requires forall j :: 0 <= j < |ee| ==> ee[j].startHi == 0
    ensures (exists i :: 0 <= i < |ee| && Covers(ee[i], lblock)) <==> CoveringScan(ee, lblock) != Miss
    ensures forall i :: 0 <= i < |ee| && Covers(ee[i], lblock) && (forall j :: 0 <= j < i ==> !Covers(ee[j], lblock)) ==>
      CoveringScan(ee, lblock) == Hit(ee[i], lblock)
  {
    forall i | 0 <= i < |ee| && Covers(ee[i], lblock) && (forall j :: 0 <= j < i ==> !Covers(ee[j], lblock))
      ensures CoveringScan(ee, lblock) == Hit(ee[i], lblock)
    {
      CoveringScanFromFinds(ee, lblock, i, 0);
    }
    if exists i :: 0 <= i < |ee| && Covers(ee[i], lblock) {
      var i := FirstCovering(ee, lblock);
      CoveringScanFromFinds(ee, lblock, i, 0);
    } else {
      CoveringScanFromMisses(ee, lblock, 0);
    }
  }

  function FirstCovering(ee: seq<Extent>, lblock: u32): (i: nat)
    requires exists i :: 0 <= i < |ee| && Covers(ee[i], lblock)
    ensures i < |ee| && Covers(ee[i], lblock)
    ensures forall j :: 0 <= j < i ==> !Covers(ee[j], lblock)
    decreases |ee|
  {
    if Covers(ee[0], lblock) then 0
    else
      assert exists i :: 0 <= i < |ee[1..]| && Covers(ee[1..][i], lblock) by {
        var i :| 0 <= i < |ee| && Covers(ee[i], lblock);
        assert ee[1..][i - 1] == ee[i];
      }
      FirstCovering(ee[1..], lblock) + 1
  }

  /** On a well-formed array the scan as written agrees with the corrected
      scan on every covered block and on every block past the last extent;
      only blocks in holes before an extent tell them apart. */
  lemma ScanAgreesOutsideHoles(ee: seq<Extent>, lblock: u32)
    requires WellFormed(ee)
    requires (exists i :: 0 <= i < |ee| && Covers(ee[i], lblock)) ||
             (forall j :: 0 <= j < |ee| ==> ee[j].block as int + ee[j].len as int <= lblock)
    ensures Scan(ee, lblock) == CoveringScan(ee, lblock)
  {
    if exists i :: 0 <= i < |ee| && Covers(ee[i], lblock) {
      var i := FirstCovering(ee, lblock);
      ScanFindsCovering(ee, lblock, i);
      CoveringScanCorrect(ee, lblock);
    } else {
      ScanPastLastExtent(ee, lblock);
      CoveringScanFromMisses(ee, lblock, 0);
    }
  }

  // ----- Concrete cases -----

  /** One extent mapping logical 0..9 to physical 100..109: block 5 maps to
      105 with 5 blocks left in the run, block 10 maps to nothing. */
  lemma SingleExtentScenario()
    ensures Scan([Extent(0, 10, 0, 100)], 5) == Returned(105, Some(5))
    ensures Scan([Extent(0, 10, 0, 100)], 10) == Returned(0, None)
  {
  }

  /** A file whose first extent starts at logical block 10: block 5 lies in
      a hole, yet the scan as written maps it to physical block 95, which
      belongs to no extent; the corrected scan reports no mapping. */
  lemma HoleBeforeExtentIsMapped()
    ensures forall j :: 0 <= j < 1 ==> !Covers([Extent(10, 5, 0, 100)][j], 5)
    ensures Scan([Extent(10, 5, 0, 100)], 5) == Returned(95, Some(10))
    ensures CoveringScan([Extent(10, 5, 0, 100)], 5) == Returned(0, None)
  {
  }
}
