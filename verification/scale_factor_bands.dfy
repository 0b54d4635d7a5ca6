/** Where every field of a granule's scale factors ends up, band by band. The decoder reads
    and stores field after field; the functions here say directly which field (or which band
    of the first granule, or zero) each band holds, and the lemmas show the two agree. */
module ScaleFactorBands {
  import opened Types
  import opened Bits
  import opened MainDataBuffer
  import opened ScaleFactor

  // ---------------------------------------------------------------------------------------
  // Storing runs of fields
  // ---------------------------------------------------------------------------------------

  /** Storing `a + b` is storing `a`, then `b`. */
  lemma {:induction false} StoreAllAppend(sf: GranuleScaleFactor, a: seq<FieldRead>, b: seq<FieldRead>,
                                          vs: seq<nat>)
    requires sf.Shape() && |vs| == |a| + |b|
    ensures StoreAll(sf, a + b, vs) == StoreAll(StoreAll(sf, a, vs[..|a|]), b, vs[|a|..])
    decreases |a|
  {
    if |a| == 0 {
      assert a + b == b;
      assert vs[|a|..] == vs;
    } else {
      assert (a + b)[0] == a[0];
      assert (a + b)[1..] == a[1..] + b;
      assert vs[..|a|][1..] == vs[1..][..|a| - 1];
      assert vs[1..][|a| - 1..] == vs[|a|..];
      StoreAllAppend(Store(sf, a[0].slot, vs[0]), a[1..], b, vs[1..]);
    }
  }

  /** Storing a run of long bands puts its `k`-th value into band `lo + k` and leaves every
      other slot alone. */
  lemma {:induction false} StoreLongReads(sf: GranuleScaleFactor, lo: nat, hi: nat, width: Width, vs: seq<nat>,
                                          s: BandSlot)
    requires sf.Shape() && lo <= hi <= NumCriticalBandsLong && |vs| == hi - lo
    ensures Get(StoreAll(sf, LongReads(lo, hi, width), vs), s)
            == if s.LongBand? && lo <= s.sfb < hi then vs[s.sfb - lo] else Get(sf, s)
    decreases hi - lo
  {
    if lo < hi {
      var rs := LongReads(lo, hi, width);
      assert rs[1..] == LongReads(lo + 1, hi, width);
      StoreLongReads(Store(sf, LongBand(lo), vs[0]), lo + 1, hi, width, vs[1..], s);
    }
  }

  /** The three windows of short band `sfb` set to the first three values. */
  function StoreWindows(sf: GranuleScaleFactor, sfb: nat, vs: seq<nat>): (r: GranuleScaleFactor)
    requires sf.Shape() && sfb < NumCriticalBandsShort && |vs| >= 3
    ensures r.Shape()
  {
    Store(Store(Store(sf, ShortBand(0, sfb), vs[0]), ShortBand(1, sfb), vs[1]), ShortBand(2, sfb), vs[2])
  }

  /** Storing three windows of one short band. */
  lemma StoreShortBand(sf: GranuleScaleFactor, sfb: nat, width: Width, rest: seq<FieldRead>, vs: seq<nat>)
    requires sf.Shape() && sfb < NumCriticalBandsShort && |vs| == 3 + |rest|
    ensures var head := [FieldRead(ShortBand(0, sfb), width), FieldRead(ShortBand(1, sfb), width),
                         FieldRead(ShortBand(2, sfb), width)];
            StoreAll(sf, head + rest, vs)
            == StoreAll(StoreWindows(sf, sfb, vs), rest, vs[3..])
  {
    var head := [FieldRead(ShortBand(0, sfb), width), FieldRead(ShortBand(1, sfb), width),
                 FieldRead(ShortBand(2, sfb), width)];
    var x := head + rest;
    var s1 := Store(sf, ShortBand(0, sfb), vs[0]);
    var s2 := Store(s1, ShortBand(1, sfb), vs[1]);
    assert x[0].slot == ShortBand(0, sfb);
    assert StoreAll(sf, x, vs) == StoreAll(s1, x[1..], vs[1..]);
    assert x[1..][0].slot == ShortBand(1, sfb) && vs[1..][0] == vs[1];
    assert StoreAll(s1, x[1..], vs[1..]) == StoreAll(s2, x[1..][1..], vs[1..][1..]);
    assert x[1..][1..][0].slot == ShortBand(2, sfb) && vs[1..][1..][0] == vs[2];
    assert x[1..][1..][1..] == rest && vs[1..][1..][1..] == vs[3..];
  }

  /** A non-empty run of short bands starts with the three windows of its first band. */
  lemma ShortReadsStep(lo: nat, hi: nat, width: Width)
    requires lo <= hi <= NumCriticalBandsShort
    ensures lo < hi ==> ShortReads(lo, hi, width)
                        == [FieldRead(ShortBand(0, lo), width), FieldRead(ShortBand(1, lo), width),
                            FieldRead(ShortBand(2, lo), width)] + ShortReads(lo + 1, hi, width)
  {
  }

  /** Storing the three windows of short band `sfb` sets window `w` to `vs[w]` and leaves every
      other slot alone. */
  lemma StoreWindowsAt(sf: GranuleScaleFactor, sfb: nat, vs: seq<nat>, s: BandSlot)
    requires sf.Shape() && sfb < NumCriticalBandsShort && |vs| >= 3
    ensures Get(StoreWindows(sf, sfb, vs), s)
            == if s.ShortBand? && s.sfb == sfb then vs[s.win] else Get(sf, s)
  {
    var s1 := Store(sf, ShortBand(0, sfb), vs[0]);
    var s2 := Store(s1, ShortBand(1, sfb), vs[1]);
    var s3 := Store(s2, ShortBand(2, sfb), vs[2]);
    if s.ShortBand? && s.sfb == sfb {
      if s.win == 0 {
        assert Get(s3, s) == Get(s2, s) == Get(s1, s);
      } else if s.win == 1 {
        assert Get(s3, s) == Get(s2, s);
      }
    } else {
      assert Get(s3, s) == Get(s2, s) == Get(s1, s) == Get(sf, s);
    }
  }

  /** Storing a run of short bands leaves every slot outside the run alone. */
  lemma {:induction false} StoreShortReadsOutside(sf: GranuleScaleFactor, lo: nat, hi: nat, width: Width,
                                                  vs: seq<nat>, s: BandSlot)
    requires sf.Shape() && lo <= hi <= NumCriticalBandsShort && |vs| == 3 * (hi - lo)
    requires !(s.ShortBand? && lo <= s.sfb < hi)
    ensures Get(StoreAll(sf, ShortReads(lo, hi, width), vs), s) == Get(sf, s)
    decreases hi - lo
  {
    assert StoreAll(sf, [], []) == sf;
    ShortReadsStep(lo, hi, width);
    hide StoreAll, ShortReads, StoreWindows, Get;
    if lo < hi {
      var next := StoreWindows(sf, lo, vs);
      StoreShortBand(sf, lo, width, ShortReads(lo + 1, hi, width), vs);
      StoreShortReadsOutside(next, lo + 1, hi, width, vs[3..], s);
      StoreWindowsAt(sf, lo, vs, s);
    }
  }

  /** Storing a run of short bands puts its value `3 * k + w` into window `w` of band `lo + k`. */
  lemma {:induction false} StoreShortReadsInside(sf: GranuleScaleFactor, lo: nat, hi: nat, width: Width,
                                                 vs: seq<nat>, s: BandSlot)
    requires sf.Shape() && lo <= hi <= NumCriticalBandsShort && |vs| == 3 * (hi - lo)
    requires s.ShortBand? && lo <= s.sfb < hi
    ensures Get(StoreAll(sf, ShortReads(lo, hi, width), vs), s) == vs[3 * (s.sfb - lo) + s.win]
    decreases hi - lo
  {
    ShortReadsStep(lo, hi, width);
    hide StoreAll, ShortReads, StoreWindows, Get;
    var next := StoreWindows(sf, lo, vs);
    StoreShortBand(sf, lo, width, ShortReads(lo + 1, hi, width), vs);
    if s.sfb == lo {
      StoreShortReadsOutside(next, lo + 1, hi, width, vs[3..], s);
      StoreWindowsAt(sf, lo, vs, s);
    } else {
      StoreShortReadsInside(next, lo + 1, hi, width, vs[3..], s);
      assert vs[3..][3 * (s.sfb - (lo + 1)) + s.win] == vs[3 * (s.sfb - lo) + s.win];
    }
  }

  /** Storing a run of short bands puts its value `3 * k + w` into window `w` of band `lo + k`
      and leaves every other slot alone. */
  lemma StoreShortReads(sf: GranuleScaleFactor, lo: nat, hi: nat, width: Width, vs: seq<nat>, s: BandSlot)
    requires sf.Shape() && lo <= hi <= NumCriticalBandsShort && |vs| == 3 * (hi - lo)
    ensures Get(StoreAll(sf, ShortReads(lo, hi, width), vs), s)
            == if s.ShortBand? && lo <= s.sfb < hi then vs[3 * (s.sfb - lo) + s.win] else Get(sf, s)
  {
    if s.ShortBand? && lo <= s.sfb < hi {
      StoreShortReadsInside(sf, lo, hi, width, vs, s);
    } else {
      StoreShortReadsOutside(sf, lo, hi, width, vs, s);
    }
  }

  // ---------------------------------------------------------------------------------------
  // Storing the fields of each kind of block
  // ---------------------------------------------------------------------------------------

  /** Storing the fields of a pure short block puts field `3 * sfb + w` into window `w` of short
      band `sfb` below 12 and leaves every other slot alone. */
  lemma StoreShortBlock(sf: GranuleScaleFactor, compress: nat, vs: seq<nat>, s: BandSlot)
    requires sf.Shape() && compress < 16 && |vs| == 36
    ensures var rs := ShortReads(0, 6, Slen(0, compress)) + ShortReads(6, 12, Slen(1, compress));
            Get(StoreAll(sf, rs, vs), s)
            == if s.ShortBand? && s.sfb < 12 then vs[3 * s.sfb + s.win] else Get(sf, s)
  {
    hide StoreAll, ShortReads, Get, Slen;
    var a := ShortReads(0, 6, Slen(0, compress));
    var b := ShortReads(6, 12, Slen(1, compress));
    var low := vs[..18];
    var high := vs[18..];
    assert |a| == 18;
    StoreAllAppend(sf, a, b, vs);
    StoreShortReads(sf, 0, 6, Slen(0, compress), low, s);
    StoreShortReads(StoreAll(sf, a, low), 6, 12, Slen(1, compress), high, s);
    if s.ShortBand? && 6 <= s.sfb < 12 {
      assert high[3 * (s.sfb - 6) + s.win] == vs[3 * s.sfb + s.win];
    } else if s.ShortBand? && s.sfb < 6 {
      assert low[3 * s.sfb + s.win] == vs[3 * s.sfb + s.win];
    }
  }

  /** The slen1 part of a mixed block: long bands 0 to 7, then short bands `start` to 5. */
  lemma StoreMixedLow(sf: GranuleScaleFactor, compress: nat, start: nat, low: seq<nat>, s: BandSlot)
    requires sf.Shape() && compress < 16 && start <= 6 && |low| == 8 + 3 * (6 - start)
    ensures var rs := LongReads(0, 8, Slen(0, compress)) + ShortReads(start, 6, Slen(0, compress));
            Get(StoreAll(sf, rs, low), s)
            == if s.LongBand? && s.sfb < 8 then low[s.sfb]
               else if s.ShortBand? && start <= s.sfb < 6 then low[8 + 3 * (s.sfb - start) + s.win]
               else Get(sf, s)
  {
    hide StoreAll, LongReads, ShortReads, Get, Slen;
    var l := LongReads(0, 8, Slen(0, compress));
    var a := ShortReads(start, 6, Slen(0, compress));
    var mid := StoreAll(sf, l, low[..8]);
    StoreAllAppend(sf, l, a, low);
    assert |l| == 8;
    StoreLongReads(sf, 0, 8, Slen(0, compress), low[..8], s);
    StoreShortReads(mid, start, 6, Slen(0, compress), low[8..], s);
    if s.ShortBand? && start <= s.sfb < 6 {
      assert low[8..][3 * (s.sfb - start) + s.win] == low[8 + 3 * (s.sfb - start) + s.win];
    } else if s.LongBand? && s.sfb < 8 {
      assert low[..8][s.sfb] == low[s.sfb];
    }
  }

  /** Storing the fields of a mixed block whose short windows start at band `start`: field
      `sfb` into long band `sfb` below 8, field `8 + 3 * (sfb - start) + w` into window `w` of
      short band `sfb` from `start` to 11, and nothing anywhere else. */
  lemma StoreMixedBlock(sf: GranuleScaleFactor, compress: nat, start: nat, vs: seq<nat>, s: BandSlot)
    requires sf.Shape() && compress < 16 && start <= 6 && |vs| == 8 + 3 * (12 - start)
    ensures var rs := LongReads(0, 8, Slen(0, compress)) + ShortReads(start, 6, Slen(0, compress))
                      + ShortReads(6, 12, Slen(1, compress));
            Get(StoreAll(sf, rs, vs), s)
            == if s.LongBand? && s.sfb < 8 then vs[s.sfb]
               else if s.ShortBand? && start <= s.sfb < 12 then vs[8 + 3 * (s.sfb - start) + s.win]
               else Get(sf, s)
  {
    hide StoreAll, LongReads, ShortReads, Get, Slen;
    var low := LongReads(0, 8, Slen(0, compress)) + ShortReads(start, 6, Slen(0, compress));
    var b := ShortReads(6, 12, Slen(1, compress));
    var n := 8 + 3 * (6 - start);
    assert |low| == n;
    StoreAllAppend(sf, low, b, vs);
    StoreMixedLow(sf, compress, start, vs[..n], s);
    StoreShortReads(StoreAll(sf, low, vs[..n]), 6, 12, Slen(1, compress), vs[n..], s);
    if s.LongBand? && s.sfb < 8 {
      assert vs[..n][s.sfb] == vs[s.sfb];
    } else if s.ShortBand? && start <= s.sfb < 6 {
      assert vs[..n][8 + 3 * (s.sfb - start) + s.win] == vs[8 + 3 * (s.sfb - start) + s.win];
    } else if s.ShortBand? && 6 <= s.sfb < 12 {
      assert vs[n..][3 * (s.sfb - 6) + s.win] == vs[8 + 3 * (s.sfb - start) + s.win];
    }
  }

  /** Fields read for long-band group `i`: one per band, or none when the group is shared. */
  function GroupSize(i: nat, secondGranule: bool, scfsi: seq<bool>): nat
    requires i < 4 && |scfsi| == 4
  {
    if Shared(i, secondGranule, scfsi) then 0 else LongDivision[i + 1] - LongDivision[i]
  }

  /** Position in the read list of the first field of long-band group `i`: the fields of the
      groups before it. */
  function GroupStart(i: nat, secondGranule: bool, scfsi: seq<bool>): nat
    requires i <= 4 && |scfsi| == 4
  {
    (if i > 0 then GroupSize(0, secondGranule, scfsi) else 0)
    + (if i > 1 then GroupSize(1, secondGranule, scfsi) else 0)
    + (if i > 2 then GroupSize(2, secondGranule, scfsi) else 0)
    + (if i > 3 then GroupSize(3, secondGranule, scfsi) else 0)
  }

  /** The long-block fields of groups 0 to `n - 1`, in reading order. */
  function GroupsBefore(g: GranuleInfo, n: nat, secondGranule: bool, scfsi: seq<bool>): (rs: seq<FieldRead>)
    requires n <= 4 && |scfsi| == 4 && g.scalefacCompress < 16
    ensures |rs| == GroupStart(n, secondGranule, scfsi)
  {
    if n == 0 then [] else GroupsBefore(g, n - 1, secondGranule, scfsi) + GroupReads(g, n - 1, secondGranule, scfsi)
  }

  /** Storing the fields of one group puts field `sfb - LongDivision[i]` into each band `sfb` of
      the group, unless the group is shared, and leaves every other slot alone. */
  lemma StoreGroup(sf: GranuleScaleFactor, g: GranuleInfo, i: nat, secondGranule: bool, scfsi: seq<bool>,
                   vs: seq<nat>, s: BandSlot)
    requires sf.Shape() && i < 4 && |scfsi| == 4 && g.scalefacCompress < 16
    requires |vs| == GroupSize(i, secondGranule, scfsi)
    ensures Get(StoreAll(sf, GroupReads(g, i, secondGranule, scfsi), vs), s)
            == if !Shared(i, secondGranule, scfsi) && s.LongBand? && LongDivision[i] <= s.sfb < LongDivision[i + 1]
               then vs[s.sfb - LongDivision[i]] else Get(sf, s)
  {
    var lo := LongDivision[i];
    var hi := LongDivision[i + 1];
    var width := Slen(if i < 2 then 0 else 1, g.scalefacCompress);
    var rs := GroupReads(g, i, secondGranule, scfsi);
    assert StoreAll(sf, [], []) == sf;
    assert !Shared(i, secondGranule, scfsi) ==> rs == LongReads(lo, hi, width) && |vs| == hi - lo;
    assert Shared(i, secondGranule, scfsi) ==> rs == [] && vs == [];
    hide StoreAll, Get, GroupReads, LongReads, Slen, GroupSize;
    if !Shared(i, secondGranule, scfsi) {
      StoreLongReads(sf, lo, hi, width, vs, s);
    }
  }

  /** Group `n - 1` starts where the groups before it end. */
  lemma GroupStartStep(n: nat, secondGranule: bool, scfsi: seq<bool>)
    requires 0 < n <= 4 && |scfsi| == 4
    ensures GroupStart(n, secondGranule, scfsi)
            == GroupStart(n - 1, secondGranule, scfsi) + GroupSize(n - 1, secondGranule, scfsi)
  {
  }

  /** A band read by one of groups 0 to `n - 1` sits either among the fields of the earlier
      groups or at its offset in group `n - 1`. */
  lemma GroupIndex(n: nat, secondGranule: bool, scfsi: seq<bool>, sfb: nat)
    requires 0 < n <= 4 && |scfsi| == 4 && sfb < LongDivision[n]
    ensures if sfb < LongDivision[n - 1] then GroupOf(sfb) < n - 1 else GroupOf(sfb) == n - 1
    ensures !Shared(GroupOf(sfb), secondGranule, scfsi) ==>
            var k := GroupStart(GroupOf(sfb), secondGranule, scfsi) + sfb - LongDivision[GroupOf(sfb)];
            if sfb < LongDivision[n - 1] then k < GroupStart(n - 1, secondGranule, scfsi)
            else k == GroupStart(n - 1, secondGranule, scfsi) + sfb - LongDivision[n - 1]
                 && sfb - LongDivision[n - 1] < GroupSize(n - 1, secondGranule, scfsi)
  {
  }

  /** Storing the fields of groups 0 to `n - 1`: band `sfb` of a group that is read holds field
      `GroupStart(i) + sfb - LongDivision[i]`, and every other slot is left alone. */
  lemma {:induction false} StoreGroups(sf: GranuleScaleFactor, g: GranuleInfo, n: nat, secondGranule: bool,
                                       scfsi: seq<bool>, vs: seq<nat>, s: BandSlot)
    requires sf.Shape() && n <= 4 && |scfsi| == 4 && g.scalefacCompress < 16
    requires |vs| == GroupStart(n, secondGranule, scfsi)
    ensures Get(StoreAll(sf, GroupsBefore(g, n, secondGranule, scfsi), vs), s)
            == if s.LongBand? && s.sfb < LongDivision[n] && !Shared(GroupOf(s.sfb), secondGranule, scfsi)
               then vs[GroupStart(GroupOf(s.sfb), secondGranule, scfsi) + s.sfb - LongDivision[GroupOf(s.sfb)]]
               else Get(sf, s)
    decreases n
  {
    assert StoreAll(sf, [], []) == sf;
    assert GroupStart(0, secondGranule, scfsi) == 0;
    hide StoreAll, Get, GroupReads, LongReads, Slen, GroupStart, GroupSize, GroupOf;
    if n > 0 {
      var before := GroupsBefore(g, n - 1, secondGranule, scfsi);
      var groupReads := GroupReads(g, n - 1, secondGranule, scfsi);
      var m := GroupStart(n - 1, secondGranule, scfsi);
      assert GroupsBefore(g, n, secondGranule, scfsi) == before + groupReads;
      GroupStartStep(n, secondGranule, scfsi);
      assert |vs| == m + |groupReads|;
      var earlier := StoreAll(sf, before, vs[..m]);
      var whole := StoreAll(sf, GroupsBefore(g, n, secondGranule, scfsi), vs);
      StoreAllAppend(sf, before, groupReads, vs);
      assert whole == StoreAll(earlier, groupReads, vs[m..]);
      StoreGroups(sf, g, n - 1, secondGranule, scfsi, vs[..m], s);
      StoreGroup(earlier, g, n - 1, secondGranule, scfsi, vs[m..], s);
      if s.LongBand? && s.sfb < LongDivision[n] {
        GroupIndex(n, secondGranule, scfsi, s.sfb);
        var i := GroupOf(s.sfb);
        var k := GroupStart(i, secondGranule, scfsi) + s.sfb - LongDivision[i];
        if s.sfb < LongDivision[n - 1] {
          assert Get(whole, s) == Get(earlier, s);
          if !Shared(i, secondGranule, scfsi) {
            assert vs[..m][k] == vs[k];
          }
        } else if Shared(n - 1, secondGranule, scfsi) {
          assert Get(whole, s) == Get(earlier, s);
        } else {
          assert Get(whole, s) == vs[m..][s.sfb - LongDivision[n - 1]];
          assert vs[m..][s.sfb - LongDivision[n - 1]] == vs[k];
        }
      } else {
        assert Get(whole, s) == Get(earlier, s);
      }
    }
  }

  /** Taking over the shared groups from the first granule sets each band of a shared group to
      the first granule's value and leaves every other slot alone. */
  lemma CopyGroupAt(sf: GranuleScaleFactor, first: GranuleScaleFactor, i: nat, secondGranule: bool,
                    scfsi: seq<bool>, s: BandSlot)
    requires sf.Shape() && first.Shape() && i < 4 && |scfsi| == 4
    ensures Get(CopyGroup(sf, first, i, secondGranule, scfsi), s)
            == if Shared(i, secondGranule, scfsi) && s.LongBand? && LongDivision[i] <= s.sfb < LongDivision[i + 1]
               then first.long[s.sfb] else Get(sf, s)
  {
  }

  lemma CopySharedAt(sf: GranuleScaleFactor, first: GranuleScaleFactor, secondGranule: bool, scfsi: seq<bool>,
                     s: BandSlot)
    requires sf.Shape() && first.Shape() && |scfsi| == 4
    ensures Get(CopyShared(sf, first, secondGranule, scfsi), s)
            == if s.LongBand? && s.sfb < 21 && Shared(GroupOf(s.sfb), secondGranule, scfsi)
               then first.long[s.sfb] else Get(sf, s)
  {
    var c0 := CopyGroup(sf, first, 0, secondGranule, scfsi);
    var c1 := CopyGroup(c0, first, 1, secondGranule, scfsi);
    var c2 := CopyGroup(c1, first, 2, secondGranule, scfsi);
    CopyGroupAt(sf, first, 0, secondGranule, scfsi, s);
    CopyGroupAt(c0, first, 1, secondGranule, scfsi, s);
    CopyGroupAt(c1, first, 2, secondGranule, scfsi, s);
    CopyGroupAt(c2, first, 3, secondGranule, scfsi, s);
  }

  // ---------------------------------------------------------------------------------------
  // The reference: what each band holds
  // ---------------------------------------------------------------------------------------

  /** How many fields a granule reads; a mixed block's short windows start at band `start`. */
  function FieldCount(g: GranuleInfo, secondGranule: bool, scfsi: seq<bool>, start: nat): nat
    requires |scfsi| == 4 && start <= 6
  {
    if IsShortBlock(g) then
      if g.mixedBlock then 8 + 3 * (12 - start) else 36
    else GroupStart(4, secondGranule, scfsi)
  }

  /** The scale factor band `s` ends up with, given the values `vs` of the fields in reading
      order:
      - pure short block: window `w` of short band `sfb` below 12 holds field `3 * sfb + w`;
      - mixed block: long band `sfb` below 8 holds field `sfb`, and window `w` of short band
        `sfb` from `start` to 11 holds field `8 + 3 * (sfb - start) + w`;
      - long block: long band `sfb` below 21 holds the first granule's value when its group is
        shared, and otherwise field `GroupStart(i) + sfb - LongDivision[i]` of its group `i`;
      - every other band holds 0. */
  function BandValue(g: GranuleInfo, secondGranule: bool, scfsi: seq<bool>, first: GranuleScaleFactor,
                     start: nat, vs: seq<nat>, s: BandSlot): nat
    requires |scfsi| == 4 && first.Shape() && start <= 6
    requires |vs| == FieldCount(g, secondGranule, scfsi, start)
  {
    if IsShortBlock(g) then
      if g.mixedBlock then
        match s
        case LongBand(sfb) => if sfb < 8 then vs[sfb] else 0
        case ShortBand(win, sfb) => if start <= sfb < 12 then vs[8 + 3 * (sfb - start) + win] else 0
      else
        match s
        case LongBand(_) => 0
        case ShortBand(win, sfb) => if sfb < 12 then vs[3 * sfb + win] else 0
    else
      match s
      case ShortBand(_, _) => 0
      case LongBand(sfb) =>
        if sfb >= 21 then 0
        else
          var i := GroupOf(sfb);
          if Shared(i, secondGranule, scfsi) then first.long[sfb]
          else vs[GroupStart(i, secondGranule, scfsi) + sfb - LongDivision[i]]
  }

  /** A long block: the shared groups come from the first granule, the others from the
      fields. */
  lemma StoreLongGranule(g: GranuleInfo, secondGranule: bool, scfsi: seq<bool>, first: GranuleScaleFactor,
                         vs: seq<nat>, s: BandSlot)
    requires |scfsi| == 4 && first.Shape() && g.scalefacCompress < 16 && !IsShortBlock(g)
    requires |vs| == GroupStart(4, secondGranule, scfsi)
    ensures var rs := GroupsBefore(g, 4, secondGranule, scfsi);
            Get(StoreAll(CopyShared(Zero(), first, secondGranule, scfsi), rs, vs), s)
            == BandValue(g, secondGranule, scfsi, first, 0, vs, s)
  {
    var base := CopyShared(Zero(), first, secondGranule, scfsi);
    CopySharedAt(Zero(), first, secondGranule, scfsi, s);
    StoreGroups(base, g, 4, secondGranule, scfsi, vs, s);
  }

  /** The long-block reading order is the four groups one after the other. */
  lemma LongOrder(g: GranuleInfo, secondGranule: bool, scfsi: seq<bool>, mixed: seq<FieldRead>)
    requires |scfsi| == 4 && g.scalefacCompress < 16 && !IsShortBlock(g)
    ensures ReadOrderWith(g, secondGranule, scfsi, mixed) == GroupsBefore(g, 4, secondGranule, scfsi)
  {
    var g0 := GroupReads(g, 0, secondGranule, scfsi);
    var g1 := GroupReads(g, 1, secondGranule, scfsi);
    var g2 := GroupReads(g, 2, secondGranule, scfsi);
    var g3 := GroupReads(g, 3, secondGranule, scfsi);
    assert GroupsBefore(g, 1, secondGranule, scfsi) == [] + g0 == g0;
    assert GroupsBefore(g, 2, secondGranule, scfsi) == g0 + g1;
    assert GroupsBefore(g, 3, secondGranule, scfsi) == g0 + g1 + g2;
    assert GroupsBefore(g, 4, secondGranule, scfsi) == g0 + g1 + g2 + g3;
  }

  /** Storing the fields of a granule read in the order `ReadOrderWith` lists them puts into
      each band what `BandValue` says; `mixed` is the mixed-block layout with short windows
      from `start`. */
  lemma StoreGranuleBands(g: GranuleInfo, secondGranule: bool, scfsi: seq<bool>, first: GranuleScaleFactor,
                          start: nat, vs: seq<nat>, s: BandSlot)
    requires |scfsi| == 4 && first.Shape() && g.scalefacCompress < 16 && start <= 6
    requires |vs| == FieldCount(g, secondGranule, scfsi, start)
    ensures var mixed := LongReads(0, 8, Slen(0, g.scalefacCompress))
                         + ShortReads(start, 6, Slen(0, g.scalefacCompress))
                         + ShortReads(6, 12, Slen(1, g.scalefacCompress));
            var rs := ReadOrderWith(g, secondGranule, scfsi, mixed);
            |rs| == |vs| && Get(StoreGranule(g, secondGranule, scfsi, first, rs, vs), s)
                            == BandValue(g, secondGranule, scfsi, first, start, vs, s)
  {
    var c := g.scalefacCompress;
    var mixed := LongReads(0, 8, Slen(0, c)) + ShortReads(start, 6, Slen(0, c)) + ShortReads(6, 12, Slen(1, c));
    if IsShortBlock(g) {
      if g.mixedBlock {
        StoreMixedBlock(Zero(), c, start, vs, s);
      } else {
        StoreShortBlock(Zero(), c, vs, s);
      }
    } else {
      LongOrder(g, secondGranule, scfsi, mixed);
      StoreLongGranule(g, secondGranule, scfsi, first, vs, s);
    }
  }

  // ---------------------------------------------------------------------------------------
  // Decoding, band by band
  // ---------------------------------------------------------------------------------------

  /** `decode_granule_scale_factor` leaves in every band what `BandValue` says, where the field
      values are the buffer's bits after the cursor cut into fields in reading order (mixed
      short windows from band 0, as the source reads them). */
  lemma DecodeBands(b: Buffer, g: GranuleInfo, secondGranule: bool, scfsi: seq<bool>,
                    first: GranuleScaleFactor, s: BandSlot)
    requires b.Valid() && g.scalefacCompress < 16 && |scfsi| == 4 && first.Shape()
    ensures var vs := SplitAt(BitsOfBytes(b.buffer), b.readPosBits, ReadOrder(g, secondGranule, scfsi));
            |vs| == FieldCount(g, secondGranule, scfsi, 0)
            && Get(DecodeGranuleScaleFactor(b, g, secondGranule, scfsi, first).0, s)
               == BandValue(g, secondGranule, scfsi, first, 0, vs, s)
  {
    var rs := ReadOrder(g, secondGranule, scfsi);
    ReadFieldsSplit(b, rs);
    StoreGranuleBands(g, secondGranule, scfsi, first, 0, ReadFields(b, rs).0, s);
  }

  /** The same with the standard's mixed-block layout (mixed short windows from band 3). */
  lemma DecodeBandsCorrected(b: Buffer, g: GranuleInfo, secondGranule: bool, scfsi: seq<bool>,
                             first: GranuleScaleFactor, s: BandSlot)
    requires b.Valid() && g.scalefacCompress < 16 && |scfsi| == 4 && first.Shape()
    ensures var vs := SplitAt(BitsOfBytes(b.buffer), b.readPosBits, ReadOrderCorrected(g, secondGranule, scfsi));
            |vs| == FieldCount(g, secondGranule, scfsi, 3)
            && Get(DecodeGranuleScaleFactorCorrected(b, g, secondGranule, scfsi, first).0, s)
               == BandValue(g, secondGranule, scfsi, first, 3, vs, s)
  {
    var rs := ReadOrderCorrected(g, secondGranule, scfsi);
    ReadFieldsSplit(b, rs);
    StoreGranuleBands(g, secondGranule, scfsi, first, 3, ReadFields(b, rs).0, s);
  }

  /** The decode moves the cursor by the total width of the fields, around the ring, and
      changes nothing else in the buffer. */
  lemma DecodeCursor(b: Buffer, g: GranuleInfo, secondGranule: bool, scfsi: seq<bool>, first: GranuleScaleFactor)
    requires b.Valid() && g.scalefacCompress < 16 && |scfsi| == 4 && first.Shape()
    ensures DecodeGranuleScaleFactor(b, g, secondGranule, scfsi, first).1
            == b.(readPosBits := Advance(b.readPosBits, TotalBits(ReadOrder(g, secondGranule, scfsi))))
  {
    ReadFieldsCursor(b, ReadOrder(g, secondGranule, scfsi));
  }

  lemma Pow2Width(w: Width)
    ensures Pow2(w) <= 16
  {
    assert Pow2(0) == 1 && Pow2(1) == 2 && Pow2(2) == 4 && Pow2(3) == 8 && Pow2(4) == 16;
  }

  /** A field read by `ReadFields` fits in four bits. */
  lemma ReadFieldsFour(b: Buffer, rs: seq<FieldRead>, k: nat)
    requires b.Valid() && k < |rs|
    ensures ReadFields(b, rs).0[k] < 16
  {
    Pow2Width(rs[k].width);
  }

  /** A band holds a field value, a value of the first granule, or 0. */
  lemma BandValueBound(g: GranuleInfo, secondGranule: bool, scfsi: seq<bool>, first: GranuleScaleFactor,
                       start: nat, vs: seq<nat>, s: BandSlot)
    requires |scfsi| == 4 && first.Bounded() && start <= 6
    requires |vs| == FieldCount(g, secondGranule, scfsi, start)
    requires forall k :: 0 <= k < |vs| ==> vs[k] < 16
    ensures BandValue(g, secondGranule, scfsi, first, start, vs, s) < 16
  {
  }

  lemma BoundedFromSlots(sf: GranuleScaleFactor)
    requires sf.Shape() && forall s: BandSlot :: Get(sf, s) < 16
    ensures sf.Bounded()
  {
    forall sfb | 0 <= sfb < NumCriticalBandsLong
      ensures sf.long[sfb] < 16
    {
      assert Get(sf, LongBand(sfb)) == sf.long[sfb];
    }
    forall w, sfb | 0 <= w < 3 && 0 <= sfb < NumCriticalBandsShort
      ensures sf.short[w][sfb] < 16
    {
      assert Get(sf, ShortBand(w, sfb)) == sf.short[w][sfb];
    }
  }

  /** Every scale factor the decode produces fits in four bits, provided the first granule's
      do: the `as u8` narrowing of the source never loses a bit. */
  lemma DecodeBounded(b: Buffer, g: GranuleInfo, secondGranule: bool, scfsi: seq<bool>, first: GranuleScaleFactor)
    requires b.Valid() && g.scalefacCompress < 16 && |scfsi| == 4 && first.Bounded()
    ensures DecodeGranuleScaleFactor(b, g, secondGranule, scfsi, first).0.Bounded()
  {
    var rs := ReadOrder(g, secondGranule, scfsi);
    var r := DecodeGranuleScaleFactor(b, g, secondGranule, scfsi, first).0;
    var vs := SplitAt(BitsOfBytes(b.buffer), b.readPosBits, rs);
    ReadFieldsSplit(b, rs);
    forall k | 0 <= k < |vs|
      ensures vs[k] < 16
    {
      ReadFieldsFour(b, rs, k);
    }
    forall s: BandSlot
      ensures Get(r, s) < 16
    {
      DecodeBands(b, g, secondGranule, scfsi, first, s);
      BandValueBound(g, secondGranule, scfsi, first, 0, vs, s);
    }
    BoundedFromSlots(r);
  }
}
