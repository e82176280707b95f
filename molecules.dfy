/**
 * Molecule-boundary inference of getMolecules.py (`get_gemcode_regions`).
 *
 * A forward pass over coordinate-sorted reads keeps, per 10X barcode, the
 * list of (chromosome, position) entries of that barcode's open molecule.
 * A read either opens the list (first read of its barcode), extends it, or
 * closes it: the closed list becomes a molecule
 * (chromosome, min position, max position, barcode, readcount) and the list
 * restarts with the current read.
 *
 * The model differs from the literal code at three places, each documented
 * where it occurs and, as written, in the module MoleculesAsWritten:
 * the molecule's chromosome is taken from the list's first entry (line 51
 * reads entry [1]); the reset stores the one-entry list [read] (line 52
 * stores a bare tuple); and the gap comparison is a parameter: the literal
 * comparison of line 50, or the one its comment on lines 47-49 describes.
 */
module Molecules {
  import opened Wrappers

  /** One aligned read: reference name, leftmost position, RX barcode tag. */
  datatype Read = Read(chr: string, pos: int, barcode: string)

  /** The `coords` namedtuple (chr, pos). */
  datatype Coord = Coord(chr: string, pos: int)

  /** The `molecule` namedtuple (chr, start, end, barcode, readcount). */
  datatype Molecule = Molecule(chr: string, start: int, end: int, barcode: string, readcount: nat)

  /**
   * Which gap comparison closes a molecule on the same chromosome.
   * AsWritten is line 50 literally: close when pos - last.pos < dist.
   * AsDocumented is the comment above it ("colinear but beyond dist"):
   * close when pos - last.pos > dist. The two disagree.
   */
  datatype GapRule = AsWritten | AsDocumented

  /** The `gemcodes` table: barcode to the entries of its open molecule. */
  type Table = map<string, seq<Coord>>

  /** The gap test of line 50. NOTE: AsWritten is inverted with respect to the comment on lines 47-49. */
  predicate GapCloses(rule: GapRule, pos: int, lastPos: int, dist: int) {
    match rule
    case AsWritten => pos - lastPos < dist
    case AsDocumented => pos - lastPos > dist
  }

  /** The whole condition of line 50, once the barcode is known: another contig, or the gap test. */
  predicate ShouldClose(last: Coord, read: Read, dist: int, rule: GapRule) {
    last.chr != read.chr || GapCloses(rule, read.pos, last.pos, dist)
  }

  /** An open list: non-empty, and all its entries on one chromosome. */
  predicate OneChromosome(l: seq<Coord>) {
    |l| > 0 && forall i :: 0 <= i < |l| ==> l[i].chr == l[0].chr
  }

  predicate WellFormed(t: Table) {
    forall b :: b in t ==> OneChromosome(t[b])
  }

  predicate ValidMolecule(m: Molecule) {
    m.start <= m.end && m.readcount >= 1
  }

  function Last(l: seq<Coord>): Coord
    requires |l| > 0
  {
    l[|l| - 1]
  }

  /** `min([pos for chr, pos in l])`. */
  function MinPos(l: seq<Coord>): (lo: int)
    requires |l| > 0
    ensures forall i :: 0 <= i < |l| ==> lo <= l[i].pos
    ensures exists i :: 0 <= i < |l| && l[i].pos == lo
  {
    if |l| == 1 then l[0].pos
    else
      var m := MinPos(l[1..]);
      assert forall i :: 1 <= i < |l| ==> l[i] == l[1..][i - 1];
      if l[0].pos <= m then l[0].pos else m
  }

  /** `max([pos for chr, pos in l])`. */
  function MaxPos(l: seq<Coord>): (hi: int)
    requires |l| > 0
    ensures forall i :: 0 <= i < |l| ==> l[i].pos <= hi
    ensures exists i :: 0 <= i < |l| && l[i].pos == hi
  {
    if |l| == 1 then l[0].pos
    else
      var m := MaxPos(l[1..]);
      assert forall i :: 1 <= i < |l| ==> l[i] == l[1..][i - 1];
      if l[0].pos >= m then l[0].pos else m
  }

  /**
   * The molecule yielded at line 51 for a closed list: its interval is the
   * convex hull of the list's positions and its readcount the list's length.
   * The chromosome is that of the first entry (every entry shares it), where
   * the source reads entry [1].
   */
  function Close(l: seq<Coord>, barcode: string): (m: Molecule)
    requires OneChromosome(l)
    ensures ValidMolecule(m)
    ensures m.barcode == barcode && m.readcount == |l|
    ensures forall i :: 0 <= i < |l| ==> m.chr == l[i].chr && m.start <= l[i].pos <= m.end
    ensures (exists i :: 0 <= i < |l| && l[i].pos == m.start) && (exists j :: 0 <= j < |l| && l[j].pos == m.end)
  {
    Molecule(l[0].chr, MinPos(l), MaxPos(l), barcode, |l|)
  }

  /**
   * One iteration of the loop at lines 44-55: the new table and the molecule
   * yielded, if any. Only the read's own barcode entry changes.
   */
  function Transition(t: Table, read: Read, dist: int, rule: GapRule): (res: (Table, Option<Molecule>))
    requires WellFormed(t)
    ensures WellFormed(res.0)
    ensures res.0.Keys == t.Keys + {read.barcode}
    ensures forall b :: b in t && b != read.barcode ==> res.0[b] == t[b]
    ensures res.1.Some? ==> res.1.value.barcode == read.barcode && ValidMolecule(res.1.value)
  {
    var b := read.barcode;
    var c := Coord(read.chr, read.pos);
    if b in t && ShouldClose(Last(t[b]), read, dist, rule) then
      // Line 52 stores a bare tuple here; the model stores the list [c].
      (t[b := [c]], Some(Close(t[b], b)))
    else
      // The defaultdict supplies [] for a barcode not yet seen (line 55).
      var l := if b in t then t[b] else [];
      (t[b := l + [c]], None)
  }

  /**
   * The loop over all reads: the final table and the molecules yielded, in
   * order. Defined as the state after the reads before the last one, then one
   * more iteration. There is no end-of-stream flush.
   */
  function Process(t: Table, input: seq<Read>, dist: int, rule: GapRule): (res: (Table, seq<Molecule>))
    requires WellFormed(t)
    ensures WellFormed(res.0)
    ensures |res.1| <= |input|
    decreases |input|
  {
    if |input| == 0 then (t, [])
    else
      var before := Process(t, input[..|input| - 1], dist, rule);
      var step := Transition(before.0, input[|input| - 1], dist, rule);
      (step.0, before.1 + OptionToSeq(step.1))
  }

  // ---------------------------------------------------------------------
  // One step
  // ---------------------------------------------------------------------

  /** A barcode's first read yields nothing and opens a one-entry list. */
  lemma FirstReadOpens(t: Table, read: Read, dist: int, rule: GapRule)
    requires WellFormed(t) && read.barcode !in t
    ensures Transition(t, read, dist, rule).1 == None
    ensures Transition(t, read, dist, rule).0 == t[read.barcode := [Coord(read.chr, read.pos)]]
  {
    assert [] + [Coord(read.chr, read.pos)] == [Coord(read.chr, read.pos)];
  }

  /** A read on another chromosome than its barcode's last entry closes the whole old list and restarts it. */
  lemma ChromosomeChangeCloses(t: Table, read: Read, dist: int, rule: GapRule)
    requires WellFormed(t) && read.barcode in t && Last(t[read.barcode]).chr != read.chr
    ensures Transition(t, read, dist, rule).1 == Some(Close(t[read.barcode], read.barcode))
    ensures Transition(t, read, dist, rule).0 == t[read.barcode := [Coord(read.chr, read.pos)]]
  {
  }

  /**
   * On the same chromosome, the gap test alone decides: a molecule is yielded
   * exactly when it holds; otherwise the read is appended.
   */
  lemma SameChromosomeDecidedByGap(t: Table, read: Read, dist: int, rule: GapRule)
    requires WellFormed(t) && read.barcode in t && Last(t[read.barcode]).chr == read.chr
    ensures var res := Transition(t, read, dist, rule);
      && (res.1.Some? <==> GapCloses(rule, read.pos, Last(t[read.barcode]).pos, dist))
      && (res.1.Some? ==> res.1.value == Close(t[read.barcode], read.barcode)
                          && res.0[read.barcode] == [Coord(read.chr, read.pos)])
      && (res.1.None? ==> res.0[read.barcode] == t[read.barcode] + [Coord(read.chr, read.pos)])
  {
  }

  /** As documented: consecutive same-barcode reads on one chromosome at most dist apart merge. */
  lemma DocumentedRuleMergesWithinDist(t: Table, read: Read, dist: int)
    requires WellFormed(t) && read.barcode in t
    requires Last(t[read.barcode]).chr == read.chr && read.pos - Last(t[read.barcode]).pos <= dist
    ensures Transition(t, read, dist, AsDocumented).1 == None
    ensures Transition(t, read, dist, AsDocumented).0[read.barcode] == t[read.barcode] + [Coord(read.chr, read.pos)]
  {
  }

  /** As documented: a gap beyond dist separates two molecules. */
  lemma DocumentedRuleSplitsBeyondDist(t: Table, read: Read, dist: int)
    requires WellFormed(t) && read.barcode in t
    requires Last(t[read.barcode]).chr == read.chr && read.pos - Last(t[read.barcode]).pos > dist
    ensures Transition(t, read, dist, AsDocumented).1 == Some(Close(t[read.barcode], read.barcode))
    ensures Transition(t, read, dist, AsDocumented).0[read.barcode] == [Coord(read.chr, read.pos)]
  {
  }

  // ---------------------------------------------------------------------
  // The whole pass
  // ---------------------------------------------------------------------

  /** Reads are handled strictly in order: one more read appends at most one molecule at the end. */
  lemma ProcessSnoc(t: Table, input: seq<Read>, read: Read, dist: int, rule: GapRule)
    requires WellFormed(t)
    ensures var before := Process(t, input, dist, rule);
            var step := Transition(before.0, read, dist, rule);
            Process(t, input + [read], dist, rule) == (step.0, before.1 + OptionToSeq(step.1))
  {
    assert (input + [read])[..|input|] == input;
  }

  /** The same step, for the prefix of a sequence of reads. */
  lemma ProcessPrefixStep(t: Table, input: seq<Read>, i: nat, dist: int, rule: GapRule)
    requires WellFormed(t) && i < |input|
    ensures var before := Process(t, input[..i], dist, rule);
            var step := Transition(before.0, input[i], dist, rule);
            Process(t, input[..i + 1], dist, rule) == (step.0, before.1 + OptionToSeq(step.1))
  {
    assert input[..i + 1][..i] == input[..i];
  }

  /** Every molecule yielded has start <= end and at least one read. */
  lemma {:induction false} ProcessYieldsValidMolecules(t: Table, input: seq<Read>, dist: int, rule: GapRule)
    requires WellFormed(t)
    ensures forall i :: 0 <= i < |Process(t, input, dist, rule).1| ==> ValidMolecule(Process(t, input, dist, rule).1[i])
    decreases |input|
  {
    if |input| > 0 {
      ProcessYieldsValidMolecules(t, input[..|input| - 1], dist, rule);
    }
  }

  /** From an empty table: every molecule is valid, and the yielded readcounts plus the reads still open add up to the input's length. */
  lemma PassFromNothing(input: seq<Read>, dist: int, rule: GapRule)
    ensures var res := Process(map[], input, dist, rule);
            && (forall i :: 0 <= i < |res.1| ==> ValidMolecule(res.1[i]))
            && SumReadcounts(res.1) + TotalOpen(res.0) == |input|
  {
    ProcessYieldsValidMolecules(map[], input, dist, rule);
    Conservation(map[], input, dist, rule);
    assert TotalOpen(map[]) == 0;
  }

  /** Zero reads yield zero molecules. */
  lemma EmptyInputYieldsNothing(dist: int, rule: GapRule)
    ensures Process(map[], [], dist, rule) == (map[], [])
  {
  }

  // Conservation of reads, per barcode and overall.

  function CountReads(input: seq<Read>, b: string): nat
  {
    if |input| == 0 then 0
    else CountReads(input[..|input| - 1], b) + (if input[|input| - 1].barcode == b then 1 else 0)
  }

  function YieldedReads(ms: seq<Molecule>, b: string): nat
  {
    if |ms| == 0 then 0 else (if ms[0].barcode == b then ms[0].readcount else 0) + YieldedReads(ms[1..], b)
  }

  function OpenReads(t: Table, b: string): nat
  {
    if b in t then |t[b]| else 0
  }

  lemma {:induction false} YieldedReadsAppend(a: seq<Molecule>, c: seq<Molecule>, b: string)
    ensures YieldedReads(a + c, b) == YieldedReads(a, b) + YieldedReads(c, b)
  {
    if |a| > 0 {
      assert (a + c)[0] == a[0];
      assert (a + c)[1..] == a[1..] + c;
      YieldedReadsAppend(a[1..], c, b);
    } else {
      assert a + c == c;
    }
  }

  /**
   * For each barcode, the reads consumed plus those open at the start equal
   * the readcounts yielded plus those open at the end.
   */
  lemma {:induction false} ConservationPerBarcode(t: Table, input: seq<Read>, dist: int, rule: GapRule, b: string)
    requires WellFormed(t)
    ensures var res := Process(t, input, dist, rule);
            CountReads(input, b) + OpenReads(t, b) == YieldedReads(res.1, b) + OpenReads(res.0, b)
    decreases |input|
  {
    if |input| > 0 {
      var before := Process(t, input[..|input| - 1], dist, rule);
      var step := Transition(before.0, input[|input| - 1], dist, rule);
      ConservationPerBarcode(t, input[..|input| - 1], dist, rule, b);
      YieldedReadsAppend(before.1, OptionToSeq(step.1), b);
    }
  }

  function SumReadcounts(ms: seq<Molecule>): nat
  {
    if |ms| == 0 then 0 else ms[0].readcount + SumReadcounts(ms[1..])
  }

  lemma {:induction false} SumReadcountsAppend(a: seq<Molecule>, c: seq<Molecule>)
    ensures SumReadcounts(a + c) == SumReadcounts(a) + SumReadcounts(c)
  {
    if |a| > 0 {
      assert (a + c)[0] == a[0];
      assert (a + c)[1..] == a[1..] + c;
      SumReadcountsAppend(a[1..], c);
    } else {
      assert a + c == c;
    }
  }

  /** The number of entries in the open lists of the barcodes ks. */
  ghost function SumOver(t: Table, ks: set<string>): nat
    requires ks <= t.Keys
    decreases ks
  {
    if ks == {} then 0
    else
      var b :| b in ks;
      |t[b]| + SumOver(t, ks - {b})
  }

  /** The number of entries in all open lists together. */
  ghost function TotalOpen(t: Table): nat
  {
    SumOver(t, t.Keys)
  }

  /** SumOver does not depend on which barcode it takes first. */
  lemma {:induction false} SumOverRemove(t: Table, ks: set<string>, b: string)
    requires ks <= t.Keys && b in ks
    ensures SumOver(t, ks) == |t[b]| + SumOver(t, ks - {b})
    decreases ks
  {
    var b' :| b' in ks && SumOver(t, ks) == |t[b']| + SumOver(t, ks - {b'});
    if b' != b {
      SumOverRemove(t, ks - {b'}, b);
      SumOverRemove(t, ks - {b}, b');
      assert ks - {b'} - {b} == ks - {b} - {b'};
    }
  }

  /** SumOver reads only the lists of the barcodes it sums. */
  lemma {:induction false} SumOverFrame(t1: Table, t2: Table, ks: set<string>)
    requires ks <= t1.Keys && ks <= t2.Keys
    requires forall b :: b in ks ==> t1[b] == t2[b]
    ensures SumOver(t1, ks) == SumOver(t2, ks)
    decreases ks
  {
    if ks != {} {
      var b :| b in ks && SumOver(t1, ks) == |t1[b]| + SumOver(t1, ks - {b});
      SumOverRemove(t2, ks, b);
      SumOverFrame(t1, t2, ks - {b});
    }
  }

  lemma TotalOpenUpdate(t: Table, b: string, l: seq<Coord>)
    ensures TotalOpen(t[b := l]) + OpenReads(t, b) == TotalOpen(t) + |l|
  {
    var u := t[b := l];
    SumOverRemove(u, u.Keys, b);
    SumOverFrame(u, t, t.Keys - {b});
    assert u.Keys - {b} == t.Keys - {b};
    if b in t {
      SumOverRemove(t, t.Keys, b);
    } else {
      assert t.Keys - {b} == t.Keys;
    }
  }

  /** Over the whole pass, the reads consumed plus those open before equal the yielded readcounts plus those open after. */
  lemma {:induction false} Conservation(t: Table, input: seq<Read>, dist: int, rule: GapRule)
    requires WellFormed(t)
    ensures var res := Process(t, input, dist, rule);
            |input| + TotalOpen(t) == SumReadcounts(res.1) + TotalOpen(res.0)
    decreases |input|
  {
    if |input| > 0 {
      var read := input[|input| - 1];
      var before := Process(t, input[..|input| - 1], dist, rule);
      var step := Transition(before.0, read, dist, rule);
      Conservation(t, input[..|input| - 1], dist, rule);
      SumReadcountsAppend(before.1, OptionToSeq(step.1));
      var c := Coord(read.chr, read.pos);
      if step.1.Some? {
        TotalOpenUpdate(before.0, read.barcode, [c]);
      } else {
        var l := if read.barcode in before.0 then before.0[read.barcode] else [];
        TotalOpenUpdate(before.0, read.barcode, l + [c]);
      }
    }
  }

  // ---------------------------------------------------------------------
  // End-of-stream flush: NOT in the source (the loop ends at line 55 with
  // no flush), stated here to show what closing every open list once at
  // the end of the reads would yield.
  // ---------------------------------------------------------------------

  /** Close the open lists of the barcodes ks, each once, in an unspecified order. Not in the source. */
  ghost function FlushKeys(t: Table, ks: set<string>): (ms: seq<Molecule>)
    requires WellFormed(t) && ks <= t.Keys
    ensures |ms| == |ks|
    ensures forall i :: 0 <= i < |ms| ==> ms[i].barcode in ks
    ensures forall i, j :: 0 <= i < j < |ms| ==> ms[i].barcode != ms[j].barcode
    ensures forall i :: 0 <= i < |ms| ==> ms[i] == Close(t[ms[i].barcode], ms[i].barcode)
    decreases ks
  {
    if ks == {} then []
    else
      var b :| b in ks;
      [Close(t[b], b)] + FlushKeys(t, ks - {b})
  }

  /** Every barcode of ks is flushed. */
  lemma {:induction false} FlushKeysCovers(t: Table, ks: set<string>, b: string)
    requires WellFormed(t) && ks <= t.Keys && b in ks
    ensures exists i :: 0 <= i < |FlushKeys(t, ks)| && FlushKeys(t, ks)[i].barcode == b
    decreases ks
  {
    var b0 :| b0 in ks && FlushKeys(t, ks) == [Close(t[b0], b0)] + FlushKeys(t, ks - {b0});
    if b != b0 {
      FlushKeysCovers(t, ks - {b0}, b);
      var i :| 0 <= i < |FlushKeys(t, ks - {b0})| && FlushKeys(t, ks - {b0})[i].barcode == b;
      assert FlushKeys(t, ks)[i + 1].barcode == b;
    } else {
      assert FlushKeys(t, ks)[0] == Close(t[b0], b0);
    }
  }

  /** Close every open list once. Not in the source. */
  ghost function Flush(t: Table): (ms: seq<Molecule>)
    requires WellFormed(t)
  {
    FlushKeys(t, t.Keys)
  }

  /** The flush yields each open barcode exactly once, each as the valid molecule of its whole list. */
  lemma FlushYieldsEachOpenListOnce(t: Table)
    requires WellFormed(t)
    ensures var ms := Flush(t);
            && |ms| == |t|
            && (forall b :: b in t ==> exists i :: 0 <= i < |ms| && ms[i].barcode == b)
            && (forall i, j :: 0 <= i < j < |ms| ==> ms[i].barcode != ms[j].barcode)
            && (forall i :: 0 <= i < |ms| ==> ms[i].barcode in t && ValidMolecule(ms[i]) && ms[i] == Close(t[ms[i].barcode], ms[i].barcode))
  {
    assert |t.Keys| == |t|;
    forall b | b in t
      ensures exists i :: 0 <= i < |Flush(t)| && Flush(t)[i].barcode == b
    {
      FlushKeysCovers(t, t.Keys, b);
      assert Flush(t) == FlushKeys(t, t.Keys);
    }
  }

  /** Every flushed molecule is valid. */
  lemma FlushValid(t: Table)
    requires WellFormed(t)
    ensures forall i :: 0 <= i < |Flush(t)| ==> ValidMolecule(Flush(t)[i])
  {
    forall i | 0 <= i < |Flush(t)|
      ensures ValidMolecule(Flush(t)[i])
    {
      var m := Flush(t)[i];
      assert m == Close(t[m.barcode], m.barcode);
    }
  }

  /** Flushing yields exactly the entries still open. */
  lemma {:induction false} FlushConservation(t: Table, ks: set<string>)
    requires WellFormed(t) && ks <= t.Keys
    ensures SumReadcounts(FlushKeys(t, ks)) == SumOver(t, ks)
    decreases ks
  {
    if ks != {} {
      var b :| b in ks && FlushKeys(t, ks) == [Close(t[b], b)] + FlushKeys(t, ks - {b});
      FlushConservation(t, ks - {b});
      SumReadcountsAppend([Close(t[b], b)], FlushKeys(t, ks - {b}));
      SumOverRemove(t, ks, b);
    }
  }

  /** The pass followed by a flush of the final table. Not in the source. */
  ghost function RunWithFlush(input: seq<Read>, dist: int, rule: GapRule): seq<Molecule>
  {
    var res := Process(map[], input, dist, rule);
    res.1 + Flush(res.0)
  }

  /** With the flush, the readcounts of all molecules add up to the number of reads, and every molecule is valid. */
  lemma RunWithFlushAccountsForEveryRead(input: seq<Read>, dist: int, rule: GapRule)
    ensures SumReadcounts(RunWithFlush(input, dist, rule)) == |input|
    ensures forall i :: 0 <= i < |RunWithFlush(input, dist, rule)| ==> ValidMolecule(RunWithFlush(input, dist, rule)[i])
  {
    var res := Process(map[], input, dist, rule);
    var fl := Flush(res.0);
    PassFromNothing(input, dist, rule);
    assert SumReadcounts(fl) == TotalOpen(res.0) by {
      FlushConservation(res.0, res.0.Keys);
    }
    SumReadcountsAppend(res.1, fl);
    FlushValid(res.0);
    assert RunWithFlush(input, dist, rule) == res.1 + fl;
  }

  // ---------------------------------------------------------------------
  // The imperative pass
  // ---------------------------------------------------------------------

  /** The `gemcodes` defaultdict, updated in place one read at a time. */
  class BarcodeTable {
    var gemcodes: Table
    const dist: int
    const rule: GapRule

    ghost predicate Valid()
      reads this
    {
      WellFormed(gemcodes)
    }

    constructor (dist: int, rule: GapRule)
      ensures Valid() && gemcodes == map[]
      ensures this.dist == dist && this.rule == rule
    {
      gemcodes := map[];
      this.dist := dist;
      this.rule := rule;
    }

    /** Lines 46-55 for one read: yield the closed molecule, if any, and update this barcode's list. */
    method Step(read: Read) returns (m: Option<Molecule>)
      requires Valid()
      modifies this
      ensures Valid()
      ensures (gemcodes, m) == Transition(old(gemcodes), read, dist, rule)
      ensures forall b :: b in old(gemcodes) && b != read.barcode ==> b in gemcodes && gemcodes[b] == old(gemcodes)[b]
    {
      var gem := read.barcode;
      var c := Coord(read.chr, read.pos);
      if gem in gemcodes && ShouldClose(gemcodes[gem][|gemcodes[gem]| - 1], read, dist, rule) {
        m := Some(Close(gemcodes[gem], gem));
        gemcodes := gemcodes[gem := [c]];
      } else {
        var l := if gem in gemcodes then gemcodes[gem] else [];
        gemcodes := gemcodes[gem := l + [c]];
        m := None;
      }
    }
  }

  /**
   * `get_gemcode_regions`: the molecules yielded, in order, and the lists
   * still open when the reads run out (which the source never yields).
   */
  method GetGemcodeRegions(input: seq<Read>, dist: int, rule: GapRule) returns (molecules: seq<Molecule>, open: Table)
    ensures (open, molecules) == Process(map[], input, dist, rule)
    ensures forall i :: 0 <= i < |molecules| ==> ValidMolecule(molecules[i])
    ensures SumReadcounts(molecules) + TotalOpen(open) == |input|
  {
    var table := new BarcodeTable(dist, rule);
    molecules := [];
    var i := 0;
    while i < |input|
      invariant 0 <= i <= |input|
      invariant table.Valid() && table.dist == dist && table.rule == rule
      invariant (table.gemcodes, molecules) == Process(map[], input[..i], dist, rule)
    {
      ProcessPrefixStep(map[], input, i, dist, rule);
      var m := table.Step(input[i]);
      molecules := molecules + OptionToSeq(m);
      i := i + 1;
    }
    assert input[..i] == input;
    open := table.gemcodes;
    PassFromNothing(input, dist, rule);
  }
}
