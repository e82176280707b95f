/**
 * Lines 50-55 of getMolecules.py exactly as written, including the three
 * points where they depart from their own comments:
 *  - the gap test closes a molecule when the next read is closer than dist;
 *  - the molecule's chromosome is read from entry [1], which raises
 *    IndexError on a one-entry list;
 *  - the reset stores a bare `coords` tuple instead of a list, so the next
 *    read of that barcode raises AttributeError at line 50 (`[-1]` of the
 *    tuple is its integer position, which has no `.chr`).
 * The lemmas below relate this literal step to Molecules.Transition.
 */
module MoleculesAsWritten {
  import opened Wrappers
  import opened Molecules

  /** What `gemcodes[gem]` can hold in the literal code: a list, or the bare tuple of line 52. */
  datatype Slot = Entries(list: seq<Coord>) | Bare(coord: Coord)

  datatype Fault = IndexError | AttributeError

  type SlotTable = map<string, Slot>

  /** One iteration of lines 46-55 as written, with `dist` compared as on line 50. */
  function StepAsWritten(t: SlotTable, read: Read, dist: int): (r: Result<(SlotTable, Option<Molecule>), Fault>)
    ensures r.Failure? ==> read.barcode in t
    ensures read.barcode in t && t[read.barcode].Bare? ==> r == Failure(AttributeError)
    ensures r.Success? ==> r.value.0.Keys == t.Keys + {read.barcode}
    ensures r.Success? ==> forall b :: b in t && b != read.barcode ==> r.value.0[b] == t[b]
    ensures r.Success? && r.value.1.Some? ==>
      && r.value.0[read.barcode] == Bare(Coord(read.chr, read.pos))
      && ValidMolecule(r.value.1.value) && r.value.1.value.readcount >= 2
    ensures r.Success? && r.value.1.None? ==> r.value.0[read.barcode].Entries?
  {
    var gem := read.barcode;
    var c := Coord(read.chr, read.pos);
    if gem in t then
      match t[gem]
      case Bare(_) => Failure(AttributeError)
      case Entries(l) =>
        if |l| == 0 then Failure(IndexError)
        else if l[|l| - 1].chr != read.chr || read.pos - l[|l| - 1].pos < dist then
          if |l| < 2 then Failure(IndexError)
          else Success((t[gem := Bare(c)], Some(Molecule(l[1].chr, MinPos(l), MaxPos(l), gem, |l|))))
        else Success((t[gem := Entries(l + [c])], None))
    else Success((t[gem := Entries([c])], None))
  }

  /**
   * The loop of lines 44-55 as written, from a table of slots: the first
   * fault ends the run. Every molecule it gets to yield has at least two
   * reads, since closing a one-entry list raises instead.
   */
  function ProcessAsWritten(t: SlotTable, input: seq<Read>, dist: int): (r: Result<(SlotTable, seq<Molecule>), Fault>)
    ensures r.Success? ==> |r.value.1| <= |input|
    ensures r.Success? ==> forall i :: 0 <= i < |r.value.1| ==> ValidMolecule(r.value.1[i]) && r.value.1[i].readcount >= 2
    decreases |input|
  {
    if |input| == 0 then Success((t, []))
    else
      var prev := ProcessAsWritten(t, input[..|input| - 1], dist);
      if prev.Failure? then Failure(prev.error)
      else
        var step := StepAsWritten(prev.value.0, input[|input| - 1], dist);
        if step.Failure? then Failure(step.error)
        else Success((step.value.0, prev.value.1 + OptionToSeq(step.value.1)))
  }

  /** The literal table holding the model's lists. */
  function Lift(t: Table): SlotTable
  {
    map b | b in t :: Entries(t[b])
  }

  /** The model's reading of a slot: the bare tuple of line 52 as the one-entry list it stands for. */
  function Lower(s: Slot): seq<Coord>
  {
    match s
    case Entries(l) => l
    case Bare(c) => [c]
  }

  function LowerTable(t: SlotTable): Table
  {
    map b | b in t :: Lower(t[b])
  }

  /**
   * On a table of lists, the literal step fails exactly when it closes a
   * one-entry list (IndexError at line 51); otherwise it yields what the
   * model yields with the literal gap rule, and its table, with the bare
   * tuple read as a one-entry list, is the model's table.
   */
  lemma AsWrittenAgreesUpToCrash(t: Table, read: Read, dist: int)
    requires WellFormed(t)
    ensures var model := Transition(t, read, dist, AsWritten);
            var literal := StepAsWritten(Lift(t), read, dist);
            && (literal.Failure? <==> (model.1.Some? && |t[read.barcode]| == 1))
            && (literal.Failure? ==> literal.error == IndexError)
            && (literal.Success? ==> literal.value.1 == model.1 && LowerTable(literal.value.0) == model.0)
  {
    var b := read.barcode;
    var c := Coord(read.chr, read.pos);
    if b !in t || !ShouldClose(Last(t[b]), read, dist, AsWritten) {
      var l := if b in t then t[b] else [];
      LiteralExtends(t, read, dist);
      LowerLift(t[b := l + [c]]);
    } else if |t[b]| == 1 {
      LiteralClosesOneEntry(t, read, dist);
    } else {
      LiteralCloses(t, read, dist);
      LowerLiftBare(t, b, c);
    }
  }

  /** Where the model appends (or opens) a list, so does the literal step. */
  lemma LiteralExtends(t: Table, read: Read, dist: int)
    requires WellFormed(t)
    requires read.barcode !in t || !ShouldClose(Last(t[read.barcode]), read, dist, AsWritten)
    ensures var l := if read.barcode in t then t[read.barcode] else [];
            StepAsWritten(Lift(t), read, dist) == Success((Lift(t[read.barcode := l + [Coord(read.chr, read.pos)]]), None))
  {
    var b, c := read.barcode, Coord(read.chr, read.pos);
    var l := if b in t then t[b] else [];
    if b !in t {
      assert [] + [c] == [c];
    }
    assert Lift(t)[b := Entries(l + [c])] == Lift(t[b := l + [c]]);
  }

  /** Closing a list of two or more entries succeeds and leaves the bare tuple in its slot. */
  lemma LiteralCloses(t: Table, read: Read, dist: int)
    requires WellFormed(t) && read.barcode in t && |t[read.barcode]| >= 2
    requires ShouldClose(Last(t[read.barcode]), read, dist, AsWritten)
    ensures StepAsWritten(Lift(t), read, dist)
         == Success((Lift(t)[read.barcode := Bare(Coord(read.chr, read.pos))], Some(Close(t[read.barcode], read.barcode))))
  {
    var l := t[read.barcode];
    assert l[1].chr == l[0].chr;
  }

  /** Closing a one-entry list raises IndexError. */
  lemma LiteralClosesOneEntry(t: Table, read: Read, dist: int)
    requires WellFormed(t) && read.barcode in t && |t[read.barcode]| == 1
    requires ShouldClose(Last(t[read.barcode]), read, dist, AsWritten)
    ensures StepAsWritten(Lift(t), read, dist) == Failure(IndexError)
  {
  }

  lemma LowerLift(t: Table)
    ensures LowerTable(Lift(t)) == t
  {
  }

  lemma LowerLiftBare(t: Table, b: string, c: Coord)
    ensures LowerTable(Lift(t)[b := Bare(c)]) == t[b := [c]]
  {
    assert LowerTable(Lift(t)[b := Bare(c)]).Keys == t[b := [c]].Keys;
  }

  /** (b) Closing a one-entry list raises IndexError at line 51. */
  lemma ChrIndexRaisesOnOneEntryList()
    ensures StepAsWritten(map["AAA" := Entries([Coord("chr1", 100)])], Read("chr1", 500, "AAA"), 1000) == Failure(IndexError)
  {
  }

  /** (c) After any close, the next read of the same barcode raises AttributeError at line 50. */
  lemma ResetTupleBreaksNextRead(t: SlotTable, read: Read, dist: int, next: Read)
    requires StepAsWritten(t, read, dist).Success? && StepAsWritten(t, read, dist).value.1.Some?
    requires next.barcode == read.barcode
    ensures StepAsWritten(StepAsWritten(t, read, dist).value.0, next, dist) == Failure(AttributeError)
  {
  }

  /** (c) corrected: in the model the reset leaves the one-entry list of the closing read, which the next read can extend. */
  lemma ResetKeepsOneEntryList(t: Table, read: Read, dist: int, rule: GapRule)
    requires WellFormed(t)
    requires Transition(t, read, dist, rule).1.Some?
    ensures Transition(t, read, dist, rule).0[read.barcode] == [Coord(read.chr, read.pos)]
    ensures OneChromosome(Transition(t, read, dist, rule).0[read.barcode])
  {
  }

  /** Three reads of one barcode on chr1, 400 bp apart. */
  function ThreeNearbyReads(): seq<Read>
  {
    [Read("chr1", 100, "AAA"), Read("chr1", 500, "AAA"), Read("chr1", 900, "AAA")]
  }

  /** A read that closes a one-entry list yields that entry alone and opens a new one-entry list. */
  lemma OneEntryListCloses(b: string, c: Coord, read: Read, dist: int, rule: GapRule)
    requires read.barcode == b && ShouldClose(c, read, dist, rule)
    ensures Transition(map[b := [c]], read, dist, rule)
         == (map[b := [Coord(read.chr, read.pos)]], Some(Molecule(c.chr, c.pos, c.pos, b, 1)))
  {
    assert map[b := [c]][b := [Coord(read.chr, read.pos)]] == map[b := [Coord(read.chr, read.pos)]];
  }

  /** A read that does not close an open list is appended to it. */
  lemma OpenListGrows(b: string, l: seq<Coord>, read: Read, dist: int, rule: GapRule)
    requires OneChromosome(l) && read.barcode == b && !ShouldClose(Last(l), read, dist, rule)
    ensures Transition(map[b := l], read, dist, rule) == (map[b := l + [Coord(read.chr, read.pos)]], None)
  {
    assert map[b := l][b := l + [Coord(read.chr, read.pos)]] == map[b := l + [Coord(read.chr, read.pos)]];
  }

  /**
   * (a) In the model with lines 51-52 corrected but the literal gap test of
   * line 50, reads 400 bp apart under dist 1000 are split into separate
   * molecules. (The literal program raises IndexError on the second of
   * these reads, as ChrIndexRaisesOnOneEntryList shows.)
   */
  lemma LiteralGapSplitsNearbyReads()
    ensures Process(map[], ThreeNearbyReads(), 1000, AsWritten)
         == (map["AAA" := [Coord("chr1", 900)]],
             [Molecule("chr1", 100, 100, "AAA", 1), Molecule("chr1", 500, 500, "AAA", 1)])
  {
    var r0, r1, r2 := Read("chr1", 100, "AAA"), Read("chr1", 500, "AAA"), Read("chr1", 900, "AAA");
    var m1, m2 := Molecule("chr1", 100, 100, "AAA", 1), Molecule("chr1", 500, 500, "AAA", 1);
    NoFlushDropsOpenLists(r0, 1000, AsWritten);
    ProcessSnoc(map[], [r0], r1, 1000, AsWritten);
    OneEntryListCloses("AAA", Coord("chr1", 100), r1, 1000, AsWritten);
    assert [r0] + [r1] == [r0, r1];
    ProcessSnoc(map[], [r0, r1], r2, 1000, AsWritten);
    OneEntryListCloses("AAA", Coord("chr1", 500), r2, 1000, AsWritten);
    assert [r0, r1] + [r2] == ThreeNearbyReads();
    assert [] + [m1] + [m2] == [m1, m2];
  }

  /** (a) corrected: with the documented test the same reads form one open molecule. */
  lemma DocumentedGapMergesNearbyReads()
    ensures Process(map[], ThreeNearbyReads(), 1000, AsDocumented)
         == (map["AAA" := [Coord("chr1", 100), Coord("chr1", 500), Coord("chr1", 900)]], [])
  {
    var r0, r1, r2 := Read("chr1", 100, "AAA"), Read("chr1", 500, "AAA"), Read("chr1", 900, "AAA");
    var c0, c1, c2 := Coord("chr1", 100), Coord("chr1", 500), Coord("chr1", 900);
    NoFlushDropsOpenLists(r0, 1000, AsDocumented);
    ProcessSnoc(map[], [r0], r1, 1000, AsDocumented);
    OpenListGrows("AAA", [c0], r1, 1000, AsDocumented);
    assert [r0] + [r1] == [r0, r1] && [c0] + [c1] == [c0, c1];
    ProcessSnoc(map[], [r0, r1], r2, 1000, AsDocumented);
    OpenListGrows("AAA", [c0, c1], r2, 1000, AsDocumented);
    assert [r0, r1] + [r2] == ThreeNearbyReads() && [c0, c1] + [c2] == [c0, c1, c2];
  }

  /** Two reads of one barcode on chr1, 4900 bp apart, then one on chr2. */
  function DistantReads(): seq<Read>
  {
    [Read("chr1", 100, "AAA"), Read("chr1", 5000, "AAA"), Read("chr2", 0, "AAA")]
  }

  /**
   * (a) The literal program, with all of lines 50-52 as written, merges
   * reads 4900 bp apart under dist 1000: it yields one molecule chr1:100-5000
   * of two reads when the chromosome changes, and raises nothing.
   */
  lemma LiteralGapMergesDistantReads()
    ensures ProcessAsWritten(map[], DistantReads(), 1000)
         == Success((map["AAA" := Bare(Coord("chr2", 0))], [Molecule("chr1", 100, 5000, "AAA", 2)]))
  {
    var r0, r1, r2 := Read("chr1", 100, "AAA"), Read("chr1", 5000, "AAA"), Read("chr2", 0, "AAA");
    var c0, c1 := Coord("chr1", 100), Coord("chr1", 5000);
    assert DistantReads()[..2] == [r0, r1] && [r0, r1][..1] == [r0] && [r0][..0] == [];
    var t1 := map["AAA" := Entries([c0])];
    assert ProcessAsWritten(map[], [r0], 1000) == Success((t1, []));
    var t2 := map["AAA" := Entries([c0, c1])];
    assert [c0] + [c1] == [c0, c1];
    assert t1["AAA" := Entries([c0] + [c1])] == t2;
    assert ProcessAsWritten(map[], [r0, r1], 1000) == Success((t2, []));
    assert MinPos([c0, c1]) == 100 && MaxPos([c0, c1]) == 5000;
    assert t2["AAA" := Bare(Coord("chr2", 0))] == map["AAA" := Bare(Coord("chr2", 0))];
    var m := Molecule("chr1", 100, 5000, "AAA", 2);
    assert StepAsWritten(t2, r2, 1000) == Success((map["AAA" := Bare(Coord("chr2", 0))], Some(m)));
    assert [] + OptionToSeq(Some(m)) == [m];
  }

  /** (a) corrected: with the documented test the 4900 bp gap splits the reads into two molecules. */
  lemma DocumentedGapSplitsDistantReads()
    ensures Process(map[], DistantReads(), 1000, AsDocumented)
         == (map["AAA" := [Coord("chr2", 0)]],
             [Molecule("chr1", 100, 100, "AAA", 1), Molecule("chr1", 5000, 5000, "AAA", 1)])
  {
    var r0, r1, r2 := Read("chr1", 100, "AAA"), Read("chr1", 5000, "AAA"), Read("chr2", 0, "AAA");
    var m1, m2 := Molecule("chr1", 100, 100, "AAA", 1), Molecule("chr1", 5000, 5000, "AAA", 1);
    NoFlushDropsOpenLists(r0, 1000, AsDocumented);
    ProcessSnoc(map[], [r0], r1, 1000, AsDocumented);
    OneEntryListCloses("AAA", Coord("chr1", 100), r1, 1000, AsDocumented);
    assert [r0] + [r1] == [r0, r1];
    ProcessSnoc(map[], [r0, r1], r2, 1000, AsDocumented);
    OneEntryListCloses("AAA", Coord("chr1", 5000), r2, 1000, AsDocumented);
    assert [r0, r1] + [r2] == DistantReads();
    assert [] + [m1] + [m2] == [m1, m2];
  }

  /** (d) Without a flush, the last molecule of every barcode is never yielded: one read yields nothing. */
  lemma NoFlushDropsOpenLists(read: Read, dist: int, rule: GapRule)
    ensures Process(map[], [read], dist, rule).1 == []
    ensures Process(map[], [read], dist, rule).0 == map[read.barcode := [Coord(read.chr, read.pos)]]
  {
    assert [read][..0] == [];
    assert [] + [Coord(read.chr, read.pos)] == [Coord(read.chr, read.pos)];
  }
}
