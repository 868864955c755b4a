/** A shape: the list of live-cell coordinates decoded from an RLE pattern,
    which can be translated before it is placed on a grid. */
module Shapes {
  import opened Parsers
  import RleEncoding

  /** Why a pattern could not be decoded: its first symbol is malformed
      (at the given input), or some count does not fit in 32 bits. Both
      abort the decoder; here they are returned to the caller. */
  datatype DecodeError = Malformed(at: string) | CountOverflow(digits: string)

  datatype Decoding = Decoded(cells: seq<Cell>) | Rejected(error: DecodeError)

  /** The decoder's meaning: parse the symbols, drop whatever input follows
      them, and run the builder from cursor (0, 0) over an empty list. */
  function Decode(rle: string): Decoding {
    match ParseRleString(rle)
    case Parsed(_, syms) => Decoded(Build(syms, (0, 0), []).1)
    case Failed(at) => Rejected(Malformed(at))
    case Overflow(ds) => Rejected(CountOverflow(ds))
  }

  /** Decodes an RLE pattern by threading one cursor through the builder,
      symbol by symbol. */
  method FromRleString(rle: string) returns (r: Decoding)
    ensures r == Decode(rle)
  {
    match ParseRleString(rle)
    case Failed(at) =>
      r := Rejected(Malformed(at));
    case Overflow(ds) =>
      r := Rejected(CountOverflow(ds));
    case Parsed(_, syms) =>
      var offset: Cell := (0, 0);
      var aliveCells: seq<Cell> := [];
      for k := 0 to |syms|
        invariant Build(syms[k..], offset, aliveCells) == Build(syms, (0, 0), [])
      {
        assert syms[k..][1..] == syms[k + 1..];
        offset, aliveCells := GrowPattern(syms[k], offset, aliveCells);
      }
      assert syms[|syms|..] == [];
      r := Decoded(aliveCells);
  }

  /** Every coordinate translated by (dx, dy), in the same order. */
  function Shifted(cells: seq<Cell>, dx: nat, dy: nat): (r: seq<Cell>)
    ensures |r| == |cells|
    ensures forall i :: 0 <= i < |cells| ==> r[i] == (cells[i].0 + dx, cells[i].1 + dy)
  {
    if cells == [] then [] else [(cells[0].0 + dx, cells[0].1 + dy)] + Shifted(cells[1..], dx, dy)
  }

  /** A shape as the decoder produces it; shifting updates it in place. */
  class Shape {
    var aliveCells: seq<Cell>

    constructor (aliveCells: seq<Cell>)
      ensures this.aliveCells == aliveCells
    {
      this.aliveCells := aliveCells;
    }

    /** Translates every cell of the shape by (dx, dy). */
    method Shift(dx: nat, dy: nat)
      modifies this
      ensures aliveCells == Shifted(old(aliveCells), dx, dy)
    {
      for i := 0 to |aliveCells|
        invariant |aliveCells| == |old(aliveCells)|
        invariant forall k :: 0 <= k < i ==>
          aliveCells[k] == (old(aliveCells)[k].0 + dx, old(aliveCells)[k].1 + dy)
        invariant forall k :: i <= k < |aliveCells| ==> aliveCells[k] == old(aliveCells)[k]
      {
        aliveCells := aliveCells[i := (aliveCells[i].0 + dx, aliveCells[i].1 + dy)];
      }
    }
  }

  /** Shifting by (0, 0) changes nothing. */
  lemma ShiftedByZero(cells: seq<Cell>)
    ensures Shifted(cells, 0, 0) == cells
  {
  }

  /** Two shifts add up: shifting by (a, b) and then by (c, d) is shifting
      by (a + c, b + d). It follows pointwise from the contract of Shifted,
      so automatic induction is switched off. */
  lemma {:induction false} ShiftedTwice(cells: seq<Cell>, a: nat, b: nat, c: nat, d: nat)
    ensures Shifted(Shifted(cells, a, b), c, d) == Shifted(cells, a + c, b + d)
  {
  }

  lemma ShiftedExample()
    ensures Shifted([(0, 0), (1, 1), (13, 1)], 1, 2) == [(1, 2), (2, 3), (14, 3)]
  {
  }

  /** A pattern made of well-formed symbols decodes to the builder's output
      for exactly those symbols, whatever non-symbol text follows them. */
  lemma DecodeIgnoresRemainder(syms: seq<RleSymbol>, t: string)
    requires |syms| >= 1
    requires RleEncoding.CountsFit(syms)
    requires ParseRleSymbol(t).Failed?
    ensures Decode(RleEncoding.EncodeRle(syms) + t) == Decoded(Build(syms, (0, 0), []).1)
  {
    RleEncoding.ParseRleStringRoundTrip(syms, t);
  }

  /** A count that does not fit in 32 bits rejects the whole pattern when
      it comes after any number of symbols that parse. */
  lemma DecodeRejectsOverflow(steps: seq<string>)
    requires |steps| >= 1 && SymbolChain(steps)
    requires ParseRleSymbol(steps[|steps| - 1]).Overflow?
    ensures Decode(steps[0]) == Rejected(CountOverflow(ParseRleSymbol(steps[|steps| - 1]).digits))
  {
    ParseRleStringOverflowAfterRun(steps);
  }

  /** 2^32 written in decimal. */
  lemma TwoToThe32()
    ensures AllDigits("4294967296") && DecimalValue("4294967296") == U32_MAX + 1
  {
    LeadingDigitsOf2To32();
    assert "429496"[..5] == "42949";
    assert DecimalValue("429496") == 429496;
    assert "4294967"[..6] == "429496";
    assert DecimalValue("4294967") == 4294967;
    assert "42949672"[..7] == "4294967";
    assert DecimalValue("42949672") == 42949672;
    assert "429496729"[..8] == "42949672";
    assert DecimalValue("429496729") == 429496729;
    assert "4294967296"[..9] == "429496729";
    assert DecimalValue("4294967296") == 4294967296;
  }

  lemma LeadingDigitsOf2To32()
    ensures AllDigits("42949") && DecimalValue("42949") == 42949
  {
    assert DecimalValue("4") == 4;
    assert "42"[..1] == "4";
    assert DecimalValue("42") == 42;
    assert "429"[..2] == "42";
    assert DecimalValue("429") == 429;
    assert "4294"[..3] == "429";
    assert DecimalValue("4294") == 4294;
    assert "42949"[..4] == "4294";
    assert DecimalValue("42949") == 42949;
  }

  /** A count of 2^32 aborts the symbol parser before the tag is read. */
  lemma SymbolOverflowExample()
    ensures ParseRleSymbol("4294967296o") == Overflow("4294967296")
  {
    var ds := "4294967296";
    TwoToThe32();
    RleEncoding.DigitRunOfDigits(ds, "o");
    assert ds + "o" == "4294967296o";
    assert "4294967296o"[..|ds|] == ds;
  }

  lemma DeadCellBeforeOverflow()
    ensures ParseRleSymbol("b4294967296o") == Parsed("4294967296o", B(1))
  {
    assert "b4294967296o" == RleEncoding.EncodeSymbol(B(1)) + "4294967296o";
    RleEncoding.ParseSymbolRoundTrip(B(1), "4294967296o");
  }

  /** The oversized count on the second symbol aborts the whole parse. */
  lemma ParseOverflowExample()
    ensures ParseRleString("b4294967296o") == Overflow("4294967296")
  {
    SymbolOverflowExample();
    assert ParseMany("4294967296o") == Overflow("4294967296");
    DeadCellBeforeOverflow();
    ParseManyAbortStep("b4294967296o", B(1), "4294967296o");
    ParseRleStringIsRun("b4294967296o");
  }

  /** One dead cell followed by 2^32 live cells: the second count does
      not fit in 32 bits, so the pattern is rejected. */
  lemma DecodeOverflowExample()
    ensures Decode("b4294967296o") == Rejected(CountOverflow("4294967296"))
  {
    ParseOverflowExample();
  }

  lemma ExplicitOneBeforeOverflow()
    ensures ParseRleSymbol("1b4294967296o") == Parsed("4294967296o", B(1))
  {
    RleEncoding.DigitRunOfDigits("1", "b4294967296o");
    assert "1" + "b4294967296o" == "1b4294967296o";
    assert "1b4294967296o"[..1] == "1";
    assert "1b4294967296o"[1..] == "b4294967296o";
  }

  lemma ParseOverflowAfterExplicitOne()
    ensures ParseRleString("1b4294967296o") == Overflow("4294967296")
  {
    SymbolOverflowExample();
    assert ParseMany("4294967296o") == Overflow("4294967296");
    ExplicitOneBeforeOverflow();
    ParseManyAbortStep("1b4294967296o", B(1), "4294967296o");
    ParseRleStringIsRun("1b4294967296o");
  }

  /** The earlier symbols need not be spelled canonically: after `1b` the
      oversized count rejects the pattern just the same. */
  lemma DecodeOverflowAfterExplicitOne()
    ensures Decode("1b4294967296o") == Rejected(CountOverflow("4294967296"))
  {
    ParseOverflowAfterExplicitOne();
  }

  /** An oversized count after a malformed symbol is never read: the run
      stops at the malformed symbol and the rest is dropped. */
  lemma DecodeIgnoresOverflowAfterMalformed()
    ensures Decode("bx4294967296o") == Decoded([])
  {
    assert RleEncoding.EncodeRle([B(1)]) == "b" + RleEncoding.EncodeRle([]);
    assert RleEncoding.EncodeRle([B(1)]) + "x4294967296o" == "bx4294967296o";
    DecodeIgnoresRemainder([B(1)], "x4294967296o");
    var c0: seq<Cell> := [];
    assert c0 + Emitted(B(1), (0, 0)) == c0;
    assert Build([B(1)], (0, 0), c0) == Build([], (1, 0), c0);
  }

  /** A pattern whose first symbol is malformed is rejected. */
  lemma DecodeRejectsBadStart(rle: string)
    requires ParseRleSymbol(rle).Failed?
    ensures Decode(rle).Rejected? && Decode(rle).error.Malformed?
  {
  }

  /** The decoder emits one coordinate per live cell of the parsed symbols,
      and without a `$` of count 0 those coordinates are in strictly
      increasing row-major order. */
  lemma DecodeShape(rle: string)
    requires ParseRleString(rle).Parsed?
    ensures Decode(rle).Decoded?
    ensures |Decode(rle).cells| == AliveCount(ParseRleString(rle).value)
    ensures (forall k :: 0 <= k < |ParseRleString(rle).value| ==> ParseRleString(rle).value[k] != Dollar(0))
            ==> RowMajor(Decode(rle).cells)
  {
    var syms := ParseRleString(rle).value;
    BuildLength(syms, (0, 0), []);
    if forall k :: 0 <= k < |syms| ==> syms[k] != Dollar(0) {
      BuildRowMajor(syms, (0, 0), []);
    }
  }

  /** The builder on the symbols of "2bobo23$4b2o": two dead, one live, one
      dead, one live, down 23 rows, four dead, two live. */
  lemma BuildExample()
    ensures Build([B(2), O(1), B(1), O(1), Dollar(23), B(4), O(2)], (0, 0), []).1
            == [(2, 0), (4, 0), (4, 23), (5, 23)]
  {
  }

  lemma DecodeExample()
    ensures Decode("2bobo23$4b2o") == Decoded([(2, 0), (4, 0), (4, 23), (5, 23)])
  {
    RleEncoding.ParseRleStringExample();
    BuildExample();
  }

  /** Trailing text that does not parse is dropped, not rejected. */
  lemma DecodeDropsTrailingText()
    ensures Decode("2bx") == Decoded([])
  {
    assert RleEncoding.EncodeRle([B(2)]) == "2b" + RleEncoding.EncodeRle([]);
    assert RleEncoding.EncodeRle([B(2)]) + "x" == "2bx";
    DecodeIgnoresRemainder([B(2)], "x");
    var c0: seq<Cell> := [];
    assert c0 + Emitted(B(2), (0, 0)) == c0;
    assert Build([B(2)], (0, 0), c0) == Build([], (2, 0), c0);
  }

  lemma EncodeRepeatExample()
    ensures RleEncoding.EncodeRle([O(1), Dollar(0), O(1)]) == "o0$o"
  {
  }

  lemma BuildRepeatExample()
    ensures Build([O(1), Dollar(0), O(1)], (0, 0), []).1 == [(0, 0), (0, 0)]
  {
    var syms := [O(1), Dollar(0), O(1)];
    var c0: seq<Cell> := [];
    var c1 := [(0, 0)];
    var c2 := [(0, 0), (0, 0)];
    assert c0 + Emitted(O(1), (0, 0)) == c1;
    assert c1 + Emitted(Dollar(0), (1, 0)) == c1;
    assert c1 + Emitted(O(1), (0, 0)) == c2;
    calc {
      Build(syms, (0, 0), c0);
      Build(syms[1..], (1, 0), c1);
      Build(syms[2..], (0, 0), c1);
      Build(syms[3..], (1, 0), c2);
    }
  }

  /** A `$` of count 0 moves the cursor back to column 0 of the same row,
      so the same coordinate can be emitted twice. */
  lemma DecodeRepeatsAfterEmptyRowSkip()
    ensures Decode("o0$o") == Decoded([(0, 0), (0, 0)])
  {
    var syms := [O(1), Dollar(0), O(1)];
    EncodeRepeatExample();
    assert RleEncoding.EncodeRle(syms) + "" == "o0$o";
    DecodeIgnoresRemainder(syms, "");
    BuildRepeatExample();
  }
}
