/** The RLE symbol grammar and the cursor-driven pattern builder.

    An RLE pattern is a run of symbols, each an optional decimal count
    followed by one tag: `b` (a run of dead cells), `o` (a run of live
    cells) or `$` (end of row). The builder walks the symbols with an
    (x, y) cursor and lists the coordinates of the live cells. */
module Parsers {

  /** The largest value of an unsigned 32-bit count. */
  const U32_MAX: nat := 0xFFFF_FFFF

  /** One RLE token. */
  datatype RleSymbol = Dollar(count: nat) | B(count: nat) | O(count: nat)

  /** A cell coordinate (x, y); the builder's cursor has the same shape. */
  type Cell = (nat, nat)

  /** Outcome of a parser: success with the unconsumed input, a recoverable
      error at the given input, or the abort raised when a count's digits
      do not fit in 32 bits (which no combinator recovers from). */
  datatype ParseResult<T> =
    | Parsed(rest: string, value: T)
    | Failed(at: string)
    | Overflow(digits: string)

  predicate IsDigit(c: char) {
    '0' <= c <= '9'
  }

  predicate IsTag(c: char) {
    c == '$' || c == 'b' || c == 'o'
  }

  /** The character that introduces a symbol of this kind. */
  function Tag(s: RleSymbol): char {
    match s
    case Dollar(_) => '$'
    case B(_) => 'b'
    case O(_) => 'o'
  }

  /** The symbol a tag character stands for, with the given count. */
  function Symbol(tag: char, count: nat): (s: RleSymbol)
    requires IsTag(tag)
    ensures Tag(s) == tag && s.count == count
  {
    if tag == '$' then Dollar(count) else if tag == 'b' then B(count) else O(count)
  }

  function DigitValue(c: char): nat
    requires IsDigit(c)
  {
    c as int - '0' as int
  }

  predicate AllDigits(s: string) {
    forall i :: 0 <= i < |s| ==> IsDigit(s[i])
  }

  /** Value of a decimal digit string, most significant digit first;
      leading zeros are allowed. */
  function DecimalValue(ds: string): nat
    requires AllDigits(ds)
  {
    if ds == [] then 0 else 10 * DecimalValue(ds[..|ds| - 1]) + DigitValue(ds[|ds| - 1])
  }

  /** Length of the maximal run of leading decimal digits (possibly empty). */
  function DigitRun(s: string): (n: nat)
    ensures n <= |s|
  {
    if s != [] && IsDigit(s[0]) then 1 + DigitRun(s[1..]) else 0
  }

  /** The digit run is made of digits and is not followed by one. */
  lemma {:induction false} DigitRunIsMaximal(s: string)
    ensures AllDigits(s[..DigitRun(s)])
    ensures DigitRun(s) < |s| ==> !IsDigit(s[DigitRun(s)])
  {
    if s != [] && IsDigit(s[0]) {
      DigitRunIsMaximal(s[1..]);
      assert s[..DigitRun(s)] == [s[0]] + s[1..][..DigitRun(s[1..])];
    }
  }

  /** One symbol: the maximal digit run (count 1 when it is empty), then
      exactly one tag character. The count is converted before the tag is
      looked at, so an oversized count aborts even before a bad tag. On
      success the remainder is what follows the tag. */
  function ParseRleSymbol(input: string): (r: ParseResult<RleSymbol>)
    ensures r.Parsed? ==>
      && |r.rest| < |input|
      && r.rest == input[|input| - |r.rest|..]
      && r.value.count <= U32_MAX
  {
    var n := DigitRun(input);
    var digits := input[..n];
    DigitRunIsMaximal(input);
    if n > 0 && DecimalValue(digits) > U32_MAX then Overflow(digits)
    else if n == |input| || !IsTag(input[n]) then Failed(input[n..])
    else Parsed(input[n + 1..], Symbol(input[n], if n == 0 then 1 else DecimalValue(digits)))
  }

  /** A parsed symbol is a digit string k characters long followed by the
      symbol's tag; its count is 1 when k is 0 and the digits' value
      otherwise. */
  lemma ParsedSymbol(input: string)
    requires ParseRleSymbol(input).Parsed?
    ensures
      var r := ParseRleSymbol(input);
      var k := |input| - |r.rest| - 1;
      && k == DigitRun(input)
      && input[k] == Tag(r.value)
      && AllDigits(input[..k])
      && r.value.count == (if k == 0 then 1 else DecimalValue(input[..k]))
  {
    DigitRunIsMaximal(input);
  }

  /** The two ways a symbol is refused: its digits exceed 32 bits (checked
      first), or the digit run is not followed by a tag. */
  lemma SymbolErrors(input: string)
    ensures AllDigits(input[..DigitRun(input)])
    ensures ParseRleSymbol(input).Overflow? <==>
      DigitRun(input) > 0 && DecimalValue(input[..DigitRun(input)]) > U32_MAX
    ensures ParseRleSymbol(input).Failed? <==>
      && !ParseRleSymbol(input).Overflow?
      && (DigitRun(input) == |input| || !IsTag(input[DigitRun(input)]))
  {
    DigitRunIsMaximal(input);
  }

  /** A suffix of a suffix of s is a suffix of s. */
  lemma SuffixOfSuffix(s: string, t: string, u: string)
    requires |t| <= |s| && t == s[|s| - |t|..]
    requires |u| <= |t| && u == t[|t| - |u|..]
    ensures u == s[|s| - |u|..]
  {
  }

  /** Applies the symbol parser for as long as it succeeds; a recoverable
      error ends the run (and is not an error of the run), an oversized
      count aborts it. */
  function ParseMany(input: string): (r: ParseResult<seq<RleSymbol>>)
    ensures !r.Failed?
    decreases |input|
  {
    match ParseRleSymbol(input)
    case Failed(_) => Parsed(input, [])
    case Overflow(ds) => Overflow(ds)
    case Parsed(rest, sym) =>
      match ParseMany(rest)
      case Parsed(rest', syms) => Parsed(rest', [sym] + syms)
      case Failed(at) => Failed(at)
      case Overflow(ds) => Overflow(ds)
  }

  /** A run of symbols stops at a suffix of its input where no further
      symbol can be parsed. */
  lemma {:induction false} ParseManyStops(input: string)
    ensures ParseMany(input).Parsed? ==>
      var rest := ParseMany(input).rest;
      && |rest| <= |input|
      && rest == input[|input| - |rest|..]
      && ParseRleSymbol(rest).Failed?
    decreases |input|
  {
    match ParseRleSymbol(input)
    case Failed(_) =>
      assert ParseMany(input) == Parsed(input, []);
      assert input[|input| - |input|..] == input;
    case Overflow(_) =>
    case Parsed(rest, _) =>
      ParseManyStops(rest);
      var more := ParseMany(rest);
      if more.Parsed? {
        assert ParseMany(input).rest == more.rest;
        SuffixOfSuffix(input, rest, more.rest);
      }
  }

  /** One or more symbols: fails exactly when the first symbol fails, and
      otherwise is the run of symbols starting with that one. */
  function ParseRleString(input: string): (r: ParseResult<seq<RleSymbol>>)
    ensures r.Failed? <==> ParseRleSymbol(input).Failed?
    ensures r.Parsed? ==>
      && ParseRleSymbol(input).Parsed?
      && |r.value| >= 1
      && r.value[0] == ParseRleSymbol(input).value
  {
    match ParseRleSymbol(input)
    case Failed(at) => Failed(at)
    case _ => ParseMany(input)
  }

  /** A successful pattern parse consumes at least one character and stops
      at a suffix of the input where no further symbol can be parsed: the
      run of symbols is maximal. */
  lemma ParseRleStringStops(input: string)
    requires ParseRleString(input).Parsed?
    ensures
      var rest := ParseRleString(input).rest;
      && |rest| < |input|
      && rest == input[|input| - |rest|..]
      && ParseRleSymbol(rest).Failed?
  {
    ParseManyStops(input);
    var first := ParseRleSymbol(input);
    ParseManyStops(first.rest);
  }

  /** The inputs a run of symbols passes through: each entry but the last
      parses to a symbol whose remainder is the next entry. */
  predicate SymbolChain(steps: seq<string>) {
    forall i :: 0 <= i < |steps| - 1 ==>
      ParseRleSymbol(steps[i]).Parsed? && ParseRleSymbol(steps[i]).rest == steps[i + 1]
  }

  lemma ParseManyAbortStep(input: string, sym: RleSymbol, rest: string)
    requires ParseRleSymbol(input) == Parsed(rest, sym)
    requires ParseMany(rest).Overflow?
    ensures ParseMany(input) == ParseMany(rest)
  {
  }

  /** An oversized count aborts the run wherever it comes in it: after any
      number of symbols that parse, a symbol whose count does not fit in
      32 bits makes the whole repetition abort with that symbol's digits. */
  lemma {:induction false} ParseManyOverflowAfterRun(steps: seq<string>)
    requires |steps| >= 1 && SymbolChain(steps)
    requires ParseRleSymbol(steps[|steps| - 1]).Overflow?
    ensures ParseMany(steps[0]) == Overflow(ParseRleSymbol(steps[|steps| - 1]).digits)
    decreases |steps|
  {
    if |steps| > 1 {
      assert SymbolChain(steps[1..]);
      ParseManyOverflowAfterRun(steps[1..]);
      ParseManyAbortStep(steps[0], ParseRleSymbol(steps[0]).value, steps[1]);
    }
  }

  lemma ParseRleStringIsRun(input: string)
    requires !ParseRleSymbol(input).Failed?
    ensures ParseRleString(input) == ParseMany(input)
  {
  }

  /** The same holds for the whole-pattern parser, also when the oversized
      count is on the very first symbol. */
  lemma ParseRleStringOverflowAfterRun(steps: seq<string>)
    requires |steps| >= 1 && SymbolChain(steps)
    requires ParseRleSymbol(steps[|steps| - 1]).Overflow?
    ensures ParseRleString(steps[0]) == Overflow(ParseRleSymbol(steps[|steps| - 1]).digits)
  {
    ParseManyOverflowAfterRun(steps);
    // Had the first symbol failed, the run would have ended without error.
    assert !ParseRleSymbol(steps[0]).Failed?;
    ParseRleStringIsRun(steps[0]);
  }

  /** Where the cursor stands after a symbol: `b` and `o` move right by the
      count, `$` returns to column 0 and moves down by the count. */
  function Advance(sym: RleSymbol, offset: Cell): Cell {
    match sym
    case B(i) => (offset.0 + i, offset.1)
    case O(i) => (offset.0 + i, offset.1)
    case Dollar(i) => (0, offset.1 + i)
  }

  /** The live cells a symbol contributes: an `o` run with count i yields
      the i consecutive cells starting at the cursor on the cursor's row. */
  function Emitted(sym: RleSymbol, offset: Cell): seq<Cell> {
    if sym.O? then seq(sym.count, k => (offset.0 + k, offset.1)) else []
  }

  /** Expands one symbol against the cursor, appending the live cells it
      stands for. */
  method GrowPattern(sym: RleSymbol, offset: Cell, aliveCells: seq<Cell>)
    returns (offset': Cell, aliveCells': seq<Cell>)
    ensures offset' == Advance(sym, offset)
    ensures aliveCells' == aliveCells + Emitted(sym, offset)
  {
    offset', aliveCells' := offset, aliveCells;
    match sym
    case B(i) =>
      offset' := (offset'.0 + i, offset'.1);
    case O(i) =>
      for j := offset.0 to offset.0 + i
        invariant offset' == (j, offset.1)
        invariant aliveCells' == aliveCells + seq(j - offset.0, k => (offset.0 + k, offset.1))
      {
        aliveCells' := aliveCells' + [offset'];
        offset' := (j + 1, offset'.1);
      }
    case Dollar(i) =>
      offset' := (0, offset'.1 + i);
  }

  /** Three steps from the origin: two dead cells move the cursor right,
      a `$` moves it to the start of the next row, and two live cells are
      emitted there. */
  method GrowPatternSteps() returns (offset: Cell, pattern: seq<Cell>)
    ensures offset == (2, 1) && pattern == [(0, 1), (1, 1)]
  {
    offset, pattern := GrowPattern(B(2), (0, 0), []);
    assert offset == (2, 0) && pattern == [];
    offset, pattern := GrowPattern(Dollar(1), offset, pattern);
    assert offset == (0, 1) && pattern == [];
    offset, pattern := GrowPattern(O(2), offset, pattern);
  }

  /** Folds the builder over a symbol sequence, from the given cursor and
      cell list; yields the final cursor and the final cell list. */
  function Build(syms: seq<RleSymbol>, offset: Cell, cells: seq<Cell>): (Cell, seq<Cell>)
    decreases |syms|
  {
    if syms == [] then (offset, cells)
    else Build(syms[1..], Advance(syms[0], offset), cells + Emitted(syms[0], offset))
  }

  /** Number of live cells a symbol sequence stands for. */
  function AliveCount(syms: seq<RleSymbol>): nat {
    if syms == [] then 0 else (if syms[0].O? then syms[0].count else 0) + AliveCount(syms[1..])
  }

  /** The builder only appends: the cells it started with are a prefix of
      its result, and the cursor never moves up. */
  lemma {:induction false} BuildExtends(syms: seq<RleSymbol>, offset: Cell, cells: seq<Cell>)
    ensures cells <= Build(syms, offset, cells).1
    ensures Build(syms, offset, cells).0.1 >= offset.1
    decreases |syms|
  {
    if syms != [] {
      var cells' := cells + Emitted(syms[0], offset);
      BuildExtends(syms[1..], Advance(syms[0], offset), cells');
    }
  }

  /** The builder emits one coordinate per live cell the symbols stand for. */
  lemma {:induction false} BuildLength(syms: seq<RleSymbol>, offset: Cell, cells: seq<Cell>)
    ensures |Build(syms, offset, cells).1| == |cells| + AliveCount(syms)
    decreases |syms|
  {
    if syms != [] {
      BuildLength(syms[1..], Advance(syms[0], offset), cells + Emitted(syms[0], offset));
    }
  }

  /** Row-major order: a comes before b when it is on an earlier row, or on
      the same row further left. */
  predicate Before(a: Cell, b: Cell) {
    a.1 < b.1 || (a.1 == b.1 && a.0 < b.0)
  }

  predicate RowMajor(cells: seq<Cell>) {
    forall i, j :: 0 <= i < j < |cells| ==> Before(cells[i], cells[j])
  }

  /** Without a `$` of count 0 the builder fills left to right and top to
      bottom: its cells are strictly increasing in row-major order, hence
      pairwise distinct. */
  lemma {:induction false} BuildRowMajor(syms: seq<RleSymbol>, offset: Cell, cells: seq<Cell>)
    requires forall k :: 0 <= k < |syms| ==> syms[k] != Dollar(0)
    requires RowMajor(cells)
    requires forall i :: 0 <= i < |cells| ==> Before(cells[i], offset)
    ensures RowMajor(Build(syms, offset, cells).1)
    decreases |syms|
  {
    if syms != [] {
      var next := Advance(syms[0], offset);
      var run := Emitted(syms[0], offset);
      var cells' := cells + run;
      forall i | 0 <= i < |run|
        ensures run[i] == (offset.0 + i, offset.1) && Before(run[i], next)
      {
      }
      forall i, j | 0 <= i < j < |cells'|
        ensures Before(cells'[i], cells'[j])
      {
        if j >= |cells| && i < |cells| {
          assert Before(cells[i], offset);
          assert cells'[j] == run[j - |cells|];
        }
      }
      forall i | 0 <= i < |cells'|
        ensures Before(cells'[i], next)
      {
        if i < |cells| {
          assert Before(cells[i], offset);
        } else {
          assert cells'[i] == run[i - |cells|];
        }
      }
      BuildRowMajor(syms[1..], next, cells');
    }
  }
}
