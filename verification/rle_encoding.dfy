/** The canonical RLE writer: each symbol as its decimal count followed by
    its tag, with the count left out when it is 1. It is the partner of the
    parser: parsing what it writes gives back the symbols it was given. */
module RleEncoding {
  import opened Parsers

  function DigitChar(d: nat): (c: char)
    requires d < 10
    ensures IsDigit(c) && DigitValue(c) == d
  {
    ('0' as int + d) as char
  }

  /** Decimal notation of n, without leading zeros. */
  function DecimalString(n: nat): (ds: string)
    ensures |ds| > 0 && AllDigits(ds)
    ensures DecimalValue(ds) == n
  {
    if n < 10 then [DigitChar(n)]
    else
      var ds := DecimalString(n / 10) + [DigitChar(n % 10)];
      assert ds[..|ds| - 1] == DecimalString(n / 10);
      ds
  }

  function EncodeSymbol(s: RleSymbol): string {
    (if s.count == 1 then "" else DecimalString(s.count)) + [Tag(s)]
  }

  function EncodeRle(syms: seq<RleSymbol>): string {
    if syms == [] then "" else EncodeSymbol(syms[0]) + EncodeRle(syms[1..])
  }

  /** The writer distributes over concatenation of symbol sequences. */
  lemma {:induction false} EncodeAppend(xs: seq<RleSymbol>, ys: seq<RleSymbol>)
    ensures EncodeRle(xs + ys) == EncodeRle(xs) + EncodeRle(ys)
    decreases |xs|
  {
    if xs == [] {
      assert xs + ys == ys;
    } else {
      assert (xs + ys)[1..] == xs[1..] + ys;
      EncodeAppend(xs[1..], ys);
    }
  }

  predicate CountsFit(syms: seq<RleSymbol>) {
    forall k :: 0 <= k < |syms| ==> syms[k].count <= U32_MAX
  }

  /** The digit run of a digit string followed by a non-digit is exactly
      that digit string. */
  lemma {:induction false} DigitRunOfDigits(ds: string, rest: string)
    requires AllDigits(ds)
    requires rest == [] || !IsDigit(rest[0])
    ensures DigitRun(ds + rest) == |ds|
    decreases |ds|
  {
    if ds != [] {
      assert (ds + rest)[1..] == ds[1..] + rest;
      DigitRunOfDigits(ds[1..], rest);
    } else {
      assert ds + rest == rest;
    }
  }

  /** Parsing a written symbol gives it back, with the input after it as
      the remainder. */
  lemma ParseSymbolRoundTrip(s: RleSymbol, t: string)
    requires s.count <= U32_MAX
    ensures ParseRleSymbol(EncodeSymbol(s) + t) == Parsed(t, s)
  {
    var ds := if s.count == 1 then "" else DecimalString(s.count);
    var input := EncodeSymbol(s) + t;
    assert input == ds + ([Tag(s)] + t);
    DigitRunOfDigits(ds, [Tag(s)] + t);
    assert input[..|ds|] == ds;
    assert input[|ds|..] == [Tag(s)] + t;
  }

  lemma ParseManyStop(input: string)
    requires ParseRleSymbol(input).Failed?
    ensures ParseMany(input) == Parsed(input, [])
  {
  }

  lemma ParseManyStep(input: string, sym: RleSymbol, rest: string)
    requires ParseRleSymbol(input) == Parsed(rest, sym)
    requires ParseMany(rest).Parsed?
    ensures ParseMany(input) == Parsed(ParseMany(rest).rest, [sym] + ParseMany(rest).value)
  {
  }

  lemma ParseManyAfterSymbol(s: RleSymbol, rest: string, syms: seq<RleSymbol>, t: string)
    requires s.count <= U32_MAX
    requires ParseMany(rest) == Parsed(t, syms)
    ensures ParseMany(EncodeSymbol(s) + rest) == Parsed(t, [s] + syms)
  {
    ParseSymbolRoundTrip(s, rest);
    ParseManyStep(EncodeSymbol(s) + rest, s, rest);
  }

  /** Parsing written symbols followed by text that does not start a
      symbol gives back all the symbols, and stops at that text. */
  lemma {:induction false} ParseManyRoundTrip(syms: seq<RleSymbol>, t: string)
    requires CountsFit(syms)
    requires ParseRleSymbol(t).Failed?
    ensures ParseMany(EncodeRle(syms) + t) == Parsed(t, syms)
    decreases |syms|
  {
    if syms == [] {
      assert EncodeRle(syms) + t == t;
      ParseManyStop(t);
    } else {
      var head, more := EncodeSymbol(syms[0]), EncodeRle(syms[1..]);
      assert EncodeRle(syms) == head + more;
      assert EncodeRle(syms) + t == head + (more + t);
      assert CountsFit(syms[1..]);
      ParseManyRoundTrip(syms[1..], t);
      ParseManyAfterSymbol(syms[0], more + t, syms[1..], t);
      assert [syms[0]] + syms[1..] == syms;
    }
  }

  /** The whole-pattern parser inverts the writer on every non-empty symbol
      sequence, and leaves any trailing text that does not start a symbol
      unconsumed instead of rejecting it. */
  lemma {:induction false} ParseRleStringRoundTrip(syms: seq<RleSymbol>, t: string)
    requires |syms| >= 1
    requires CountsFit(syms)
    requires ParseRleSymbol(t).Failed?
    ensures ParseRleString(EncodeRle(syms) + t) == Parsed(t, syms)
  {
    assert [syms[0]] + syms[1..] == syms;
    var tail := EncodeRle(syms[1..]) + t;
    var input := EncodeRle(syms) + t;
    assert input == EncodeSymbol(syms[0]) + tail;
    ParseSymbolRoundTrip(syms[0], tail);
    ParseManyRoundTrip(syms[1..], t);
  }

  /** Single symbols: a tag alone has count 1, a digit run gives the count,
      and parsing stops right after the tag. */
  lemma ParseSymbolExamples()
    ensures ParseRleSymbol("$bo") == Parsed("bo", Dollar(1))
    ensures ParseRleSymbol("21$bo") == Parsed("bo", Dollar(21))
    ensures ParseRleSymbol("0b") == Parsed("", B(0))
  {
    assert "$bo" == EncodeSymbol(Dollar(1)) + "bo";
    ParseSymbolRoundTrip(Dollar(1), "bo");
    assert DecimalString(21) == "21";
    assert "21$bo" == EncodeSymbol(Dollar(21)) + "bo";
    ParseSymbolRoundTrip(Dollar(21), "bo");
    assert "0b" == EncodeSymbol(B(0)) + "";
    ParseSymbolRoundTrip(B(0), "");
  }

  /** A count of 1 may also be written out; it parses to the same symbol. */
  lemma ParseSymbolExplicitOne()
    ensures ParseRleSymbol("1bo") == Parsed("o", B(1))
  {
  }

  lemma EncodeTailExample()
    ensures EncodeRle([Dollar(23), B(4), O(2)]) == "23$4b2o"
  {
  }

  lemma EncodeHeadExample()
    ensures EncodeRle([B(2), O(1), B(1), O(1)]) == "2bobo"
  {
  }

  lemma EncodeExample()
    ensures EncodeRle([B(2), O(1), B(1), O(1), Dollar(23), B(4), O(2)]) == "2bobo23$4b2o"
  {
    var head, tail := [B(2), O(1), B(1), O(1)], [Dollar(23), B(4), O(2)];
    assert head + tail == [B(2), O(1), B(1), O(1), Dollar(23), B(4), O(2)];
    EncodeAppend(head, tail);
    EncodeHeadExample();
    EncodeTailExample();
  }

  /** A whole pattern, consumed completely. */
  lemma ParseRleStringExample()
    ensures ParseRleString("2bobo23$4b2o") == Parsed("", [B(2), O(1), B(1), O(1), Dollar(23), B(4), O(2)])
  {
    var syms := [B(2), O(1), B(1), O(1), Dollar(23), B(4), O(2)];
    EncodeExample();
    assert EncodeRle(syms) + "" == "2bobo23$4b2o";
    ParseRleStringRoundTrip(syms, "");
  }

  /** The pattern of the parser's own test: four symbols on the first row
      and a skip of 23 rows, consumed completely. */
  lemma ParseRleStringTestPattern()
    ensures ParseRleString("2bobo23$") == Parsed("", [B(2), O(1), B(1), O(1), Dollar(23)])
  {
    var head, tail := [B(2), O(1), B(1), O(1)], [Dollar(23)];
    var syms := head + tail;
    assert syms == [B(2), O(1), B(1), O(1), Dollar(23)];
    EncodeAppend(head, tail);
    EncodeHeadExample();
    assert DecimalString(23) == "23";
    assert EncodeRle(tail) == "23$" + EncodeRle([]);
    assert EncodeRle(syms) + "" == "2bobo23$";
    ParseRleStringRoundTrip(syms, "");
  }
}
