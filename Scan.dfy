/**
 * The cursor readers of the two plain-text parsers (Extractor/cnf2knf/src/parse.cpp and
 * Tools/check-sat/knf-parse.hpp, which share the same scanners). The file is a text and the
 * cursor a position in it; the current symbol is the character at the position, or EOF at the
 * end, and getc moves the position one on (it stays put at the end). Each reader is proved
 * against the function of Text that reads the unread text text[pos..].
 */
module Scan {
  import opened Text

  /** getc: the position of the next symbol. */
  function Advance(text: string, pos: nat): (r: nat)
    requires pos <= |text|
    ensures r <= |text| && (pos < |text| ==> r == pos + 1) && (pos == |text| ==> r == pos)
    ensures text[r..] == if pos < |text| then text[pos..][1..] else text[pos..]
  {
    if pos < |text| then pos + 1 else pos
  }

  /** The current symbol at a position. */
  function Current(text: string, pos: nat): int
    requires pos <= |text|
  {
    Sym(text[pos..])
  }

  /**
   * ParseInteger: the first symbol is consumed whatever it is, a '-' makes the value
   * negative, a digit starts the value, and the following digits are taken in.
   */
  method ParseInteger(text: string, pos: nat) returns (value: int, next: nat)
    requires pos <= |text|
    ensures next <= |text| && text[next..] == IntegerRest(text[pos..])
    ensures value == IntegerValue(text[pos..])
    ensures pos < |text| ==> pos < next
  {
    if pos == |text| {
      return 0, pos;
    }
    var negative := text[pos] == '-';
    var first := if IsDigit(text[pos] as int) then DigitOf(text[pos]) else 0;
    value := first;
    next := pos + 1;
    while next < |text| && IsDigit(text[next] as int)
      invariant pos < next <= |text|
      invariant Accumulate(text[next..], value) == Accumulate(text[pos + 1..], first)
      invariant SkipDigits(text[next..]) == SkipDigits(text[pos + 1..])
    {
      assert text[next..][1..] == text[next + 1..];
      value := 10 * value + DigitOf(text[next]);
      next := next + 1;
    }
    if negative {
      value := -value;
    }
  }

  /** SkipWhitespace: the cursor moves past white space, newlines included. */
  method SkipWhitespace(text: string, pos: nat) returns (next: nat)
    requires pos <= |text|
    ensures pos <= next <= |text| && text[next..] == SkipSpace(text[pos..])
  {
    next := pos;
    while next < |text| && IsSpace(text[next] as int)
      invariant pos <= next <= |text| && SkipSpace(text[next..]) == SkipSpace(text[pos..])
    {
      assert text[next..][1..] == text[next + 1..];
      next := next + 1;
    }
  }

  /** SkipLinespace: the cursor moves past white space, stopping at a newline. */
  method SkipLinespace(text: string, pos: nat) returns (next: nat)
    requires pos <= |text|
    ensures pos <= next <= |text| && text[next..] == SkipLineSpace(text[pos..])
  {
    next := pos;
    while next < |text| && IsSpace(text[next] as int) && text[next] != '\n'
      invariant pos <= next <= |text| && SkipLineSpace(text[next..]) == SkipLineSpace(text[pos..])
    {
      assert text[next..][1..] == text[next + 1..];
      next := next + 1;
    }
  }

  /** The text after a line: what follows the first newline, or nothing when there is none. */
  function AfterLine(s: string): (r: string)
    ensures |r| <= |s| && (s != [] ==> |r| < |s|)
  {
    var t := ToNewline(s);
    if t == [] then t else t[1..]
  }

  /** The text after a comment line and its newline. */
  lemma {:induction false} AfterCommentLine(line: string, t: string)
    requires '\n' !in line
    ensures AfterLine(line + "\n" + t) == t
    decreases |line|
  {
    if line == [] {
      assert line + "\n" + t == "\n" + t;
    } else {
      assert (line + "\n" + t)[1..] == line[1..] + "\n" + t;
      AfterCommentLine(line[1..], t);
    }
  }

  /** ParseLine: the characters up to the first newline, which is consumed. */
  method ParseLine(text: string, pos: nat) returns (line: string, next: nat)
    requires pos <= |text|
    ensures next <= |text| && text[next..] == AfterLine(text[pos..])
    ensures text[pos..] == line + ToNewline(text[pos..]) && '\n' !in line
    ensures pos < |text| ==> pos < next
  {
    var q := pos;
    while q < |text| && text[q] != '\n'
      invariant pos <= q <= |text| && ToNewline(text[q..]) == ToNewline(text[pos..])
      invariant forall i :: pos <= i < q ==> text[i] != '\n'
    {
      assert text[q..][1..] == text[q + 1..];
      q := q + 1;
    }
    line := text[pos..q];
    assert text[pos..] == line + text[q..];
    next := Advance(text, q);
    if q < |text| {
      assert text[q..][1..] == text[q + 1..];
    }
  }

  /** ParseClause / Parseliterals: integers, each followed by line space, up to the closing 0, which is dropped. */
  method ParseClause(text: string, pos: nat) returns (lits: seq<int>, next: nat)
    requires pos <= |text|
    ensures next <= |text| && text[next..] == LiteralsRest(text[pos..])
    ensures lits == LiteralsOf(text[pos..])
  {
    lits := [];
    next := pos;
    while true
      invariant pos <= next <= |text|
      invariant LiteralsOf(text[pos..]) == lits + LiteralsOf(text[next..])
      invariant LiteralsRest(text[pos..]) == LiteralsRest(text[next..])
      decreases |text| - next
    {
      var v, after := ParseInteger(text, next);
      var n := SkipLinespace(text, after);
      if v == 0 {
        return lits, n;
      }
      lits := lits + [v];
      next := n;
    }
  }
}
