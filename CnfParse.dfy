/**
 * The CNF reader of cnf2knf (Extractor/cnf2knf/src/parse.cpp, parse_cnf). A file is comment
 * lines, a header "p cnf vars clauses" (or "p knf ..."), then clauses "lits 0"; a line
 * starting with 'd' or 'r' (a deletion or restoration, as in a proof) is read and dropped.
 * The reader takes neither the clause count nor the variable count as a check.
 *
 * The functions read the unread text, as Text's scanners do; the methods are the cursor
 * reader, each proved to compute its function. The loop that stores the clauses is
 * CnfExtractor.ReadBody, in Extractor.
 */
module CnfParse {
  import opened Text
  import opened Scan

  // ----- ParseStrings ----------------------------------------------------------------------

  /** The n symbols getc yields from the current one on: the characters, then Eof past the end. */
  function Symbols(s: string, n: nat): (r: seq<int>)
    ensures |r| == n
  {
    seq(n, k requires 0 <= k < n => if k < |s| then s[k] as int else Eof)
  }

  /** The character codes of a word. */
  function Codes(w: string): (r: seq<int>)
    ensures |r| == |w|
  {
    seq(|w|, k requires 0 <= k < |w| => w[k] as int)
  }

  /** The text starts with s1, or with s2 when s2 is as long as s1. */
  predicate Spells(s: string, s1: string, s2: string)
  {
    |s| >= |s1| && (s[..|s1|] == s1 || s[..|s1|] == s2)
  }

  /** The symbols read spell a word exactly when the text starts with it: Eof matches no character. */
  lemma SymbolsSpell(s: string, w: string)
    ensures Symbols(s, |w|) == Codes(w) <==> |s| >= |w| && s[..|w|] == w
  {
    if |s| < |w| {
      assert Symbols(s, |w|)[|s|] != Codes(w)[|s|];
    } else if s[..|w|] != w {
      assert exists k :: 0 <= k < |w| && s[..|w|][k] != w[k];
      var k :| 0 <= k < |w| && s[..|w|][k] != w[k];
      assert Symbols(s, |w|)[k] != Codes(w)[k];
    } else {
      assert forall k :: 0 <= k < |w| ==> Symbols(s, |w|)[k] == Codes(w)[k];
    }
  }

  /**
   * ParseStrings: the current symbol and the |s1| - 1 symbols after it are taken; they must
   * spell s1 or s2. The cursor is left on the last symbol taken.
   */
  method ParseStrings(text: string, pos: nat, s1: string, s2: string) returns (ok: bool, last: nat)
    requires pos <= |text| && |s1| >= 1
    ensures ok <==> Spells(text[pos..], s1, s2)
    ensures last == if pos + |s1| - 1 <= |text| then pos + |s1| - 1 else |text|
  {
    ghost var s := text[pos..];
    var word := [Current(text, pos)];
    last := pos;
    for i := 1 to |s1|
      invariant last == if pos + i - 1 <= |text| then pos + i - 1 else |text|
      invariant word == Symbols(s, i)
    {
      last := Advance(text, last);
      assert Current(text, last) == Symbols(s, i + 1)[i];
      word := word + [Current(text, last)];
      assert word == Symbols(s, i + 1);
    }
    ok := word == Codes(s1) || word == Codes(s2);
    SymbolsSpell(s, s1);
    if |s2| == |s1| {
      SymbolsSpell(s, s2);
    }
  }

  // ----- the header ------------------------------------------------------------------------

  /** How the header loop ends: a header and the body after it, a format word other than cnf/knf, or no header. */
  datatype Head = Found(nvars: int, nclauses: int, body: string) | BadWord | Missing

  /**
   * The header loop from the current symbol: comment lines are passed over; at a 'p' the word
   * after the white space must be cnf or knf, and the two numbers after it are read; any other
   * symbol, or the end, means there is no header.
   */
  function HeadOf(s: string): (r: Head)
    decreases |s|
  {
    if s == [] then Missing
    else if s[0] == 'c' then HeadOf(AfterLine(s))
    else if s[0] != 'p' then Missing
    else
      var w := SkipSpace(s[1..]);
      if !Spells(w, "cnf", "knf") then BadWord
      else
        var n := SkipSpace(w[3..]);
        var m := SkipSpace(IntegerRest(n));
        Found(IntegerValue(n), IntegerValue(m), SkipSpace(IntegerRest(m)))
  }

  /** The header loop of parse_cnf, from the symbol after the leading white space. */
  method ScanHeader(text: string, pos: nat) returns (h: Head, next: nat)
    requires pos <= |text|
    ensures h == HeadOf(text[pos..])
    ensures next <= |text| && (h.Found? ==> h.body == text[next..])
  {
    var c := pos;
    while c < |text|
      invariant pos <= c <= |text| && HeadOf(text[c..]) == HeadOf(text[pos..])
      decreases |text| - c
    {
      if text[c] == 'c' {
        var comment, n := ParseLine(text, c);
        c := n;
        continue;
      }
      if text[c] == 'p' {
        var w := Advance(text, c);
        w := SkipWhitespace(text, w);
        var ok, last := ParseStrings(text, w, "cnf", "knf");
        if !ok {
          return BadWord, c;
        }
        var n := Advance(text, last);
        assert text[n..] == text[w..][3..];
        n := SkipWhitespace(text, n);
        var nvars, a := ParseInteger(text, n);
        var m := SkipWhitespace(text, a);
        var nclauses, b := ParseInteger(text, m);
        next := SkipWhitespace(text, b);
        return Found(nvars, nclauses, text[next..]), next;
      }
      break;
    }
    return Missing, c;
  }

  // ----- the body --------------------------------------------------------------------------

  /**
   * One turn of the body loop at a symbol other than 'c': white space is skipped, a leading
   * 'd' or 'r' and the white space after it make the statement one that is not stored, the
   * literals are read up to their 0, and the white space after them is skipped. The result
   * says whether the statement is stored, its literals, and the text left.
   */
  function StatementOf(s: string): (r: (bool, seq<int>, string))
    requires s != []
    ensures |r.2| < |s|
  {
    var t := SkipSpace(s);
    var added := t == [] || (t[0] != 'd' && t[0] != 'r');
    var u := if added then t else SkipSpace(t[1..]);
    (added, LiteralsOf(u), SkipSpace(LiteralsRest(u)))
  }

  /** The clauses the body loop stores, in file order. */
  function ClausesOf(s: string): seq<seq<int>>
    decreases |s|
  {
    if s == [] then []
    else if s[0] == 'c' then ClausesOf(AfterLine(s))
    else
      var (added, lits, rest) := StatementOf(s);
      (if added then [lits] else []) + ClausesOf(rest)
  }

  /** How parse_cnf ends: it returns 0 with the header's numbers and the clauses stored, -1 on a bad format word, 1 without a header. */
  datatype CnfRead = Read(nvars: int, nclauses: int, added: seq<seq<int>>) | BadFormat | NoHeader

  /** parse_cnf over the whole text: the leading white space, the header loop, the body loop. */
  function ReadCnf(text: string): CnfRead
  {
    match HeadOf(SkipSpace(text))
    case Missing => NoHeader
    case BadWord => BadFormat
    case Found(n, m, body) => Read(n, m, ClausesOf(body))
  }

  /** The value parse_cnf returns. */
  function Status(r: CnfRead): int
  {
    match r
    case Read(_, _, _) => 0
    case BadFormat => -1
    case NoHeader => 1
  }

  /** One turn of the body loop at a symbol other than 'c', with Scan's cursor readers. */
  method ReadStatement(text: string, pos: nat) returns (added: bool, lits: seq<int>, next: nat)
    requires pos < |text|
    ensures next <= |text| && (added, lits, text[next..]) == StatementOf(text[pos..])
  {
    var t := SkipWhitespace(text, pos);
    var u := t;
    added := true;
    if t < |text| && (text[t] == 'd' || text[t] == 'r') {
      added := false;
      u := Advance(text, t);
      u := SkipWhitespace(text, u);
    }
    var after;
    lits, after := ParseClause(text, u);
    next := SkipWhitespace(text, after);
  }

  /**
   * One turn of the body loop: a comment line is passed over (nothing is stored), any other
   * statement is read; the clauses stored from here on are the ones of this turn, then the
   * ones after it.
   */
  method BodyTurn(text: string, pos: nat) returns (added: bool, lits: seq<int>, next: nat)
    requires pos < |text|
    ensures pos < next <= |text|
    ensures ClausesOf(text[pos..]) == (if added then [lits] else []) + ClausesOf(text[next..])
  {
    if text[pos] == 'c' {
      var comment;
      comment, next := ParseLine(text, pos);
      added, lits := false, [];
      assert ClausesOf(text[pos..]) == ClausesOf(text[next..]);
    } else {
      added, lits, next := ReadStatement(text, pos);
    }
  }

  /** Clauses read so far, those of one turn, and those still to read. */
  lemma Regather(read: seq<seq<int>>, more: seq<seq<int>>, rest: seq<seq<int>>)
    ensures read + (more + rest) == (read + more) + rest
  {
  }

  // ----- the writer's side -----------------------------------------------------------------

  /** A text that starts as a written literal list does: with a '-' or a digit, or nothing at all. */
  predicate Opens(s: string) { s == [] || s[0] == '-' || IsDigit(s[0] as int) }

  lemma ShowIntOpens(x: int, tail: string)
    ensures Opens(ShowInt(x) + tail)
  {
    assert (ShowInt(x) + tail)[0] == ShowInt(x)[0];
    if x >= 0 {
      assert IsDigit(ShowNat(x)[0] as int);
    }
  }

  lemma ClosedOpens(lits: seq<int>, tail: string)
    ensures Opens(Closed(lits) + tail)
  {
    if lits != [] {
      ClosedUnfold(lits, tail);
      ShowIntOpens(lits[0], " " + (Closed(lits[1..]) + tail));
    } else {
      assert (Closed(lits) + tail)[0] == '0';
    }
  }

  /** Clause lines, one per literal list: the literals, the closing 0 and a newline. */
  function ClauseLines(ls: seq<seq<int>>): string
  {
    if ls == [] then "" else Closed(ls[0]) + "\n" + ClauseLines(ls[1..])
  }

  lemma {:induction false} ClauseLinesOpen(ls: seq<seq<int>>)
    ensures Opens(ClauseLines(ls))
  {
    if ls != [] {
      assert ClauseLines(ls) == Closed(ls[0]) + ("\n" + ClauseLines(ls[1..]));
      ClosedOpens(ls[0], "\n" + ClauseLines(ls[1..]));
    }
  }

  /** Adding a list at the end adds its line at the end. */
  lemma {:induction false} ClauseLinesSnoc(ls: seq<seq<int>>, l: seq<int>)
    ensures ClauseLines(ls + [l]) == ClauseLines(ls) + (Closed(l) + "\n")
  {
    if ls == [] {
      assert ls + [l] == [l];
    } else {
      assert (ls + [l])[0] == ls[0] && (ls + [l])[1..] == ls[1..] + [l];
      ClauseLinesSnoc(ls[1..], l);
    }
  }

  /** A text that opens as a written list is left alone by the white space skip, and is no comment, deletion or restoration. */
  lemma OpensPlain(s: string)
    requires Opens(s)
    ensures SkipSpace(s) == s && (s != [] ==> s[0] != 'c' && s[0] != 'd' && s[0] != 'r')
  {
  }

  /** The literals of a written line and the white space after them. */
  lemma ReadLineLiterals(l: seq<int>, rest: string)
    requires NonZeroAll(l) && Opens(rest)
    ensures LiteralsOf(Closed(l) + ("\n" + rest)) == l
    ensures SkipSpace(LiteralsRest(Closed(l) + ("\n" + rest))) == rest
  {
    var tail := "\n" + rest;
    ReadShowLits(l, tail);
    assert SkipLineSpace(tail) == tail;
    assert tail[1..] == rest;
    OpensPlain(rest);
  }

  /** One written clause line, read back by one turn of the body loop. */
  lemma ReadClauseLine(l: seq<int>, rest: string, s: string)
    requires NonZeroAll(l) && Opens(rest) && s == Closed(l) + ("\n" + rest)
    ensures s != [] && s[0] != 'c' && StatementOf(s) == (true, l, rest)
  {
    ClosedOpens(l, "\n" + rest);
    OpensPlain(s);
    ReadLineLiterals(l, rest);
  }

  /** The body loop reads written clause lines back as the lists they were written from. */
  lemma {:induction false} ReadClauseLines(ls: seq<seq<int>>)
    requires forall i :: 0 <= i < |ls| ==> NonZeroAll(ls[i])
    ensures ClausesOf(ClauseLines(ls)) == ls
    ensures ClausesFixed(ClauseLines(ls)) == ls
  {
    if ls != [] {
      var rest := ClauseLines(ls[1..]);
      ClauseLinesOpen(ls[1..]);
      assert ClauseLines(ls) == Closed(ls[0]) + ("\n" + rest);
      ReadClauseLine(ls[0], rest, ClauseLines(ls));
      ReadClauseLines(ls[1..]);
      assert [ls[0]] + ls[1..] == ls;
    }
  }

  // ----- blank space after a comment line --------------------------------------------------

  /*
   * The body loop tests for the end of the file before it skips white space, and tests for a
   * comment before that too. After a comment line, white space running to the end of the file
   * is read as a statement: the literal reader meets the end at once, reads a 0, and an empty
   * clause is stored; an indented comment line after a comment line likewise becomes an
   * empty clause. ClausesFixed is the loop as evidently intended: the white space after a
   * comment line is skipped like the white space after a clause.
   */

  /** The body loop as intended. */
  function ClausesFixed(s: string): seq<seq<int>>
    decreases |s|
  {
    if s == [] then []
    else if s[0] == 'c' then ClausesFixed(SkipSpace(AfterLine(s)))
    else
      var (added, lits, rest) := StatementOf(s);
      (if added then [lits] else []) + ClausesFixed(rest)
  }

  lemma {:induction false} AllSpaceSkipped(ws: string)
    requires forall i :: 0 <= i < |ws| ==> IsSpace(ws[i] as int)
    ensures SkipSpace(ws) == []
  {
    if ws != [] {
      AllSpaceSkipped(ws[1..]);
    }
  }

  /** White space alone, read as a statement: an empty clause, and nothing left. */
  lemma BlankStatement(ws: string)
    requires ws != [] && forall i :: 0 <= i < |ws| ==> IsSpace(ws[i] as int)
    ensures ws[0] != 'c' && StatementOf(ws) == (true, [], [])
  {
    AllSpaceSkipped(ws);
    assert LiteralsOf([]) == [] && LiteralsRest([]) == [];
  }

  /** As written, a comment line with white space after it at the end of the file stores an empty clause; as intended it stores nothing. */
  lemma BlankAfterLastComment(line: string, ws: string, s: string)
    requires '\n' !in line && ws != [] && forall i :: 0 <= i < |ws| ==> IsSpace(ws[i] as int)
    requires s == ("c" + line) + "\n" + ws
    ensures ClausesOf(s) == [[]]
    ensures ClausesFixed(s) == []
  {
    AfterCommentLine("c" + line, ws);
    assert s[0] == 'c';
    BlankStatement(ws);
    AllSpaceSkipped(ws);
    assert ClausesOf(ws) == [[]] + ClausesOf([]);
  }

  /** As intended, a comment line stores nothing, whatever white space follows it. */
  lemma CommentStoresNothing(line: string, s: string)
    requires '\n' !in line
    ensures ClausesFixed("c" + line + "\n" + s) == ClausesFixed(SkipSpace(s))
  {
    assert "c" + line + "\n" + s == ("c" + line) + "\n" + s;
    AfterCommentLine("c" + line, s);
  }
}
