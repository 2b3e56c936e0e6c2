/**
 * The KNF reader of the solution checker (Tools/check-sat/knf-parse.hpp, PlainTextKnfParser).
 * A file is comment lines, a header "p [w](cnf|knf|card) vars constraints [top weight]" and
 * then one constraint per line: a clause "lits 0", a klause "k bound lits 0", a guarded klause
 * "g bound guard lits 0", each preceded by its weight in the weighted formats; the WCARD
 * format writes "lits <= b", "lits < b", "lits >= b" or "lits > b", which the reader turns
 * into an at-least constraint. The reader hands every constraint to its observer (the
 * checker), here collected as a list of statements.
 *
 * The spec functions below read the unread text (as Text's scanners do); the methods at the
 * end are the cursor-based reader, proved to compute them.
 */
module KnfParse {
  import opened Lits
  import opened Text
  import opened Scan

  /** Input_Type, in the order of its declaration. */
  datatype InputType = Unknown | Cnf | Knf | Wcnf | Wknf | Wcard | Cai | Lsecnf

  /**
   * Why reading stops. All but Diverges are exits of the program (an error message and
   * exit(1), or a failed assert); Diverges is the header loop spinning on a symbol it never
   * consumes.
   */
  datatype Failure = IncorrectHeader | AssertionFails | NoHeader | TypeMismatch | CountMismatch | Diverges

  /** What DetermineHeader reports: whether a header was recognised, its numbers and the type it names. */
  datatype HeaderInfo = HeaderInfo(found: bool, maxVar: int, maxCls: int, maxWeight: int, kind: InputType)

  /** One constraint as the observer receives it. */
  datatype Stmt = ClauseSt(lits: seq<int>, weight: int) | CardSt(lits: seq<int>, bound: int, weight: int, guard: int)

  /** A reading step: a value and the text left, or a failure. */
  datatype Step<T> = Read(value: T, rest: string) | Failed(why: Failure)

  /** The whole file: the header and the statements in file order, or why it was refused. */
  datatype KnfFile = Parsed(header: HeaderInfo, stmts: seq<Stmt>) | Rejected(why: Failure)

  /** The comparisons of the WCARD format; Plain is a line without one. */
  datatype Relation = Le | Lt | Ge | Gt | Plain

  function Code(c: char): int { c as int }

  // ----- the header ----------------------------------------------------------------------

  /** The optional "ard" after the 'c' of "card": whether it was there, and the text left. */
  function CardPart(s: string): (r: (bool, string))
    ensures |r.1| <= |s|
  {
    if Sym(s) != Code('a') then (false, s)
    else
      var t := s[1..];
      if Sym(t) != Code('r') then (false, SkipSpace(t))
      else
        var u := t[1..];
        if Sym(u) != Code('d') then (false, SkipSpace(u)) else (true, SkipSpace(u[1..]))
  }

  /** The "nf" of "cnf" / "knf": whether it was there, and the text left. */
  function NfPart(s: string): (r: (bool, string))
    ensures |r.1| <= |s|
  {
    if Sym(s) != Code('n') then (false, s)
    else
      var t := s[1..];
      if Sym(t) != Code('f') then (false, t) else (true, SkipSpace(t[1..]))
  }

  /** The type a header names. */
  function KindOf(weighted: bool, knf: bool, card: bool): InputType
  {
    if weighted then (if knf then Wknf else if card then Wcard else Wcnf)
    else if knf then Knf else Cnf
  }

  /** The header numbers after the type word: variables, constraints and, when weighted, the top weight; each must be at least 1. */
  function Numbers(s: string, weighted: bool): (r: Step<(int, int, int)>)
    ensures r.Read? ==> |r.rest| <= |s|
    ensures r.Failed? ==> r.why == AssertionFails
  {
    var maxVar := IntegerValue(s);
    if maxVar < 1 then Failed(AssertionFails)
    else
      var t := SkipSpace(IntegerRest(s));
      var maxCls := IntegerValue(t);
      if maxCls < 1 then Failed(AssertionFails)
      else
        var u := SkipSpace(IntegerRest(t));
        if !weighted then Read((maxVar, maxCls, -1), SkipSpace(u))
        else
          var maxWeight := IntegerValue(u);
          if maxWeight < 1 then Failed(AssertionFails)
          else Read((maxVar, maxCls, maxWeight), SkipSpace(SkipSpace(IntegerRest(u))))
  }

  /** DetermineHeader, reading from the symbol after "p" and its white space. */
  function HeaderOf(s: string): (r: Step<HeaderInfo>)
    ensures r.Read? ==> |r.rest| <= |s|
    ensures r.Failed? ==> r.why == IncorrectHeader || r.why == AssertionFails
  {
    var weighted := Sym(s) == Code('w');
    var s1 := if weighted then s[1..] else s;
    var knf := Sym(s1) == Code('k');
    if !knf && Sym(s1) != Code('c') then Failed(IncorrectHeader)
    else
      var (card, s2) := CardPart(s1[1..]);
      var (nf, s3) := NfPart(s2);
      var kind := KindOf(weighted, knf, card);
      if !(card || nf) then Read(HeaderInfo(false, 0, 0, -1, kind), s3)
      else
        match Numbers(s3, weighted)
        case Failed(w) => Failed(w)
        case Read((v, c, w), t) => Read(HeaderInfo(true, v, c, w, kind), t)
  }

  /**
   * The loop before the header: comment lines are read, a 'p' line is the header, the end
   * of the file means no header, and on any other symbol the loop makes no progress.
   */
  function HeaderScan(s: string): (r: Step<HeaderInfo>)
    ensures r.Read? ==> |r.rest| <= |s| && r.value.found
    decreases |s|
  {
    if s == [] then Failed(NoHeader)
    else if s[0] == 'c' then HeaderScan(AfterLine(s))
    else if s[0] == 'p' then
      match HeaderOf(SkipSpace(s[1..]))
      case Failed(w) => Failed(w)
      case Read(h, t) => if h.found then Read(h, t) else Failed(NoHeader)
    else Failed(Diverges)
  }

  // ----- one constraint ----------------------------------------------------------------------

  /** Some digit of a run of leading digits is not 0. */
  predicate NonZeroDigit(s: string)
  {
    s != [] && IsDigit(s[0] as int) && (s[0] != '0' || NonZeroDigit(s[1..]))
  }

  /** What ParseDouble leaves after the integer part: a '.' and the digits after it, when present. */
  function AfterFraction(s: string): (r: string)
    ensures |r| <= |s|
  {
    if Sym(s) == Code('.') then SkipDigits(s[1..]) else s
  }

  /** ParseDouble reads a negative weight: a '-' and some digit, before or after the point, is not 0. */
  predicate NegativeWeight(s: string)
  {
    Sym(s) == Code('-') &&
    (IntegerValue(s) != 0 || (Sym(IntegerRest(s)) == Code('.') && NonZeroDigit(IntegerRest(s)[1..])))
  }

  /** The text after a weight and its white space. */
  function AfterWeight(s: string): (r: string)
    ensures |r| <= |s| && (s != [] ==> |r| < |s|)
  {
    SkipSpace(AfterFraction(IntegerRest(s)))
  }

  /** The integers of a WCARD line: each followed by line space, up to a 0 or a symbol that cannot start a number. */
  function TermsOf(s: string): (r: (seq<int>, string))
    ensures |r.0| >= 1 && |r.1| <= |s| && (s != [] ==> |r.1| < |s|)
    decreases |s|
  {
    var v := IntegerValue(s);
    var t := SkipLineSpace(IntegerRest(s));
    if s == [] || v == 0 || !(Sym(t) == Code('-') || IsDigit(Sym(t))) then ([v], t)
    else
      var (vs, u) := TermsOf(t);
      ([v] + vs, u)
  }

  /** One integer of TermsOf: the last one, or the first of more. */
  lemma TermsStep(s: string)
    ensures var v, t := IntegerValue(s), SkipLineSpace(IntegerRest(s));
      if s == [] || v == 0 || !(Sym(t) == Code('-') || IsDigit(Sym(t))) then TermsOf(s) == ([v], t)
      else TermsOf(s) == ([v] + TermsOf(t).0, TermsOf(t).1)
  {
  }

  /** The at-least form of a comparison over the literals read. */
  function Normalized(vs: seq<int>, rel: Relation, b: int): Constraint
  {
    match rel
    case Le => Constraint(Negate(vs), |vs| - b)
    case Lt => Constraint(Negate(vs), |vs| - b + 1)
    case Ge => Constraint(vs, b)
    case Gt => Constraint(vs, b + 1)
    case Plain => Constraint(if vs == [] then [] else vs[..|vs| - 1], 1)
  }

  /** The comparison after the integers, the text where its number starts, and whether there is one. */
  function RelationOf(t: string): (r: (Relation, string))
    ensures |r.1| <= |t|
  {
    if Sym(t) == Code('<') then
      var u := t[1..];
      if Sym(u) == Code('=') then (Le, SkipSpace(u[1..])) else (Lt, SkipSpace(u))
    else if Sym(t) == Code('>') then
      var u := t[1..];
      if Sym(u) == Code('=') then (Ge, SkipSpace(u[1..])) else (Gt, SkipSpace(u))
    else (Plain, t)
  }

  /** ParseConstraint: the integers, the comparison and its number, as one at-least constraint, and the text left. */
  function ConstraintOf(s: string): (r: (Constraint, string))
    ensures |r.1| <= |s| && (s != [] ==> |r.1| < |s|)
  {
    var (vs, t) := TermsOf(s);
    var (rel, u) := RelationOf(t);
    if rel == Plain then (Normalized(vs, Plain, 0), SkipLineSpace(u))
    else (Normalized(vs, rel, IntegerValue(u)), SkipLineSpace(IntegerRest(u)))
  }

  /** The literal part of a line, once any weight, 'k'/'g' prefix and bound are read. */
  function LinePart(t: string, kind: InputType, weight: int, bound: int, guard: int, card: bool): (r: Step<(Option<Stmt>, int)>)
    ensures r.Read? && |r.rest| <= |t| && (t != [] ==> |r.rest| < |t|)
  {
    if kind != Wcard then
      var lits := LiteralsOf(t);
      if card then Read((Some(CardSt(lits, bound, weight, guard)), 0), LiteralsRest(t))
      else Read((Some(ClauseSt(lits, weight)), guard), LiteralsRest(t))
    else
      var (c, rest) := ConstraintOf(t);
      if c.lits != [] then Read((Some(CardSt(c.lits, c.bound, weight, guard)), 0), rest)
      else Read((None, guard), rest)
  }

  /**
   * One statement of the body loop, from a symbol other than 'c': the weight when weights are
   * read, then a 'k' bound, a 'g' bound and guard, a CAI bound, or nothing before the literals.
   * It reports the statement (none for an empty WCARD line) and the guard in force after it.
   */
  function StatementOf(s: string, kind: InputType, weighted: bool, guard: int): (r: Step<(Option<Stmt>, int)>)
    requires s != []
    ensures r.Read? ==> |r.rest| < |s|
    ensures r.Failed? ==> r.why == AssertionFails
  {
    if weighted && NegativeWeight(s) then Failed(AssertionFails)
    else
      var weight := if weighted then IntegerValue(s) else 0;
      var s1 := if weighted then AfterWeight(s) else s;
      if Sym(s1) == Code('k') || Sym(s1) == Code('g') then
        var t := SkipSpace(s1[1..]);
        var bound := IntegerValue(t);
        if bound < 1 then Failed(AssertionFails)
        else
          var t1 := SkipSpace(IntegerRest(t));
          if Sym(s1) == Code('k') then LinePart(t1, kind, weight, bound, guard, true)
          else LinePart(SkipSpace(IntegerRest(t1)), kind, weight, bound, IntegerValue(t1), true)
      else if kind == Cai then
        var bound := IntegerValue(s1);
        if bound < 1 then Failed(AssertionFails)
        else LinePart(SkipSpace(IntegerRest(s1)), kind, weight, bound, guard, true)
      else LinePart(s1, kind, weight, 0, guard, false)
  }

  /** The statements read, put in front of what a later part of the file yields. */
  function Prepend(sts: seq<Stmt>, r: Step<seq<Stmt>>): Step<seq<Stmt>>
  {
    match r
    case Failed(w) => Failed(w)
    case Read(more, t) => Read(sts + more, t)
  }

  /** The body loop: comments are skipped, every other line is one statement followed by white space. */
  function BodyOf(s: string, kind: InputType, weighted: bool, guard: int): (r: Step<seq<Stmt>>)
    decreases |s|
  {
    if s == [] then Read([], s)
    else if s[0] == 'c' then BodyOf(AfterLine(s), kind, weighted, guard)
    else
      match StatementOf(s, kind, weighted, guard)
      case Failed(w) => Failed(w)
      case Read((st, g), t) =>
        Prepend(if st.Some? then [st.value] else [], BodyOf(SkipSpace(t), kind, weighted, g))
  }

  /** Whether weights are read: the weighted formats and CAI. */
  predicate WeightCheck(kind: InputType) { kind == Wcnf || kind == Wknf || kind == Cai || kind == Wcard }

  /** The type the body is read as: the requested one, or the header's when none was requested. */
  function Effective(parsed: InputType, input: InputType): InputType
  {
    if input == Unknown then parsed else input
  }

  /**
   * Parse: white space, the header loop, the type check against the requested type (CAI
   * accepts any header), the weight check, the body, and the count check.
   */
  function ReadKnf(text: string, input: InputType): KnfFile
  {
    match HeaderScan(SkipSpace(text))
    case Failed(w) => Rejected(w)
    case Read(h, body) =>
      if input != Unknown && input != Cai && h.kind != input then Rejected(TypeMismatch)
      else
        var kind := Effective(h.kind, input);
        if WeightCheck(kind) && h.maxWeight < 0 then Rejected(AssertionFails)
        else
          match BodyOf(body, kind, WeightCheck(kind), 0)
          case Failed(w) => Rejected(w)
          case Read(sts, _) => if |sts| != h.maxCls then Rejected(CountMismatch) else Parsed(h, sts)
  }

  // ----- what the reader yields ------------------------------------------------------------

  /** The comparison a WCARD line states between the number of its true literals and its number. */
  predicate Compares(rel: Relation, count: int, b: int)
    requires rel != Plain
  {
    match rel
    case Le => count <= b
    case Lt => count < b
    case Ge => count >= b
    case Gt => count > b
  }

  /**
   * Turning a comparison into an at-least constraint keeps its meaning: at most b true
   * literals is at least |vs| - b false ones, which the negated literals count.
   */
  lemma NormalizedMeaning(vs: seq<int>, rel: Relation, b: int, a: Assignment)
    requires NonZero(vs) && rel != Plain
    ensures AtLeast(Normalized(vs, rel, b).lits, Normalized(vs, rel, b).bound, a) <==> Compares(rel, CountTrue(vs, a), b)
  {
    if rel == Le || rel == Lt {
      CountNegate(vs, a);
    }
  }

  /**
   * What a statement handed to the checker looks like: outside WCARD its literals are not 0
   * and a klause bound is at least 1; a WCARD statement is a klause with some literal; CAI
   * lines are klauses; the weight is at least 0 when weights are read and 0 otherwise.
   */
  predicate Shaped(st: Stmt, kind: InputType, weighted: bool)
  {
    (kind != Wcard ==> NonZero(st.lits)) &&
    (st.CardSt? && kind != Wcard ==> st.bound >= 1) &&
    (kind == Wcard ==> st.CardSt? && st.lits != []) &&
    (kind == Cai ==> st.CardSt?) &&
    (if weighted then st.weight >= 0 else st.weight == 0)
  }

  lemma LinePartShape(t: string, kind: InputType, weighted: bool, weight: int, bound: int, guard: int, card: bool)
    requires card && kind != Wcard ==> bound >= 1
    requires kind == Cai ==> card
    requires if weighted then weight >= 0 else weight == 0
    ensures var r := LinePart(t, kind, weight, bound, guard, card);
      r.Read? && r.value.0.Some? ==> Shaped(r.value.0.value, kind, weighted)
  {
    LiteralsNonZero(t);
  }

  lemma StatementShape(s: string, kind: InputType, weighted: bool, guard: int)
    requires s != []
    ensures var r := StatementOf(s, kind, weighted, guard);
      r.Read? && r.value.0.Some? ==> Shaped(r.value.0.value, kind, weighted)
  {
    if weighted && NegativeWeight(s) {
      return;
    }
    IntegerSign(s);
    var weight := if weighted then IntegerValue(s) else 0;
    assert if weighted then weight >= 0 else weight == 0;
    var s1 := if weighted then AfterWeight(s) else s;
    if Sym(s1) == Code('k') || Sym(s1) == Code('g') {
      var t := SkipSpace(s1[1..]);
      if IntegerValue(t) >= 1 {
        var t1 := SkipSpace(IntegerRest(t));
        if Sym(s1) == Code('k') {
          LinePartShape(t1, kind, weighted, weight, IntegerValue(t), guard, true);
        } else {
          LinePartShape(SkipSpace(IntegerRest(t1)), kind, weighted, weight, IntegerValue(t), IntegerValue(t1), true);
        }
      }
    } else if kind == Cai {
      if IntegerValue(s1) >= 1 {
        LinePartShape(SkipSpace(IntegerRest(s1)), kind, weighted, weight, IntegerValue(s1), guard, true);
      }
    } else {
      LinePartShape(s1, kind, weighted, weight, 0, guard, false);
    }
  }

  /** Every statement of sts is shaped. */
  predicate AllShaped(sts: seq<Stmt>, kind: InputType, weighted: bool)
  {
    forall i :: 0 <= i < |sts| ==> Shaped(sts[i], kind, weighted)
  }

  /** Every statement the body yields is shaped. */
  lemma {:induction false} BodyShape(s: string, kind: InputType, weighted: bool, guard: int)
    ensures var r := BodyOf(s, kind, weighted, guard);
      r.Read? ==> AllShaped(r.value, kind, weighted)
    decreases |s|
  {
    if s == [] {
    } else if s[0] == 'c' {
      BodyShape(AfterLine(s), kind, weighted, guard);
      assert BodyOf(s, kind, weighted, guard) == BodyOf(AfterLine(s), kind, weighted, guard);
    } else {
      StatementShape(s, kind, weighted, guard);
      match StatementOf(s, kind, weighted, guard)
      case Failed(_) =>
      case Read((st, g), t) =>
        BodyShape(SkipSpace(t), kind, weighted, g);
        var later := BodyOf(SkipSpace(t), kind, weighted, g);
        if later.Read? {
          var one := if st.Some? then [st.value] else [];
          assert BodyOf(s, kind, weighted, guard).value == one + later.value;
          ShapedAppend(one, later.value, kind, weighted);
        }
    }
  }

  lemma ShapedAppend(one: seq<Stmt>, rest: seq<Stmt>, kind: InputType, weighted: bool)
    requires AllShaped(one, kind, weighted) && AllShaped(rest, kind, weighted)
    ensures AllShaped(one + rest, kind, weighted)
  {
    forall i | 0 <= i < |one + rest| ensures Shaped((one + rest)[i], kind, weighted) {
      if i >= |one| {
        assert (one + rest)[i] == rest[i - |one|];
      }
    }
  }

  /**
   * A header read has at least one variable and one constraint, and a top weight of at least 1
   * exactly when it names a weighted type; otherwise its top weight stays -1.
   */
  predicate HeaderShaped(h: HeaderInfo)
  {
    h.found && h.maxVar >= 1 && h.maxCls >= 1 &&
    (if h.kind == Wcnf || h.kind == Wknf || h.kind == Wcard then h.maxWeight >= 1 else h.maxWeight == -1)
  }

  lemma {:induction false} HeaderScanShape(s: string)
    ensures HeaderScan(s).Read? ==> HeaderShaped(HeaderScan(s).value)
    decreases |s|
  {
    if s != [] && s[0] == 'c' {
      HeaderScanShape(AfterLine(s));
    }
  }

  /**
   * A file the reader accepts: its header is shaped, the type read is the one requested (any
   * for CAI), weights are read only under a top weight, the statements are as many as the header
   * announces, and each is shaped.
   */
  lemma ReadKnfShape(text: string, input: InputType)
    ensures var r := ReadKnf(text, input);
      r.Parsed? ==>
        var kind := Effective(r.header.kind, input);
        HeaderShaped(r.header) &&
        (input != Unknown && input != Cai ==> r.header.kind == input) &&
        (WeightCheck(kind) ==> r.header.maxWeight >= 1) &&
        |r.stmts| == r.header.maxCls &&
        forall i :: 0 <= i < |r.stmts| ==> Shaped(r.stmts[i], kind, WeightCheck(kind))
  {
    HeaderScanShape(SkipSpace(text));
    match HeaderScan(SkipSpace(text))
    case Failed(_) =>
    case Read(h, body) =>
      var kind := Effective(h.kind, input);
      BodyShape(body, kind, WeightCheck(kind), 0);
      var r := ReadKnf(text, input);
      if r.Parsed? {
        assert r.stmts == BodyOf(body, kind, WeightCheck(kind), 0).value;
        assert AllShaped(r.stmts, kind, WeightCheck(kind));
      }
  }

  // ----- white space after a comment line ---------------------------------------------------

  /*
   * Both loops of Parse read a comment line up to and including its newline and then test the
   * next symbol without skipping white space first. Before the header, a blank line (or an
   * indented line) after a comment leaves the loop spinning on that symbol for ever; in the body,
   * it is read as a clause whose first integer is 0, so an empty clause is handed over and
   * counted. Everywhere else in the file white space between lines is skipped. The definitions
   * below read the file as evidently intended: the white space after a comment line is skipped
   * too, and a stray symbol before the header means there is no header.
   */

  /** The header loop as intended: it never spins. */
  function HeaderScanFixed(s: string): (r: Step<HeaderInfo>)
    ensures r.Read? ==> |r.rest| <= |s| && r.value.found
    ensures r != Failed(Diverges)
    decreases |s|
  {
    if s == [] then Failed(NoHeader)
    else if s[0] == 'c' then HeaderScanFixed(SkipSpace(AfterLine(s)))
    else if s[0] == 'p' then
      match HeaderOf(SkipSpace(s[1..]))
      case Failed(w) => Failed(w)
      case Read(h, t) => if h.found then Read(h, t) else Failed(NoHeader)
    else Failed(NoHeader)
  }

  /** Wherever the loop as written does not spin, it reads what the intended loop reads. */
  lemma {:induction false} HeaderScanFixedAgrees(s: string)
    requires HeaderScan(s) != Failed(Diverges)
    ensures HeaderScanFixed(s) == HeaderScan(s)
    decreases |s|
  {
    if s != [] && s[0] == 'c' {
      var t := AfterLine(s);
      assert SkipSpace(t) == t;
      HeaderScanFixedAgrees(t);
    }
  }

  /** A comment line and the white space after it are passed over as if absent. */
  lemma HeaderCommentSkipped(line: string, t: string)
    requires line != [] && line[0] == 'c' && '\n' !in line
    ensures HeaderScanFixed(line + "\n" + t) == HeaderScanFixed(SkipSpace(t))
  {
    AfterCommentLine(line, t);
  }

  /** The body loop as intended: white space after a comment line is skipped. */
  function BodyOfFixed(s: string, kind: InputType, weighted: bool, guard: int): (r: Step<seq<Stmt>>)
    ensures r.Failed? ==> r.why == AssertionFails
    decreases |s|
  {
    if s == [] then Read([], s)
    else if s[0] == 'c' then BodyOfFixed(SkipSpace(AfterLine(s)), kind, weighted, guard)
    else
      match StatementOf(s, kind, weighted, guard)
      case Failed(w) => Failed(w)
      case Read((st, g), t) =>
        Prepend(if st.Some? then [st.value] else [], BodyOfFixed(SkipSpace(t), kind, weighted, g))
  }

  /** A comment line and the white space after it add no statement. */
  lemma BodyCommentSkipped(line: string, t: string, kind: InputType, weighted: bool, guard: int)
    requires line != [] && line[0] == 'c' && '\n' !in line
    ensures BodyOfFixed(line + "\n" + t, kind, weighted, guard) == BodyOfFixed(SkipSpace(t), kind, weighted, guard)
  {
    AfterCommentLine(line, t);
  }

  /** Wherever no comment line is followed by white space, the body as written reads what the intended body reads. */
  lemma {:induction false} BodyOfFixedAgrees(s: string, kind: InputType, weighted: bool, guard: int)
    requires TightComments(s, kind, weighted, guard)
    ensures BodyOfFixed(s, kind, weighted, guard) == BodyOf(s, kind, weighted, guard)
    decreases |s|
  {
    if s == [] {
    } else if s[0] == 'c' {
      assert SkipSpace(AfterLine(s)) == AfterLine(s);
      BodyOfFixedAgrees(AfterLine(s), kind, weighted, guard);
    } else {
      match StatementOf(s, kind, weighted, guard)
      case Failed(_) =>
      case Read((st, g), t) => BodyOfFixedAgrees(SkipSpace(t), kind, weighted, g);
    }
  }

  /** No comment line the body loop reads is followed by white space. */
  predicate TightComments(s: string, kind: InputType, weighted: bool, guard: int)
    decreases |s|
  {
    if s == [] then true
    else if s[0] == 'c' then
      (AfterLine(s) == [] || !IsSpace(AfterLine(s)[0] as int)) && TightComments(AfterLine(s), kind, weighted, guard)
    else
      match StatementOf(s, kind, weighted, guard)
      case Failed(_) => true
      case Read((st, g), t) => TightComments(SkipSpace(t), kind, weighted, g)
  }

  /** ReadKnf with the two loops read as intended. */
  function ReadKnfFixed(text: string, input: InputType): (r: KnfFile)
    ensures r != Rejected(Diverges)
  {
    match HeaderScanFixed(SkipSpace(text))
    case Failed(w) => Rejected(w)
    case Read(h, body) =>
      if input != Unknown && input != Cai && h.kind != input then Rejected(TypeMismatch)
      else
        var kind := Effective(h.kind, input);
        if WeightCheck(kind) && h.maxWeight < 0 then Rejected(AssertionFails)
        else
          match BodyOfFixed(body, kind, WeightCheck(kind), 0)
          case Failed(w) => Rejected(w)
          case Read(sts, _) => if |sts| != h.maxCls then Rejected(CountMismatch) else Parsed(h, sts)
  }

  /** The type word of the examples below, before any text. */
  lemma ExampleType(t: string)
    ensures CardPart("nf 1 1\n" + t) == (false, "nf 1 1\n" + t)
    ensures NfPart("nf 1 1\n" + t) == (true, "1 1\n" + t)
  {
    assert ("nf 1 1\n" + t)[1..] == "f 1 1\n" + t;
    assert ("f 1 1\n" + t)[1..] == " 1 1\n" + t;
    assert (" 1 1\n" + t)[1..] == "1 1\n" + t;
    assert SkipSpace(" 1 1\n" + t) == "1 1\n" + t;
  }

  /** The first header number of the examples below. */
  lemma ExampleVars(t: string)
    ensures IntegerValue("1 1\n" + t) == 1 && SkipSpace(IntegerRest("1 1\n" + t)) == "1\n" + t
  {
    assert ("1 1\n" + t)[1..] == " 1\n" + t;
    assert (" 1\n" + t)[1..] == "1\n" + t;
  }

  /** The second header number of the examples below, before a text that does not start with white space. */
  lemma ExampleCount(t: string)
    requires t == [] || !IsSpace(t[0] as int)
    ensures IntegerValue("1\n" + t) == 1 && SkipSpace(IntegerRest("1\n" + t)) == t
  {
    assert ("1\n" + t)[1..] == "\n" + t;
    assert ("\n" + t)[1..] == t;
  }

  /** The header "cnf 1 1" of the examples below, from its type word. */
  lemma ExampleHeader(t: string)
    requires t == [] || !IsSpace(t[0] as int)
    ensures HeaderOf("cnf 1 1\n" + t) == Read(HeaderInfo(true, 1, 1, -1, Cnf), t)
  {
    assert ("cnf 1 1\n" + t)[1..] == "nf 1 1\n" + t;
    ExampleType(t);
    ExampleVars(t);
    ExampleCount(t);
    assert SkipSpace(t) == t;
  }

  /** The header line "p cnf 1 1" of the examples below, from its 'p'. */
  lemma ExampleHeaderLine(t: string)
    requires t == [] || !IsSpace(t[0] as int)
    ensures HeaderScan("p cnf 1 1\n" + t) == Read(HeaderInfo(true, 1, 1, -1, Cnf), t)
    ensures HeaderScanFixed("p cnf 1 1\n" + t) == Read(HeaderInfo(true, 1, 1, -1, Cnf), t)
  {
    HeaderLineSkip(t);
    ExampleHeader(t);
    HeaderLineOf("p cnf 1 1\n" + t, "cnf 1 1\n" + t, HeaderInfo(true, 1, 1, -1, Cnf), t);
  }

  /** After the 'p' of "p cnf 1 1", the white space skipped leads to the type word. */
  lemma HeaderLineSkip(t: string)
    ensures var p := "p cnf 1 1\n" + t; p != [] && p[0] == 'p' && SkipSpace(p[1..]) == "cnf 1 1\n" + t
  {
    var line := "p cnf 1 1\n";
    var p := line + t;
    assert line[2..] == "cnf 1 1\n";
    assert p[1..] == line[1..] + t && p[1..][0] == ' ';
    assert p[1..][1..] == line[2..] + t;
  }

  /** A 'p' followed by white space and a header that reads is a header line, for both header loops. */
  lemma HeaderLineOf(p: string, q: string, h: HeaderInfo, t: string)
    requires p != [] && p[0] == 'p' && SkipSpace(p[1..]) == q
    requires HeaderOf(q) == Read(h, t) && h.found
    ensures HeaderScan(p) == Read(h, t) && HeaderScanFixed(p) == Read(h, t)
  {
  }

  /** The clause "-1 0" of the examples below. */
  lemma ExampleBody(s: string)
    requires s == "-1 0\n"
    ensures BodyOf(s, Cnf, false, 0) == Read([ClauseSt([-1], 0)], [])
    ensures BodyOfFixed(s, Cnf, false, 0) == Read([ClauseSt([-1], 0)], [])
  {
    var one := "1 0\n";
    assert s[1..] == one && one[1..] == " 0\n";
    assert Accumulate(one, 0) == 1 && SkipDigits(one) == " 0\n";
    assert IntegerValue(s) == -1 && IntegerRest(s) == " 0\n";
    var z := "0\n";
    assert SkipLineSpace(" 0\n") == z by {
      assert " 0\n"[1..] == z;
    }
    assert IntegerValue(z) == 0 && IntegerRest(z) == "\n" by {
      assert z[1..] == "\n";
    }
    assert LiteralsOf(s) == [-1] && LiteralsRest(s) == "\n";
    assert StatementOf(s, Cnf, false, 0) == Read((Some(ClauseSt([-1], 0)), 0), "\n");
    var nl := "\n";
    assert SkipSpace(nl) == [] by {
      assert nl[1..] == [];
    }
    assert [ClauseSt([-1], 0)] + [] == [ClauseSt([-1], 0)];
  }

  /** As written, a blank line before "-1 0" is the first symbol of an integer that reads as 0: an empty clause. */
  lemma ExampleEmptyClause(s: string)
    requires s == "\n-1 0\n"
    ensures StatementOf(s, Cnf, false, 0) == Read((Some(ClauseSt([], 0)), 0), "-1 0\n")
  {
    assert s[1..] == "-1 0\n";
    assert IntegerValue(s) == 0 && IntegerRest(s) == "-1 0\n";
    assert LiteralsOf(s) == [] && LiteralsRest(s) == "-1 0\n";
  }

  /** A comment line, a blank line and the clause "-1 0". */
  lemma ExampleBlankBody(body: string)
    requires body == "c x\n\n-1 0\n"
    ensures BodyOf(body, Cnf, false, 0) == Read([ClauseSt([], 0), ClauseSt([-1], 0)], [])
    ensures BodyOfFixed(body, Cnf, false, 0) == Read([ClauseSt([-1], 0)], [])
  {
    var rest, clause := "\n-1 0\n", "-1 0\n";
    assert body == "c x" + "\n" + rest;
    AfterCommentLine("c x", rest);
    assert rest[1..] == clause && SkipSpace(rest) == clause;
    ExampleEmptyClause(rest);
    ExampleBody(clause);
    assert [ClauseSt([], 0)] + [ClauseSt([-1], 0)] == [ClauseSt([], 0), ClauseSt([-1], 0)];
  }

  /** The leading comment of the first example, and what follows it. */
  lemma ExampleComment(text: string, rest: string)
    requires text == "c x\n\np cnf 1 1\n-1 0\n" && rest == "\np cnf 1 1\n-1 0\n"
    ensures text[0] == 'c' && SkipSpace(text) == text && AfterLine(text) == rest
  {
    assert text == "c x" + "\n" + rest;
    AfterCommentLine("c x", rest);
  }

  /** The header loop over the first example: the loop as written spins on the blank line. */
  lemma ExampleHeaderScan(text: string)
    requires text == "c x\n\np cnf 1 1\n-1 0\n"
    ensures SkipSpace(text) == text
    ensures HeaderScan(text) == Failed(Diverges)
    ensures HeaderScanFixed(text) == Read(HeaderInfo(true, 1, 1, -1, Cnf), "-1 0\n")
  {
    var rest, line := "\np cnf 1 1\n-1 0\n", "p cnf 1 1\n-1 0\n";
    ExampleComment(text, rest);
    assert rest[0] == '\n' && rest[1..] == line;
    assert SkipSpace(rest) == line;
    assert line == "p cnf 1 1\n" + "-1 0\n";
    ExampleHeaderLine("-1 0\n");
  }

  /** A blank line after a leading comment: the program spins before the header; the intended reader reads the file. */
  lemma BlankAfterHeaderComment(text: string)
    requires text == "c x\n\np cnf 1 1\n-1 0\n"
    ensures ReadKnf(text, Unknown) == Rejected(Diverges)
    ensures ReadKnfFixed(text, Unknown) == Parsed(HeaderInfo(true, 1, 1, -1, Cnf), [ClauseSt([-1], 0)])
  {
    ExampleHeaderScan(text);
    ExampleBody("-1 0\n");
  }

  /** A blank line after a comment in the body: it is read as an empty clause, so the count check fails. */
  lemma BlankAfterBodyComment(text: string)
    requires text == "p cnf 1 1\nc x\n\n-1 0\n"
    ensures ReadKnf(text, Unknown) == Rejected(CountMismatch)
    ensures ReadKnfFixed(text, Unknown) == Parsed(HeaderInfo(true, 1, 1, -1, Cnf), [ClauseSt([-1], 0)])
  {
    var body := "c x\n\n-1 0\n";
    ExampleSplit(text, body);
    ExampleHeaderLine(body);
    ExampleBlankBody(body);
    var h := HeaderInfo(true, 1, 1, -1, Cnf);
    CnfFileOf(text, h, body);
  }

  /** The second example is the header line "p cnf 1 1" followed by its body, with no white space before it. */
  lemma ExampleSplit(text: string, body: string)
    requires text == "p cnf 1 1\nc x\n\n-1 0\n" && body == "c x\n\n-1 0\n"
    ensures text == "p cnf 1 1\n" + body && SkipSpace(text) == text
  {
  }

  /** A file with no leading white space whose header line reads as the plain CNF header h: both readers read its body. */
  lemma CnfFileOf(text: string, h: HeaderInfo, body: string)
    requires SkipSpace(text) == text && h.kind == Cnf
    requires HeaderScan(text) == Read(h, body) && HeaderScanFixed(text) == Read(h, body)
    ensures BodyOf(body, Cnf, false, 0).Read? ==>
      var sts := BodyOf(body, Cnf, false, 0).value;
      ReadKnf(text, Unknown) == if |sts| != h.maxCls then Rejected(CountMismatch) else Parsed(h, sts)
    ensures BodyOfFixed(body, Cnf, false, 0).Read? ==>
      var sts := BodyOfFixed(body, Cnf, false, 0).value;
      ReadKnfFixed(text, Unknown) == if |sts| != h.maxCls then Rejected(CountMismatch) else Parsed(h, sts)
  {
  }

  // ----- the cursor-based reader -------------------------------------------------------------

  /** DetermineHeader, from the symbol after "p" and its white space. */
  method DetermineHeader(text: string, pos: nat) returns (r: Step<HeaderInfo>, next: nat)
    requires pos <= |text|
    ensures r == HeaderOf(text[pos..]) && next <= |text| && (r.Read? ==> r.rest == text[next..])
  {
    var c := pos;
    var weighted := Current(text, c) == Code('w');
    if weighted {
      c := Advance(text, c);
    }
    var knf := Current(text, c) == Code('k');
    if !knf && Current(text, c) != Code('c') {
      return Failed(IncorrectHeader), c;
    }
    c := Advance(text, c);
    var card, nf;
    card, c := ReadCard(text, c);
    nf, c := ReadNf(text, c);
    var kind := KindOf(weighted, knf, card);
    if !(card || nf) {
      return Read(HeaderInfo(false, 0, 0, -1, kind), text[c..]), c;
    }
    var h;
    h, next := HeaderNumbers(text, c, weighted);
    if h.Failed? {
      return Failed(h.why), next;
    }
    var (v, n, w) := h.value;
    r := Read(HeaderInfo(true, v, n, w, kind), text[next..]);
  }

  /** The "ard" of "card", with the white space DetermineHeader skips after an 'a'. */
  method ReadCard(text: string, pos: nat) returns (card: bool, next: nat)
    requires pos <= |text|
    ensures next <= |text| && (card, text[next..]) == CardPart(text[pos..])
  {
    card, next := false, pos;
    if Current(text, next) == Code('a') {
      next := Advance(text, next);
      if Current(text, next) == Code('r') {
        next := Advance(text, next);
        if Current(text, next) == Code('d') {
          next := Advance(text, next);
          card := true;
        }
      }
      next := SkipWhitespace(text, next);
    }
  }

  /** The "nf" of "cnf" and "knf", with the white space after it. */
  method ReadNf(text: string, pos: nat) returns (nf: bool, next: nat)
    requires pos <= |text|
    ensures next <= |text| && (nf, text[next..]) == NfPart(text[pos..])
  {
    nf, next := false, pos;
    if Current(text, next) == Code('n') {
      next := Advance(text, next);
      if Current(text, next) == Code('f') {
        next := Advance(text, next);
        next := SkipWhitespace(text, next);
        nf := true;
      }
    }
  }

  /** The numbers of a recognised header. */
  method HeaderNumbers(text: string, pos: nat, weighted: bool) returns (r: Step<(int, int, int)>, next: nat)
    requires pos <= |text|
    ensures r == Numbers(text[pos..], weighted) && next <= |text| && (r.Read? ==> r.rest == text[next..])
  {
    var maxVar, maxCls, c;
    maxVar, c := ParseInteger(text, pos);
    if maxVar < 1 {
      return Failed(AssertionFails), c;
    }
    c := SkipWhitespace(text, c);
    maxCls, c := ParseInteger(text, c);
    if maxCls < 1 {
      return Failed(AssertionFails), c;
    }
    c := SkipWhitespace(text, c);
    var maxWeight := -1;
    if weighted {
      maxWeight, c := ParseInteger(text, c);
      if maxWeight < 1 {
        return Failed(AssertionFails), c;
      }
      c := SkipWhitespace(text, c);
    }
    next := SkipWhitespace(text, c);
    r := Read((maxVar, maxCls, maxWeight), text[next..]);
  }

  /**
   * ParseDouble, with the weight kept as the integer the checker stores (the integer part,
   * with its sign) and whether the double read is negative.
   */
  method ParseDouble(text: string, pos: nat) returns (weight: int, negative: bool, next: nat)
    requires pos <= |text|
    ensures weight == IntegerValue(text[pos..]) && negative == NegativeWeight(text[pos..])
    ensures next <= |text| && text[next..] == AfterFraction(IntegerRest(text[pos..]))
    ensures pos < |text| ==> pos < next
  {
    var minus := Current(text, pos) == Code('-');
    weight, next := ParseInteger(text, pos);
    var point := next;
    var fraction := false;
    if Current(text, point) == Code('.') {
      next := point + 1;
      assert text[point..][1..] == text[next..];
      while next < |text| && IsDigit(text[next] as int)
        invariant point < next <= |text|
        invariant SkipDigits(text[next..]) == SkipDigits(text[point + 1..])
        invariant (fraction || NonZeroDigit(text[next..])) == NonZeroDigit(text[point + 1..])
      {
        assert text[next..][1..] == text[next + 1..];
        if text[next] != '0' {
          fraction := true;
        }
        next := next + 1;
      }
    }
    negative := minus && (weight != 0 || fraction);
  }

  /** The in-place negation of ParseConstraint's literals. */
  method NegateAll(vs: seq<int>) returns (ws: seq<int>)
    ensures ws == Negate(vs)
  {
    ws := vs;
    var i := 0;
    while i < |ws|
      invariant 0 <= i <= |ws| == |vs|
      invariant forall j :: 0 <= j < i ==> ws[j] == -vs[j]
      invariant forall j :: i <= j < |ws| ==> ws[j] == vs[j]
    {
      ws := ws[i := -1 * ws[i]];
      i := i + 1;
    }
  }

  /** ParseConstraint's loop: integers, each followed by line space, up to a 0 or a symbol that cannot start a number. */
  method ReadTerms(text: string, pos: nat) returns (vs: seq<int>, next: nat)
    requires pos <= |text|
    ensures next <= |text| && (vs, text[next..]) == TermsOf(text[pos..])
  {
    vs, next := [], pos;
    while true
      invariant pos <= next <= |text|
      invariant TermsOf(text[pos..]).0 == vs + TermsOf(text[next..]).0
      invariant TermsOf(text[pos..]).1 == TermsOf(text[next..]).1
      decreases |text| - next
    {
      var v, after := ParseInteger(text, next);
      var n := SkipLinespace(text, after);
      var sym := Current(text, n);
      TermsStep(text[next..]);
      if next == |text| || v == 0 || !(sym == Code('-') || IsDigit(sym)) {
        vs, next := vs + [v], n;
        return;
      }
      vs, next := vs + [v], n;
    }
  }

  /** The comparison of a WCARD line and the white space before its number. */
  method ReadRelation(text: string, pos: nat) returns (rel: Relation, next: nat)
    requires pos <= |text|
    ensures next <= |text| && (rel, text[next..]) == RelationOf(text[pos..])
  {
    rel, next := Plain, pos;
    if Current(text, pos) == Code('<') || Current(text, pos) == Code('>') {
      var less := Current(text, pos) == Code('<');
      next := Advance(text, pos);
      if Current(text, next) == Code('=') {
        rel, next := if less then Le else Ge, Advance(text, next);
      } else {
        rel := if less then Lt else Gt;
      }
      next := SkipWhitespace(text, next);
    }
  }

  /** ParseConstraint: the integers of a WCARD line, then its comparison, as one at-least constraint. */
  method ParseConstraint(text: string, pos: nat) returns (c: Constraint, next: nat)
    requires pos <= |text|
    ensures next <= |text| && (c, text[next..]) == ConstraintOf(text[pos..])
  {
    var vs, rel, u;
    vs, u := ReadTerms(text, pos);
    rel, u := ReadRelation(text, u);
    if rel == Plain {
      c := Constraint(vs[..|vs| - 1], 1);
      next := SkipLinespace(text, u);
      return;
    }
    var b;
    b, u := ParseInteger(text, u);
    if rel == Le || rel == Lt {
      var negated := NegateAll(vs);
      c := Constraint(negated, if rel == Le then |vs| - b else |vs| - b + 1);
    } else {
      c := Constraint(vs, if rel == Ge then b else b + 1);
    }
    next := SkipLinespace(text, u);
  }

  /** The literals of a line, as a clause or as the klause whose bound and guard were read before them. */
  method ReadLinePart(text: string, pos: nat, kind: InputType, weight: int, bound: int, guard: int, card: bool)
    returns (r: Step<(Option<Stmt>, int)>, next: nat)
    requires pos <= |text|
    ensures r == LinePart(text[pos..], kind, weight, bound, guard, card)
    ensures next <= |text| && (r.Read? ==> r.rest == text[next..])
  {
    if kind != Wcard {
      var lits;
      lits, next := ParseClause(text, pos);
      if card {
        r := Read((Some(CardSt(lits, bound, weight, guard)), 0), text[next..]);
      } else {
        r := Read((Some(ClauseSt(lits, weight)), guard), text[next..]);
      }
    } else {
      var c;
      c, next := ParseConstraint(text, pos);
      if c.lits != [] {
        r := Read((Some(CardSt(c.lits, c.bound, weight, guard)), 0), text[next..]);
      } else {
        r := Read((None, guard), text[next..]);
      }
    }
  }

  /** One statement of the body loop, from a symbol other than 'c', and the guard in force after it. */
  method ParseStatement(text: string, pos: nat, kind: InputType, weighted: bool, guard: int)
    returns (r: Step<(Option<Stmt>, int)>, next: nat)
    requires pos < |text|
    ensures r == StatementOf(text[pos..], kind, weighted, guard)
    ensures next <= |text| && (r.Read? ==> r.rest == text[next..])
  {
    var weight, c := 0, pos;
    if weighted {
      var negative;
      weight, negative, c := ParseDouble(text, pos);
      if negative {
        return Failed(AssertionFails), c;
      }
      c := SkipWhitespace(text, c);
    }
    var card, bound, g := false, 0, guard;
    if Current(text, c) == Code('k') || Current(text, c) == Code('g') {
      var guarded := Current(text, c) == Code('g');
      c := Advance(text, c);
      c := SkipWhitespace(text, c);
      bound, c := ParseInteger(text, c);
      if bound < 1 {
        return Failed(AssertionFails), c;
      }
      c := SkipWhitespace(text, c);
      if guarded {
        g, c := ParseInteger(text, c);
        c := SkipWhitespace(text, c);
      }
      card := true;
    } else if kind == Cai {
      bound, c := ParseInteger(text, c);
      if bound < 1 {
        return Failed(AssertionFails), c;
      }
      c := SkipWhitespace(text, c);
      card := true;
    }
    r, next := ReadLinePart(text, c, kind, weight, bound, g, card);
  }

  /**
   * The loop before the header. Where the program spins for ever on a symbol that is neither
   * 'c' nor 'p', the method stops and reports Diverges.
   */
  method ScanHeader(text: string, pos: nat) returns (h: Step<HeaderInfo>, next: nat)
    requires pos <= |text|
    ensures h == HeaderScan(text[pos..]) && next <= |text| && (h.Read? ==> h.rest == text[next..])
  {
    next := pos;
    while next < |text| && text[next] == 'c'
      invariant pos <= next <= |text| && HeaderScan(text[next..]) == HeaderScan(text[pos..])
      decreases |text| - next
    {
      var comment;
      comment, next := ParseLine(text, next);
    }
    if next == |text| {
      return Failed(NoHeader), next;
    }
    if text[next] != 'p' {
      return Failed(Diverges), next;
    }
    var c := Advance(text, next);
    c := SkipWhitespace(text, c);
    h, next := DetermineHeader(text, c);
    if h.Read? && !h.value.found {
      h := Failed(NoHeader);
    }
  }

  /** Nothing put in front leaves a result as it is. */
  lemma PrependNothing(r: Step<seq<Stmt>>)
    ensures Prepend([], r) == r
  {
    if r.Read? {
      assert [] + r.value == r.value;
    }
  }

  /** Putting two lists in front, one after the other, is putting their concatenation in front. */
  lemma PrependTwice(a: seq<Stmt>, b: seq<Stmt>, r: Step<seq<Stmt>>)
    ensures Prepend(a, Prepend(b, r)) == Prepend(a + b, r)
  {
    if r.Read? {
      assert a + (b + r.value) == (a + b) + r.value;
    }
  }

  /** One statement of BodyOf, as the body loop reads it. */
  lemma BodyStep(s: string, kind: InputType, weighted: bool, guard: int)
    requires s != [] && s[0] != 'c'
    ensures StatementOf(s, kind, weighted, guard).Failed? ==>
      BodyOf(s, kind, weighted, guard) == Failed(StatementOf(s, kind, weighted, guard).why)
    ensures StatementOf(s, kind, weighted, guard).Read? ==>
      var (one, g) := StatementOf(s, kind, weighted, guard).value;
      BodyOf(s, kind, weighted, guard) ==
        Prepend(if one.Some? then [one.value] else [], BodyOf(SkipSpace(StatementOf(s, kind, weighted, guard).rest), kind, weighted, g))
  {
  }

  /** The body loop: comment lines are read, every other line is one statement, and white space follows each. */
  method ReadBody(text: string, pos: nat, kind: InputType, weighted: bool) returns (r: Step<seq<Stmt>>)
    requires pos <= |text|
    ensures r == BodyOf(text[pos..], kind, weighted, 0)
  {
    var sts: seq<Stmt> := [];
    var guard, c := 0, pos;
    PrependNothing(BodyOf(text[pos..], kind, weighted, 0));
    while c < |text|
      invariant pos <= c <= |text|
      invariant BodyOf(text[pos..], kind, weighted, 0) == Prepend(sts, BodyOf(text[c..], kind, weighted, guard))
      decreases |text| - c
    {
      if text[c] == 'c' {
        var comment;
        comment, c := ParseLine(text, c);
        continue;
      }
      var st, next := ParseStatement(text, c, kind, weighted, guard);
      BodyStep(text[c..], kind, weighted, guard);
      if st.Failed? {
        return Failed(st.why);
      }
      var (one, g) := st.value;
      var more := if one.Some? then [one.value] else [];
      c := SkipWhitespace(text, next);
      PrependTwice(sts, more, BodyOf(text[c..], kind, weighted, g));
      sts, guard := sts + more, g;
    }
    assert sts + [] == sts;
    r := Read(sts, []);
  }

  /** Parse: the header, the type and weight checks, the body and the count check. */
  method Parse(text: string, input: InputType) returns (r: KnfFile)
    ensures r == ReadKnf(text, input)
  {
    var pos := SkipWhitespace(text, 0);
    assert text[0..] == text;
    var h, body := ScanHeader(text, pos);
    if h.Failed? {
      return Rejected(h.why);
    }
    var header := h.value;
    if input != Unknown && input != Cai && header.kind != input {
      return Rejected(TypeMismatch);
    }
    var kind := Effective(header.kind, input);
    if WeightCheck(kind) && header.maxWeight < 0 {
      return Rejected(AssertionFails);
    }
    var b := ReadBody(text, body, kind, WeightCheck(kind));
    if b.Failed? {
      return Rejected(b.why);
    }
    if |b.value| != header.maxCls {
      return Rejected(CountMismatch);
    }
    r := Parsed(header, b.value);
  }
}
