/**
 * The character level shared by the DIMACS-style readers and writers. A reader holds the
 * text that is still unread; each scanner reads from its front and says what is left, the
 * empty text standing for EOF. Integers are read as the C readers read them, and numbers
 * are written in decimal.
 */
module Text {

  /** The symbol getc returns past the end of the text. */
  const Eof: int := -1

  /** The next symbol getc returns: a character code, or Eof at the end. */
  function Sym(s: string): int
  {
    if s == [] then Eof else s[0] as int
  }

  predicate IsDigit(c: int) { '0' as int <= c <= '9' as int }

  /** isspace in the C locale: blank, tab, newline, vertical tab, form feed, carriage return. */
  predicate IsSpace(c: int) { c == ' ' as int || 9 <= c <= 13 }

  /** The value of a digit character. */
  function DigitOf(c: char): int { c as int - '0' as int }

  predicate AllDigits(ds: string) { forall i :: 0 <= i < |ds| ==> IsDigit(ds[i] as int) }

  /** The text does not start with a digit, so a number read before it ends there. */
  predicate Stops(s: string) { s == [] || !IsDigit(s[0] as int) }

  /** ParseInteger's loop: every leading digit is taken into the accumulator, n * 10 + digit. */
  function Accumulate(s: string, acc: int): int
  {
    if s != [] && IsDigit(s[0] as int) then Accumulate(s[1..], 10 * acc + DigitOf(s[0])) else acc
  }

  /** The text after its leading digits. */
  function SkipDigits(s: string): (r: string)
    ensures |r| <= |s| && Stops(r)
  {
    if s != [] && IsDigit(s[0] as int) then SkipDigits(s[1..]) else s
  }

  /**
   * ParseInteger's value: the first symbol is consumed whatever it is; a '-' makes the
   * result negative, a digit starts the accumulator, anything else starts it at 0; then the
   * following digits are taken in. The end of the text reads as 0.
   */
  function IntegerValue(s: string): int
  {
    if s == [] then 0
    else
      var magnitude := Accumulate(s[1..], if IsDigit(s[0] as int) then DigitOf(s[0]) else 0);
      if s[0] == '-' then -magnitude else magnitude
  }

  /** The accumulator never turns negative: every digit adds a value of at least 0. */
  lemma {:induction false} AccumulateNonNegative(s: string, acc: int)
    requires acc >= 0
    ensures Accumulate(s, acc) >= 0
    decreases |s|
  {
    if s != [] && IsDigit(s[0] as int) {
      AccumulateNonNegative(s[1..], 10 * acc + DigitOf(s[0]));
    }
  }

  /** Only a text starting with '-' reads as a negative integer. */
  lemma IntegerSign(s: string)
    ensures IntegerValue(s) < 0 ==> Sym(s) == '-' as int
  {
    if s != [] {
      AccumulateNonNegative(s[1..], if IsDigit(s[0] as int) then DigitOf(s[0]) else 0);
    }
  }

  /** What ParseInteger leaves: the text after the first symbol and the digits following it. */
  function IntegerRest(s: string): (r: string)
    ensures |r| <= |s| && (s != [] ==> |r| < |s|) && Stops(r)
  {
    if s == [] then s else SkipDigits(s[1..])
  }

  /** SkipWhitespace: the text after its leading white space. */
  function SkipSpace(s: string): (r: string)
    ensures |r| <= |s| && (r == [] || !IsSpace(r[0] as int))
  {
    if s != [] && IsSpace(s[0] as int) then SkipSpace(s[1..]) else s
  }

  /** SkipLinespace: the text after its leading white space other than newlines. */
  function SkipLineSpace(s: string): (r: string)
    ensures |r| <= |s| && (r == [] || !IsSpace(r[0] as int) || r[0] == '\n')
  {
    if s != [] && IsSpace(s[0] as int) && s[0] != '\n' then SkipLineSpace(s[1..]) else s
  }

  /** The text from the first newline on (the newline is kept), or the empty text. */
  function ToNewline(s: string): (r: string)
    ensures |r| <= |s| && (r == [] || r[0] == '\n')
  {
    if s != [] && s[0] != '\n' then ToNewline(s[1..]) else s
  }

  /**
   * Parseliterals / ParseClause: integers, each followed by line space, up to and including
   * the first 0 (which the end of the text also yields); the 0 is dropped.
   */
  function LiteralsOf(s: string): seq<int>
    decreases |s|
  {
    var v := IntegerValue(s);
    if v == 0 then [] else [v] + LiteralsOf(SkipLineSpace(IntegerRest(s)))
  }

  /** What the literal reader leaves: the text after the line space that follows the closing 0. */
  function LiteralsRest(s: string): (r: string)
    ensures |r| <= |s| && (s != [] ==> |r| < |s|)
    decreases |s|
  {
    var t := SkipLineSpace(IntegerRest(s));
    if IntegerValue(s) == 0 then t else LiteralsRest(t)
  }

  predicate NonZeroAll(xs: seq<int>) { forall i :: 0 <= i < |xs| ==> xs[i] != 0 }

  /** The literal reader never yields a 0: a 0 is what ends the list. */
  lemma {:induction false} LiteralsNonZero(s: string)
    ensures NonZeroAll(LiteralsOf(s))
    decreases |s|
  {
    if IntegerValue(s) != 0 {
      LiteralsNonZero(SkipLineSpace(IntegerRest(s)));
    }
  }

  /** A numeral for n: its decimal digits, most significant first, no leading zero. */
  function ShowNat(n: nat): (r: string)
    ensures |r| >= 1 && AllDigits(r)
  {
    if n < 10 then [('0' as int + n) as char]
    else ShowNat(n / 10) + [('0' as int + n % 10) as char]
  }

  /** The numeral of x, with a leading '-' when x is negative. */
  function ShowInt(x: int): (r: string)
    ensures |r| >= 1 && (x < 0 <==> r[0] == '-')
  {
    if x < 0 then "-" + ShowNat(-x) else ShowNat(x)
  }

  /** Literals as literals2str and the writers print them: each followed by one blank. */
  function ShowLits(lits: seq<int>): string
  {
    if lits == [] then "" else ShowInt(lits[0]) + " " + ShowLits(lits[1..])
  }

  /** A literal list as a klause or clause line writes it: the literals, then the closing 0. */
  function Closed(lits: seq<int>): string
  {
    ShowLits(lits) + "0"
  }

  /** The value of a run of digits, most significant first, as the accumulator builds it. */
  function Fold(ds: string, acc: int): int
  {
    if ds == [] then acc else Fold(ds[1..], 10 * acc + DigitOf(ds[0]))
  }

  lemma {:induction false} FoldSnoc(ds: string, d: char, acc: int)
    ensures Fold(ds + [d], acc) == 10 * Fold(ds, acc) + DigitOf(d)
    decreases |ds|
  {
    if ds == [] {
      assert ds + [d] == [d];
    } else {
      assert (ds + [d])[1..] == ds[1..] + [d];
      FoldSnoc(ds[1..], d, 10 * acc + DigitOf(ds[0]));
    }
  }

  /** The digits of a numeral fold back to the number. */
  lemma {:induction false} ShowNatFold(n: nat)
    ensures Fold(ShowNat(n), 0) == n
  {
    if n >= 10 {
      ShowNatFold(n / 10);
      FoldSnoc(ShowNat(n / 10), ('0' as int + n % 10) as char, 0);
    }
  }

  /** The accumulator takes in a run of digits and stops where the digits stop. */
  lemma {:induction false} AccumulateRun(ds: string, tail: string, acc: int)
    requires AllDigits(ds) && Stops(tail)
    ensures Accumulate(ds + tail, acc) == Fold(ds, acc)
    ensures SkipDigits(ds + tail) == tail
    decreases |ds|
  {
    if ds == [] {
      assert ds + tail == tail;
    } else {
      assert (ds + tail)[0] == ds[0];
      assert (ds + tail)[1..] == ds[1..] + tail;
      AccumulateRun(ds[1..], tail, 10 * acc + DigitOf(ds[0]));
    }
  }

  /** Reading a written integer gives it back and stops right after it. */
  lemma ReadShowInt(x: int, tail: string)
    requires Stops(tail)
    ensures IntegerValue(ShowInt(x) + tail) == x && IntegerRest(ShowInt(x) + tail) == tail
  {
    var n: nat := if x < 0 then -x else x;
    var ds := ShowNat(n);
    ShowNatFold(n);
    if x < 0 {
      var s := ShowInt(x) + tail;
      assert s == "-" + (ds + tail);
      assert s[1..] == ds + tail;
      AccumulateRun(ds, tail, 0);
    } else {
      var s := ds + tail;
      assert s[0] == ds[0] && s[1..] == ds[1..] + tail;
      assert AllDigits(ds[1..]);
      AccumulateRun(ds[1..], tail, DigitOf(ds[0]));
      assert Fold(ds, 0) == Fold(ds[1..], DigitOf(ds[0]));
    }
  }

  /** One step of ShowLits under the closing "0", with the rest of the text after it. */
  lemma ClosedUnfold(lits: seq<int>, tail: string)
    requires lits != []
    ensures Closed(lits) + tail == ShowInt(lits[0]) + (" " + (Closed(lits[1..]) + tail))
  {
    var w, t := ShowInt(lits[0]), ShowLits(lits[1..]);
    assert ShowLits(lits) == w + " " + t;
    Regroup(w, t, tail);
  }

  lemma Regroup(w: string, t: string, tail: string)
    ensures (w + " " + t) + "0" + tail == w + (" " + (t + "0" + tail))
  {
  }

  /** A written list starts with a '-' or a digit, so line space in front of it ends at once. */
  lemma ClosedStart(lits: seq<int>, tail: string)
    ensures SkipLineSpace(" " + (Closed(lits) + tail)) == Closed(lits) + tail
  {
    var t := Closed(lits) + tail;
    assert (" " + t)[1..] == t;
    if lits != [] {
      ClosedUnfold(lits, tail);
      var w := ShowInt(lits[0]);
      assert t[0] == w[0];
      if lits[0] >= 0 {
        assert IsDigit(ShowNat(lits[0])[0] as int);
      }
    } else {
      assert t[0] == '0';
    }
  }

  /** Reading a written literal list and its closing 0 gives the list back. */
  lemma {:induction false} ReadShowLits(lits: seq<int>, tail: string)
    requires NonZeroAll(lits) && Stops(tail)
    ensures LiteralsOf(Closed(lits) + tail) == lits
    ensures LiteralsRest(Closed(lits) + tail) == SkipLineSpace(tail)
    decreases |lits|
  {
    if lits == [] {
      assert Closed(lits) == ShowInt(0);
      ReadShowInt(0, tail);
    } else {
      var x, rest := lits[0], lits[1..];
      var after := " " + (Closed(rest) + tail);
      ClosedUnfold(lits, tail);
      ReadShowInt(x, after);
      ClosedStart(rest, tail);
      assert NonZeroAll(rest) by {
        forall i | 0 <= i < |rest| ensures rest[i] != 0 {
          assert rest[i] == lits[i + 1];
        }
      }
      ReadShowLits(rest, tail);
      assert [x] + rest == lits;
    }
  }
}
