/** The stream reads the loader performs on the text of one line:
    `in >> f` for a float (main.cpp:33), `in >> val` for a `GLuint`
    (main.cpp:52), `std::getline(in, t, c)` (main.cpp:54, 57, 60) and
    `std::stoi` (main.cpp:59). A stream is the text it has not consumed yet;
    each read gives what it extracted and the text left after it. */
module Extract {
  import opened Text

  /** The unsigned part of a float: digits, then an optional '.' and digits,
      with at least one digit in all. */
  function ReadUnsignedReal(s: string): (r: Option<(real, string)>)
    ensures r.Some? ==> r.value.0 >= 0.0 && |r.value.1| < |s|
    ensures r.Some? ==> r.value.1 == [] || !IsDigit(r.value.1[0])
  {
    var (whole, after) := DigitSplit(s);
    if after != [] && after[0] == '.' then
      var (frac, rest) := DigitSplit(after[1..]);
      if whole == [] && frac == [] then None
      else Some((DigitsValue(whole) as real + FractionValue(frac), rest))
    else if whole == [] then None
    else Some((DigitsValue(whole) as real, after))
  }

  /** The outcome of one formatted extraction `in >> x`. */
  datatype Extraction<T> =
    | Extracted(value: T, rest: string)  // x is read, the stream stays good
    | NoField     // only white space was left: the stream fails and x keeps its value
    | BadField    // no number where one was expected: the stream fails and x becomes 0
    | OutOfRange  // too large for x: the stream fails and x becomes its largest value
    | Unsupported // text whose reading this model does not cover

  /** `in >> f` for a float: skip white space, then an optional sign and the
      unsigned part. Exponent notation is not covered. */
  function ReadReal(s: string): (r: Extraction<real>)
    ensures r.Extracted? ==> |r.rest| < |s|
    ensures r.Extracted? ==> r.rest == [] || !IsDigit(r.rest[0])
    ensures r.NoField? <==> SkipSpace(s) == []
  {
    var q := SkipSpace(s);
    if q == [] then NoField
    else
      var negative := q[0] == '-';
      var m := ReadUnsignedReal(if q[0] == '-' || q[0] == '+' then q[1..] else q);
      if m.None? then BadField
      else if m.value.1 != [] && (m.value.1[0] == 'e' || m.value.1[0] == 'E') then Unsupported
      else Extracted(if negative then -m.value.0 else m.value.0, m.value.1)
  }

  /** `in >> f1 >> f2 >> ...` for n floats, each read where the previous one
      stopped. None when a field is left unassigned: once an extraction fails
      the later ones do nothing, so only a failure at the last field leaves
      every field assigned (with 0). */
  function ReadReals(s: string, n: nat): (r: Option<seq<real>>)
    ensures r.Some? ==> |r.value| == n
    ensures n > 0 && SkipSpace(s) == [] ==> r.None?
    ensures r.Some? && n > 1 ==> ReadReal(s).Extracted?
    ensures r.Some? && n > 0 ==> r.value[0] == if ReadReal(s).Extracted? then ReadReal(s).value else 0.0
    decreases n
  {
    if n == 0 then Some([])
    else
      match ReadReal(s)
      case Extracted(x, rest) =>
        var more := ReadReals(rest, n - 1);
        if more.None? then None else Some([x] + more.value)
      case BadField => if n == 1 then Some([0.0]) else None
      case _ => None
  }

  /** `in >> val` for an unsigned `GLuint`: white space is skipped, then an
      optional '+' and the decimal digits after it are read. */
  function ReadUnsigned(s: string): (r: Extraction<nat>)
    ensures r.Extracted? ==> r.value < UintModulus && |r.rest| < |s|
    ensures r.Extracted? ==> r.rest == [] || !IsDigit(r.rest[0])
    ensures r.NoField? <==> SkipSpace(s) == []
  {
    var q := SkipSpace(s);
    if q == [] then NoField
    else if q[0] == '-' then Unsupported
    else
      var (digits, rest) := DigitSplit(if q[0] == '+' then q[1..] else q);
      if digits == [] then BadField
      else if DigitsValue(digits) >= UintModulus then OutOfRange
      else Extracted(DigitsValue(digits), rest)
  }

  /** `std::getline(in, t, c)`: fails when nothing is left; otherwise
      extracts the text up to the next c, or to the end when there is none,
      and consumes that c. */
  function GetLine(s: string, c: char): (r: Option<(string, string)>)
    ensures r.None? <==> s == []
    ensures r.Some? ==> c !in r.value.0 && |r.value.1| < |s|
  {
    var field := Until(s, c);
    if s == [] then None
    else if |field| < |s| then Some((field, s[|field| + 1..]))
    else Some((field, []))
  }

  /** What getline extracts and what it leaves make up the whole text, with
      the delimiter between them when one was found. */
  lemma {:induction false} GetLineSplits(s: string, c: char)
    requires s != []
    ensures var (field, rest) := GetLine(s, c).value;
      s == field + [c] + rest || (s == field && rest == [])
  {
    var field := Until(s, c);
    if |field| < |s| {
      assert s == field + [c] + s[|field| + 1..];
    }
  }

  /** `std::stoi(t)`: skip white space, an optional sign, then the value of the
      digits up to the first non-digit. None stands for the exceptions it
      throws: no digit at all, or a value outside the range of `int`. */
  function Stoi(t: string): (r: Option<int>)
    ensures r.Some? ==> IntMin <= r.value <= IntMax
  {
    var q := SkipSpace(t);
    var negative := q != [] && q[0] == '-';
    var body := if q != [] && (q[0] == '-' || q[0] == '+') then q[1..] else q;
    var digits := DigitSplit(body).0;
    if digits == [] then None
    else
      var value: int := if negative then -(DigitsValue(digits) as int) else DigitsValue(digits);
      if IntMin <= value <= IntMax then Some(value) else None
  }

  /** ws[i] is a decimal numeral, possibly with a fraction, of xs[i], for every i. */
  predicate Decimals(ws: seq<string>, xs: seq<real>) {
    |ws| == |xs| && forall i | 0 <= i < |ws| :: IsDecimal(ws[i], xs[i])
  }

  /** ws[i] is a decimal numeral of xs[i], for every i. */
  predicate Numerals(ws: seq<string>, xs: seq<int>) {
    |ws| == |xs| && forall i | 0 <= i < |ws| :: IsIntNumeral(ws[i], xs[i])
  }

  /** The decimal numerals of xs, one per value. */
  function NumeralsOf(xs: seq<int>): (ws: seq<string>)
    ensures Numerals(ws, xs)
  {
    seq(|xs|, i requires 0 <= i < |xs| => IntToString(xs[i]))
  }

  /** Nothing left, or a character that cannot continue a number. */
  predicate EndsNumber(rest: string) {
    rest == [] || !(IsDigit(rest[0]) || rest[0] == '.' || rest[0] == 'e' || rest[0] == 'E')
  }

  /** Reading a number skips leading white space. */
  lemma {:induction false} ReadRealAfterSpace(sp: string, s: string)
    requires AllSpace(sp)
    ensures ReadReal(sp + s) == ReadReal(s)
  {
    SkipSpaceAfter(sp, s);
  }

  /** Reading n > 0 numbers skips leading white space. */
  lemma {:induction false} ReadRealsAfterSpace(sp: string, s: string, n: nat)
    requires AllSpace(sp) && n > 0
    ensures ReadReals(sp + s, n) == ReadReals(s, n)
  {
    ReadRealAfterSpace(sp, s);
  }

  /** Digits W, a point and digits F, followed by a non-digit or nothing, read
      as the value of W plus the fraction F, and the reading stops after F. */
  lemma {:induction false} ReadPointed(W: string, F: string, rest: string)
    requires W != [] && AllDigits(W) && AllDigits(F) && (rest == [] || !IsDigit(rest[0]))
    ensures ReadUnsignedReal(W + "." + F + rest) == Some((DigitsValue(W) as real + FractionValue(F), rest))
  {
    var after := ['.'] + (F + rest);
    assert W + "." + F + rest == W + after;
    DigitSplitOf(W, after);
    assert after[1..] == F + rest;
    DigitSplitOf(F, rest);
  }

  /** An unsigned decimal numeral followed by a character that cannot continue
      it reads back as its value, and the reading stops right after it. */
  lemma {:induction false} ReadUnsignedDecimal(w: string, x: real, rest: string)
    requires IsUnsignedDecimal(w, x) && EndsNumber(rest)
    ensures ReadUnsignedReal(w + rest) == Some((x, rest))
  {
    var (whole, after) := DigitSplit(w);
    DigitSplitJoins(w);
    if after == [] {
      assert w == whole;
      DigitSplitOf(whole, rest);
      assert DigitSplit(w + rest) == (whole, rest);
    } else {
      var frac := after[1..];
      assert after == ['.'] + frac;
      assert w + rest == whole + "." + frac + rest;
      ReadPointed(whole, frac, rest);
    }
  }

  /** A decimal numeral reads back as its value, and the reading stops right
      after it. */
  lemma {:induction false} ReadDecimal(w: string, x: real, rest: string)
    requires IsDecimal(w, x) && EndsNumber(rest)
    ensures ReadReal(w + rest) == Extracted(x, rest)
  {
    var s := w + rest;
    assert s[0] == w[0];
    if x < 0.0 {
      assert s[1..] == w[1..] + rest;
      ReadUnsignedDecimal(w[1..], -x, rest);
      ReadNegative(s, x, rest);
    } else {
      ReadUnsignedDecimal(w, x, rest);
      DigitSplitJoins(w);
      assert w[0] == DigitSplit(w).0[0];
      ReadFromDigit(s, x, rest);
    }
  }

  /** A number that starts with '-' is read as the negated unsigned part. */
  lemma {:induction false} ReadNegative(s: string, x: real, rest: string)
    requires s != [] && s[0] == '-' && ReadUnsignedReal(s[1..]) == Some((-x, rest)) && EndsNumber(rest)
    ensures ReadReal(s) == Extracted(x, rest)
  {
  }

  /** A number that starts with a digit is read as its unsigned part. */
  lemma {:induction false} ReadFromDigit(s: string, x: real, rest: string)
    requires s != [] && IsDigit(s[0]) && ReadUnsignedReal(s) == Some((x, rest)) && EndsNumber(rest)
    ensures ReadReal(s) == Extracted(x, rest)
  {
  }

  /** A numeral of an integer is a decimal numeral of the same value. */
  lemma {:induction false} IntDecimal(w: string, a: int)
    requires IsIntNumeral(w, a)
    ensures IsDecimal(w, a as real)
  {
    var digits := if a < 0 then w[1..] else w;
    DigitSplitOf(digits, []);
    assert digits + [] == digits;
  }

  /** The decimals after the first are decimals of the values after the first. */
  lemma {:induction false} DecimalsTail(ws: seq<string>, xs: seq<real>)
    requires Decimals(ws, xs) && ws != []
    ensures IsDecimal(ws[0], xs[0]) && Decimals(ws[1..], xs[1..])
  {
    forall i | 0 <= i < |ws| - 1 ensures IsDecimal(ws[1..][i], xs[1..][i]) {
      assert ws[1..][i] == ws[i + 1] && xs[1..][i] == xs[i + 1];
    }
  }

  /** The numerals after the first are numerals of the values after the first. */
  lemma {:induction false} NumeralsTail(ws: seq<string>, xs: seq<int>)
    requires Numerals(ws, xs) && ws != []
    ensures IsIntNumeral(ws[0], xs[0]) && Numerals(ws[1..], xs[1..])
  {
    forall i | 0 <= i < |ws| - 1 ensures IsIntNumeral(ws[1..][i], xs[1..][i]) {
      assert ws[1..][i] == ws[i + 1] && xs[1..][i] == xs[i + 1];
    }
  }

  /** One read followed by n - 1 more is n reads. */
  lemma {:induction false} ReadRealsStep(s: string, n: nat, v: real, t: string, rest: seq<real>)
    requires n > 0 && ReadReal(s) == Extracted(v, t) && ReadReals(t, n - 1) == Some(rest)
    ensures ReadReals(s, n) == Some([v] + rest)
  {
  }

  /** Decimals separated by white space, and followed by something that
      cannot continue a number, are read back one by one, in order: `>>`
      skips any run of white space before a number. */
  lemma {:induction false} ReadSpacedDecimals(ws: seq<string>, seps: seq<string>, xs: seq<real>, rest: string)
    requires Decimals(ws, xs) && |seps| == |ws| && SpaceSeparators(seps) && EndsNumber(rest)
    ensures ReadReals(SepWords(ws, seps) + rest, |xs|) == Some(xs)
    decreases |xs|
  {
    if xs != [] {
      assert [xs[0]] + xs[1..] == xs;
      var tail := SepWords(ws[1..], seps[1..]) + rest;
      DecimalsTail(ws, xs);
      SeparatorsTail(seps);
      ReadSpacedDecimals(ws[1..], seps[1..], xs[1..], rest);
      assert ReadReals(SepWords(ws, seps) + rest, |xs|) == Some([xs[0]] + xs[1..]) by {
        assert AllSpace(seps[0]);
        SeparatedEndsNumber(ws, seps, rest);
        ReadDecimal(ws[0], xs[0], tail);
        ReadRealsStep(ws[0] + tail, |xs|, xs[0], tail, xs[1..]);
        ReadRealsAfterSpace(seps[0], ws[0] + tail, |xs|);
        SepWordsSplit(ws, seps, rest);
      }
    }
  }

  /** What follows the first word cannot continue it: it starts with a
      separator, or it is the text after the last word. */
  lemma {:induction false} SeparatedEndsNumber(ws: seq<string>, seps: seq<string>, rest: string)
    requires ws != [] && |seps| == |ws| && SpaceSeparators(seps) && EndsNumber(rest)
    ensures EndsNumber(SepWords(ws[1..], seps[1..]) + rest)
  {
    var tail := SepWords(ws[1..], seps[1..]) + rest;
    if |ws| >= 2 {
      assert seps[1] != [] && IsSpace(seps[1][0]);
      SepWordsSplit(ws[1..], seps[1..], rest);
      assert tail[0] == seps[1][0];
    } else {
      assert ws[1..] == [] && tail == rest;
    }
  }

  /** An unsigned numeral that fits in 32 bits, followed by a non-digit or
      nothing, is extracted whole by `in >> val`. */
  lemma {:induction false} ReadUnsignedNumeral(w: string, n: nat, rest: string)
    requires IsNatNumeral(w, n) && n < UintModulus && (rest == [] || !IsDigit(rest[0]))
    ensures ReadUnsigned(w + rest) == Extracted(n, rest)
  {
    DigitSplitOf(w, rest);
    assert (w + rest)[0] == w[0];
  }

  /** getline stops at the first delimiter and consumes it. */
  lemma {:induction false} GetLineAt(w: string, c: char, rest: string)
    requires c !in w
    ensures GetLine(w + [c] + rest, c) == Some((w, rest))
  {
    UntilOf(w, c, [c] + rest);
    assert w + [c] + rest == w + ([c] + rest);
    assert (w + [c] + rest)[|w| + 1..] == rest;
  }

  /** Without a delimiter, getline extracts everything that is left. */
  lemma {:induction false} GetLineToEnd(w: string, c: char)
    requires c !in w && w != []
    ensures GetLine(w, c) == Some((w, []))
  {
    UntilOf(w, c, []);
    assert w + [] == w;
  }

  /** getline passes over a prefix without its delimiter. */
  lemma {:induction false} GetLineAfter(p: string, c: char, s: string)
    requires c !in p && s != []
    ensures GetLine(p + s, c) == Some((p + GetLine(s, c).value.0, GetLine(s, c).value.1))
  {
    var u := Until(s, c);
    UntilAfter(p, c, s);
    if |u| < |s| {
      assert (p + s)[|p + u| + 1..] == s[|u| + 1..];
    }
  }

  /** stoi skips leading white space. */
  lemma {:induction false} StoiAfterSpace(sp: string, t: string)
    requires AllSpace(sp)
    ensures Stoi(sp + t) == Stoi(t)
  {
    SkipSpaceAfter(sp, t);
  }

  /** A numeral whose value fits in `int` is read back by stoi. */
  lemma {:induction false} StoiOfNumeral(w: string, a: int)
    requires IsIntNumeral(w, a) && IntMin <= a <= IntMax
    ensures Stoi(w) == Some(a)
  {
    var digits := if a < 0 then w[1..] else w;
    DigitSplitOf(digits, []);
    assert digits + [] == digits;
  }

  /** A field that starts with something other than white space, a sign, a
      point or a digit: no number can be read from it. */
  predicate NotNumber(s: string) {
    s != [] && !(IsSpace(s[0]) || IsDigit(s[0]) || s[0] == '+' || s[0] == '-' || s[0] == '.')
  }

  /** On such a field both `in >> f` and `in >> val` fail without reading
      anything, and storing 0 completes a last float field. */
  lemma {:induction false} NotNumberFails(s: string)
    requires NotNumber(s)
    ensures ReadReal(s) == BadField && ReadUnsigned(s) == BadField
    ensures ReadReals(s, 1) == Some([0.0])
  {
    assert SkipSpace(s) == s;
    assert DigitSplit(s) == ([], s);
  }
}
