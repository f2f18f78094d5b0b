/** Characters, decimal numerals and the std::string operations the OBJ loader
    relies on (`substr`, `find`, `isspace`), over strings as `seq<char>`.
    An input stream is modelled by the text it has not consumed yet. */
module Text {

  datatype Option<T> = None | Some(value: T)

  /** Range of the 32-bit `int` that `std::stoi` returns. */
  const IntMin: int := -0x8000_0000
  const IntMax: int := 0x7FFF_FFFF
  /** `GLuint` is a 32-bit unsigned integer. */
  const UintModulus: nat := 0x1_0000_0000

  predicate IsDigit(c: char) { '0' <= c <= '9' }

  /** The characters `isspace` accepts in the C locale; `>>` and `stoi` skip them. */
  predicate IsSpace(c: char) {
    c == ' ' || c == '\t' || c == '\n' || c == '\U{000B}' || c == '\U{000C}' || c == '\r'
  }

  predicate AllDigits(s: string) {
    forall i | 0 <= i < |s| :: IsDigit(s[i])
  }

  function DigitValue(c: char): (d: nat)
    requires IsDigit(c)
    ensures d < 10
  {
    c as int - '0' as int
  }

  function DigitChar(d: nat): (c: char)
    requires d < 10
    ensures IsDigit(c) && DigitValue(c) == d
  {
    ('0' as int + d) as char
  }

  /** The value of a decimal numeral, most significant digit first. */
  function DigitsValue(s: string): nat
    requires AllDigits(s)
  {
    if s == [] then 0 else DigitsValue(s[..|s| - 1]) * 10 + DigitValue(s[|s| - 1])
  }

  /** The value of the digits written after a decimal point. */
  function FractionValue(s: string): (v: real)
    requires AllDigits(s)
    ensures 0.0 <= v <= 1.0
  {
    if s == [] then 0.0 else (DigitValue(s[0]) as real + FractionValue(s[1..])) / 10.0
  }

  /** w is a decimal numeral of n (leading zeros allowed). */
  predicate IsNatNumeral(w: string, n: nat) {
    w != [] && AllDigits(w) && DigitsValue(w) == n
  }

  /** w is a decimal numeral of a: the digits of |a|, after a '-' when a < 0. */
  predicate IsIntNumeral(w: string, a: int) {
    if a < 0 then |w| >= 2 && w[0] == '-' && IsNatNumeral(w[1..], -a) else IsNatNumeral(w, a)
  }

  /** w is an unsigned decimal numeral of x: digits, optionally followed by a
      point and more digits. */
  predicate IsUnsignedDecimal(w: string, x: real) {
    var (whole, after) := DigitSplit(w);
    whole != []
    && ((after == [] && x == DigitsValue(whole) as real)
        || (after != [] && after[0] == '.' && AllDigits(after[1..]) && x == DigitsValue(whole) as real + FractionValue(after[1..])))
  }

  /** w is a decimal numeral of x, with a '-' in front when x is negative. */
  predicate IsDecimal(w: string, x: real) {
    if x < 0.0 then |w| >= 2 && w[0] == '-' && IsUnsignedDecimal(w[1..], -x) else IsUnsignedDecimal(w, x)
  }

  /** Decimal rendering of n, without leading zeros; reading it back gives n. */
  function NatToString(n: nat): (s: string)
    ensures IsNatNumeral(s, n)
    decreases n
  {
    if n < 10 then [DigitChar(n)]
    else
      var init := NatToString(n / 10);
      var s := init + [DigitChar(n % 10)];
      assert s[..|s| - 1] == init;
      s
  }

  /** Decimal rendering of an integer, with a leading '-' when negative. */
  function IntToString(a: int): (s: string)
    ensures IsIntNumeral(s, a)
  {
    if a < 0 then
      var s := "-" + NatToString(-a);
      assert s[1..] == NatToString(-a);
      s
    else NatToString(a)
  }

  /** `s.substr(0, n)`: the first n characters, or all of s when it is shorter. */
  function Prefix(s: string, n: nat): (r: string)
    ensures r <= s
    ensures |r| == if |s| < n then |s| else n
  {
    if |s| < n then s else s[..n]
  }

  /** `t.substr(0, 2) == "x "` for a one-letter tag x: exactly the lines whose
      first two characters are the tag and a blank; a longer tag such as "vn",
      or the tag alone, fails. */
  function HasTag(t: string, tag: char): (b: bool)
    ensures b <==> |t| >= 2 && t[0] == tag && t[1] == ' '
  {
    Prefix(t, 2) == [tag, ' ']
  }

  /** The text before the first c; all of s when it holds no c. */
  function Until(s: string, c: char): (r: string)
    ensures r <= s && c !in r
    ensures |r| == |s| || s[|r|] == c
  {
    if s == [] || s[0] == c then [] else [s[0]] + Until(s[1..], c)
  }

  /** The text after leading white space. */
  function SkipSpace(s: string): (r: string)
    ensures |r| <= |s|
    ensures r == [] || !IsSpace(r[0])
  {
    if s == [] || !IsSpace(s[0]) then s else SkipSpace(s[1..])
  }

  /** Only white space. */
  predicate AllSpace(s: string) {
    forall i | 0 <= i < |s| :: IsSpace(s[i])
  }

  /** Skipping white space in white space leaves nothing. */
  lemma {:induction false} SkipAllSpace(s: string)
    requires AllSpace(s)
    ensures SkipSpace(s) == []
    decreases |s|
  {
    if s != [] {
      assert AllSpace(s[1..]) by {
        forall i | 0 <= i < |s| - 1 ensures IsSpace(s[1..][i]) {
          assert s[1..][i] == s[i + 1];
        }
      }
      SkipAllSpace(s[1..]);
    }
  }

  /** What follows a prefix of white space is white space. */
  lemma {:induction false} AllSpaceSuffix(p: string, r: string)
    requires AllSpace(p + r)
    ensures AllSpace(r)
  {
    forall i | 0 <= i < |r| ensures IsSpace(r[i]) {
      assert r[i] == (p + r)[|p| + i];
    }
  }

  /** The leading run of digits, and the text after it. */
  function DigitSplit(s: string): (p: (string, string))
    ensures AllDigits(p.0) && |p.0| + |p.1| == |s|
    ensures p.1 == [] || !IsDigit(p.1[0])
  {
    if s == [] || !IsDigit(s[0]) then ([], s)
    else
      var q := DigitSplit(s[1..]);
      assert s == [s[0]] + s[1..];
      ([s[0]] + q.0, q.1)
  }

  /** The digit run and the text after it make up the whole text. */
  lemma {:induction false} DigitSplitJoins(s: string)
    ensures s == DigitSplit(s).0 + DigitSplit(s).1
  {
    if s != [] && IsDigit(s[0]) {
      DigitSplitJoins(s[1..]);
      assert s == [s[0]] + s[1..];
    }
  }

  /** The digit run of digits followed by a non-digit is those digits. */
  lemma {:induction false} DigitSplitOf(w: string, r: string)
    requires AllDigits(w) && (r == [] || !IsDigit(r[0]))
    ensures DigitSplit(w + r) == (w, r)
  {
    if w != [] {
      var s := w + r;
      assert s[0] == w[0] && IsDigit(w[0]) && s[1..] == w[1..] + r;
      DigitSplitOf(w[1..], r);
      assert DigitSplit(s) == ([s[0]] + DigitSplit(s[1..]).0, DigitSplit(s[1..]).1);
      assert [w[0]] + w[1..] == w;
    } else {
      assert w + r == r;
    }
  }

  /** The unsigned 32-bit value a C++ integer in [-2^32, 2^32) takes when it
      is stored into a `GLuint`: the one value of that range congruent to it
      modulo 2^32. */
  function ToGLuint(k: int): (u: nat)
    requires -0x1_0000_0000 <= k < UintModulus
    ensures u < UintModulus
    ensures u == k || u == k + UintModulus
  {
    if k < 0 then k + UintModulus else k
  }

  /** `t.substr(t.find(" ") + 1)`: the text after the first space. With no
      space, `npos + 1` wraps to 0 and the whole line is kept. */
  function AfterFirstSpace(t: string): (rest: string)
    ensures ' ' in t ==> t == Until(t, ' ') + " " + rest
    ensures ' ' !in t ==> rest == t
  {
    var head := Until(t, ' ');
    if |head| < |t| then
      assert t == head + [' '] + t[|head| + 1..];
      t[|head| + 1..]
    else t
  }

  /** A line made of a one-letter tag, a blank and s: its first two
      characters are the tag and the blank, and after its first space comes s. */
  lemma {:induction false} TaggedLine(t: string, tag: char, s: string)
    requires tag != ' ' && t == [tag, ' '] + s
    ensures HasTag(t, tag)
    ensures AfterFirstSpace(t) == s
  {
    assert t[0] == tag && t[1] == ' ';
    UntilOf([tag], ' ', " " + s);
    assert t == [tag] + " " + s;
  }

  /** Until stops at the first c, wherever the text is split. */
  lemma {:induction false} UntilOf(w: string, c: char, r: string)
    requires c !in w && (r == [] || r[0] == c)
    ensures Until(w + r, c) == w
  {
    if w != [] {
      assert (w + r)[0] == w[0] && (w + r)[1..] == w[1..] + r;
      UntilOf(w[1..], c, r);
    }
  }

  /** Words, each preceded by its own separator. */
  function SepWords(ws: seq<string>, seps: seq<string>): string
    requires |seps| == |ws|
  {
    if ws == [] then [] else seps[0] + ws[0] + SepWords(ws[1..], seps[1..])
  }

  /** Separators that `>>` skips: white space, and not empty between two
      words (the first one, before the first word, may be). */
  predicate SpaceSeparators(seps: seq<string>) {
    forall i | 0 <= i < |seps| :: AllSpace(seps[i]) && (i > 0 ==> seps[i] != [])
  }

  /** Separators that `getline(in, t, ' ')` stops in: white space, and
      holding at least one blank between two words. */
  predicate BlankSeparators(seps: seq<string>) {
    forall i | 0 <= i < |seps| :: AllSpace(seps[i]) && (i > 0 ==> ' ' in seps[i])
  }

  /** The separators of words joined by single blanks. */
  function SingleBlanks(n: nat): (seps: seq<string>)
    ensures |seps| == n && SpaceSeparators(seps) && BlankSeparators(seps)
    ensures forall i | 0 <= i < n :: seps[i] == if i == 0 then [] else " "
  {
    seq(n, i => if i == 0 then [] else " ")
  }

  /** Words separated by single blanks, as a writer produces them. */
  function Joined(ws: seq<string>): string {
    SepWords(ws, SingleBlanks(|ws|))
  }

  /** The first separator and word, then the others. */
  lemma {:induction false} SepWordsSplit(ws: seq<string>, seps: seq<string>, rest: string)
    requires |seps| == |ws| && ws != []
    ensures SepWords(ws, seps) + rest == seps[0] + (ws[0] + (SepWords(ws[1..], seps[1..]) + rest))
  {
  }

  /** The first separator, the first word, then the rest of the text. */
  lemma {:induction false} SepWordsCons(ws: seq<string>, seps: seq<string>)
    requires |seps| == |ws| && ws != []
    ensures SepWords(ws, seps) == seps[0] + (ws[0] + SepWords(ws[1..], seps[1..]))
  {
    Regroup(seps[0], ws[0], SepWords(ws[1..], seps[1..]));
  }

  /** Separators after the first are separators of the same kind. */
  lemma {:induction false} SeparatorsTail(seps: seq<string>)
    requires seps != []
    ensures SpaceSeparators(seps) ==> SpaceSeparators(seps[1..])
    ensures BlankSeparators(seps) ==> BlankSeparators(seps[1..])
  {
    forall i | 0 <= i < |seps| - 1 ensures seps[1..][i] == seps[i + 1] {
    }
  }

  /** Two words with their separators. */
  lemma {:induction false} SepWordsTwo(a: string, b: string, s0: string, s1: string)
    ensures SepWords([a, b], [s0, s1]) == s0 + a + s1 + b
  {
    assert [a, b][1..] == [b] && [s0, s1][1..] == [s1];
    assert [b][1..] == [] && [s1][1..] == [];
    assert SepWords([b], [s1]) == s1 + b + [];
  }

  /** Three words with their separators. */
  lemma {:induction false} SepWordsThree(a: string, b: string, c: string, s0: string, s1: string, s2: string)
    ensures SepWords([a, b, c], [s0, s1, s2]) == s0 + a + s1 + b + s2 + c
  {
    assert [a, b, c][1..] == [b, c] && [s0, s1, s2][1..] == [s1, s2];
    SepWordsTwo(b, c, s1, s2);
  }

  /** A character in no word and no separator is not in the text. */
  lemma {:induction false} SepWordsWithout(ws: seq<string>, seps: seq<string>, c: char)
    requires |seps| == |ws|
    requires forall i | 0 <= i < |ws| :: c !in ws[i] && c !in seps[i]
    ensures c !in SepWords(ws, seps)
  {
    if ws != [] {
      SepWordsWithout(ws[1..], seps[1..], c);
      assert c !in ws[0] && c !in seps[0];
    }
  }

  /** White space holds no character other than white space. */
  lemma {:induction false} SpaceWithout(sp: string, c: char)
    requires AllSpace(sp) && !IsSpace(c)
    ensures c !in sp
  {
    forall i | 0 <= i < |sp| ensures sp[i] != c {
      assert IsSpace(sp[i]);
    }
  }

  /** Skipping white space skips a white-space prefix first. */
  lemma {:induction false} SkipSpaceAfter(sp: string, s: string)
    requires AllSpace(sp)
    ensures SkipSpace(sp + s) == SkipSpace(s)
    decreases |sp|
  {
    if sp != [] {
      assert (sp + s)[0] == sp[0] && IsSpace(sp[0]);
      assert (sp + s)[1..] == sp[1..] + s;
      assert [sp[0]] + sp[1..] == sp;
      AllSpaceSuffix([sp[0]], sp[1..]);
      assert SkipSpace(sp + s) == SkipSpace(sp[1..] + s);
      SkipSpaceAfter(sp[1..], s);
    } else {
      assert sp + s == s;
    }
  }

  /** Until passes over a prefix without c. */
  lemma {:induction false} UntilAfter(p: string, c: char, s: string)
    requires c !in p
    ensures Until(p + s, c) == p + Until(s, c)
    decreases |p|
  {
    if p != [] {
      assert [p[0]] + p[1..] == p;
      assert (p + s)[0] == p[0] && (p + s)[1..] == p[1..] + s;
      assert Until(p + s, c) == [p[0]] + Until(p[1..] + s, c);
      UntilAfter(p[1..], c, s);
      Regroup([p[0]], p[1..], Until(s, c));
    } else {
      assert p + s == s;
    }
  }

  /** White space holding a blank splits at its first blank into white
      space, the blank and white space. */
  lemma {:induction false} SplitAtBlank(sep: string)
    requires AllSpace(sep) && ' ' in sep
    ensures var b := Until(sep, ' ');
      |b| < |sep| && sep == b + [' '] + sep[|b| + 1..] && AllSpace(sep[|b| + 1..])
  {
    var b := Until(sep, ' ');
    var c := sep[|b| + 1..];
    assert sep == b + [' '] + c;
    AllSpaceSuffix(b + [' '], c);
  }

  /** Moving the head of the rest of a list onto the part already built. */
  lemma {:induction false} ShiftOne<T>(done: seq<T>, x: T, rest: seq<T>)
    ensures done + ([x] + rest) == (done + [x]) + rest
  {
  }

  /** A prefix written before three separated words and a tail is a prefix
      of the whole of them. */
  lemma {:induction false} PrefixThree<T>(p: seq<T>, s0: seq<T>, a: seq<T>, s1: seq<T>, b: seq<T>, s2: seq<T>, c: seq<T>, tail: seq<T>)
    ensures p + s0 + a + s1 + b + s2 + c + tail == p + (s0 + a + s1 + b + s2 + c + tail)
  {
    Regroup(p, s0, a);
    Regroup(p, s0 + a, s1);
    Regroup(p, s0 + a + s1, b);
    Regroup(p, s0 + a + s1 + b, s2);
    Regroup(p, s0 + a + s1 + b + s2, c);
    Regroup(p, s0 + a + s1 + b + s2 + c, tail);
  }

  /** Concatenation regroups; stated apart so that callers with large
      contexts need not rediscover it element by element. */
  lemma {:induction false} Regroup<T>(a: seq<T>, b: seq<T>, c: seq<T>)
    ensures a + (b + c) == (a + b) + c
  {
  }
}
