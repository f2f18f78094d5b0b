/** `generate_faces` (main.cpp:38-65): every line starting with "f " adds one
    face, the list of its vertex references turned from 1-based to 0-based and
    stored as `GLuint`. */
module ObjFaces {
  import opened Text
  import opened Extract
  import opened LineScan

  /** `t.substr(0, 2) == "f "` (main.cpp:43). */
  predicate IsFaceLine(t: string) {
    HasTag(t, 'f')
  }

  /** Every entry fits in a `GLuint`. */
  predicate AllGLuint(face: seq<nat>) {
    forall i | 0 <= i < |face| :: face[i] < UintModulus
  }

  /** What `val` holds after `in >> val` when it held `val` before; None
      when its value is not known (never assigned, or a read the model does
      not cover). */
  function Stored(read: Extraction<nat>, val: Option<nat>): (v: Option<nat>)
    requires read.Extracted? ==> read.value < UintModulus
    requires val.Some? ==> val.value < UintModulus
    ensures v.Some? ==> v.value < UintModulus
    ensures read.NoField? ==> v == val
  {
    match read
    case Extracted(x, _) => Some(x)
    case NoField => val
    case BadField => Some(0)
    case OutOfRange => Some(UintModulus - 1)
    case Unsupported => None
  }

  /** The loop of the plain branch (main.cpp:49-55) on the stream s, with
      `val` holding what the previous turn left in it: `in >> val`, then
      `val - 1` is stored whether the read succeeded or not, then
      `getline(in, t, ' ')` skips to just after the next blank. The loop ends
      when the stream has failed: after a failed `in >> val`, or when the
      getline finds nothing left. None when an entry would be stored from a
      `val` whose value is not known. */
  function PlainFrom(s: string, val: Option<nat>): (r: Option<seq<nat>>)
    requires val.Some? ==> val.value < UintModulus
    ensures r.Some? ==> |r.value| > 0 && AllGLuint(r.value)
    decreases |s|
  {
    var read := ReadUnsigned(s);
    var v := Stored(read, val);
    if v.None? then None
    else
      var entry := ToGLuint(v.value - 1);
      var skip := if read.Extracted? then GetLine(read.rest, ' ') else None;
      if skip.None? then Some([entry])
      else
        var more := PlainFrom(skip.value.1, v);
        if more.None? then None else Some([entry] + more.value)
  }

  /** The loop of the slash branch (main.cpp:57-61) on the stream s:
      `getline(in, t, '/')` takes the text up to the next '/' and fails only
      when nothing is left, `stoi(t) - 1` is stored, and `getline(in, t, ' ')`
      skips the rest of the group, texture and normal references included.
      None stands for `stoi` throwing, or for `stoi(t) - 1` overflowing `int`. */
  function SlashFrom(s: string): (r: Option<seq<nat>>)
    ensures r.Some? ==> AllGLuint(r.value)
    decreases |s|
  {
    var field := GetLine(s, '/');
    if field.None? then Some([])
    else
      var k := Stoi(field.value.0);
      if k.None? || k.value == IntMin then None
      else
        var skip := GetLine(field.value.1, ' ');
        var after := if skip.None? then [] else skip.value.1;
        var rest := SlashFrom(after);
        if rest.None? then None else Some([ToGLuint(k.value - 1)] + rest.value)
  }

  /** The face of a face line (main.cpp:45-61): the text after the first space
      goes through the plain loop when the line has no '/', else through the
      slash loop. */
  function ParseFace(t: string): (r: Option<seq<nat>>)
    ensures r.Some? ==> AllGLuint(r.value)
    ensures '/' !in t && r.Some? ==> |r.value| > 0
    ensures '/' !in t && SkipSpace(AfterFirstSpace(t)) == [] ==> r.None?
  {
    var s := AfterFirstSpace(t);
    if '/' !in t then PlainFrom(s, None) else SlashFrom(s)
  }

  /** Every face line of the input is one the program reads as intended. */
  predicate FaceLinesParse(lines: seq<string>) {
    AllParse(lines, IsFaceLine, ParseFace)
  }

  /** The faces the lines describe: one per face line, in file order. */
  function FacesOf(lines: seq<string>): seq<seq<nat>>
    requires FaceLinesParse(lines)
  {
    Collected(lines, IsFaceLine, ParseFace)
  }

  /** The face lines of the input, in order. */
  function FaceLines(lines: seq<string>): seq<string> {
    Kept(lines, IsFaceLine)
  }

  /** The plain branch (main.cpp:47-56) run on the text s after the first space. */
  method ExtractPlainFace(s: string) returns (face: seq<nat>)
    requires PlainFrom(s, None).Some?
    ensures face == PlainFrom(s, None).value
  {
    face := [];
    var input := s;
    var val: Option<nat> := None;                       // GLuint val;
    var good := true;
    while good
      invariant val.Some? ==> val.value < UintModulus
      invariant good ==> PlainFrom(input, val).Some? && face + PlainFrom(input, val).value == PlainFrom(s, None).value
      invariant !good ==> face == PlainFrom(s, None).value
      decreases |input| + (if good then 1 else 0)
    {
      var read := ReadUnsigned(input);                  // in >> val
      val := Stored(read, val);
      var entry := ToGLuint(val.value - 1);
      var skip := if read.Extracted? then GetLine(read.rest, ' ') else None;  // getline(in, t, ' ')
      if skip.None? {
        face := face + [entry];
        good := false;
      } else {
        ShiftOne(face, entry, PlainFrom(skip.value.1, val).value);
        face := face + [entry];
        input := skip.value.1;
      }
    }
  }

  /** The slash branch (main.cpp:57-61) run on the text s after the first space. */
  method ExtractSlashFace(s: string) returns (face: seq<nat>)
    requires SlashFrom(s).Some?
    ensures face == SlashFrom(s).value
  {
    face := [];
    var input := s;
    var good := true;
    while good
      invariant SlashFrom(input).Some? && face + SlashFrom(input).value == SlashFrom(s).value
      invariant !good ==> SlashFrom(input).value == []
      decreases |input| + (if good then 1 else 0)
    {
      var field := GetLine(input, '/');                 // getline(in, t, '/')
      if field.None? {
        good := false;
      } else {
        var entry := ToGLuint(Stoi(field.value.0).value - 1);
        var skip := GetLine(field.value.1, ' ');        // getline(in, t, ' ')
        var after := if skip.None? then [] else skip.value.1;
        SlashStep(input, field.value, entry, after);
        ShiftOne(face, entry, SlashFrom(after).value);
        face := face + [entry];
        input := after;
      }
    }
    assert face + [] == face;
  }

  /** One turn of the slash loop: the entry of the first group, then the
      entries of the groups after the next blank. */
  lemma {:induction false} SlashStep(input: string, field: (string, string), entry: nat, after: string)
    requires SlashFrom(input).Some? && GetLine(input, '/') == Some(field)
    requires Stoi(field.0).Some? && entry == ToGLuint(Stoi(field.0).value - 1)
    requires after == var skip := GetLine(field.1, ' '); if skip.None? then [] else skip.value.1
    ensures |after| < |input| && SlashFrom(after).Some?
    ensures SlashFrom(input).value == [entry] + SlashFrom(after).value
  {
    var k := Stoi(field.0).value;
    var rest := SlashFrom(after);
    assert SlashFrom(input) == if k == IntMin || rest.None? then None else Some([ToGLuint(k - 1)] + rest.value);
  }

  /** `generate_faces(faces, file)`: the vector passed by reference comes in as
      `faces` and goes out as `result`; the lines stand for the file. */
  method GenerateFaces(faces: seq<seq<nat>>, lines: seq<string>) returns (result: seq<seq<nat>>)
    requires FaceLinesParse(lines)
    ensures result == faces + FacesOf(lines)
  {
    result := faces;
    var i := 0;
    while i < |lines|
      invariant 0 <= i <= |lines|
      invariant result == faces + FacesOf(lines[..i])
    {
      var t := lines[i];
      CollectedNext(lines, i, IsFaceLine, ParseFace);
      if IsFaceLine(t) {
        var face: seq<nat>;
        var rest := AfterFirstSpace(t);
        assert ParseFace(t).Some?;
        if '/' !in t {
          face := ExtractPlainFace(rest);
        } else {
          face := ExtractSlashFace(rest);
        }
        assert face == ParseFace(t).value;
        Regroup(faces, FacesOf(lines[..i]), [face]);
        result := result + [face];
      }
      i := i + 1;
    }
    assert lines[..|lines|] == lines;
  }

  /** The k-th face is read from the k-th face line, and there are as many
      faces as face lines. */
  lemma {:induction false} FacesInFileOrder(lines: seq<string>)
    requires FaceLinesParse(lines)
    ensures |FacesOf(lines)| == |FaceLines(lines)|
    ensures forall k | 0 <= k < |FaceLines(lines)| ::
      ParseFace(FaceLines(lines)[k]).Some? && FacesOf(lines)[k] == ParseFace(FaceLines(lines)[k]).value
  {
    CollectedInFileOrder(lines, IsFaceLine, ParseFace);
  }

  /** The entries a list of 1-based indices k is stored as: `k - 1` as a `GLuint`. */
  function StoredIndices(ks: seq<int>): (r: seq<nat>)
    requires forall i | 0 <= i < |ks| :: -0x1_0000_0000 < ks[i] <= UintModulus
    ensures |r| == |ks| && forall i | 0 <= i < |ks| :: r[i] == ToGLuint(ks[i] - 1)
  {
    seq(|ks|, i requires 0 <= i < |ks| => ToGLuint(ks[i] - 1))
  }

  /** A slash group: the vertex reference w, a '/', then the texture and
      normal references t. */
  function Group(w: string, t: string): string {
    w + "/" + t
  }

  /** The groups `ws[i]/ts[i]`, in order. */
  function Groups(ws: seq<string>, ts: seq<string>): (gs: seq<string>)
    requires |ws| == |ts|
    ensures |gs| == |ws|
  {
    if ws == [] then [] else [Group(ws[0], ts[0])] + Groups(ws[1..], ts[1..])
  }

  lemma {:induction false} GroupsHead(ws: seq<string>, ts: seq<string>)
    requires |ws| == |ts| && ws != []
    ensures Groups(ws, ts)[0] == Group(ws[0], ts[0])
    ensures Groups(ws, ts)[1..] == Groups(ws[1..], ts[1..])
  {
  }

  /** A numeral holds neither a '/' nor a blank. */
  lemma {:induction false} NumeralChars(w: string, a: int)
    requires IsIntNumeral(w, a)
    ensures '/' !in w && ' ' !in w
  {
    var digits := if a < 0 then w[1..] else w;
    assert forall i | 0 <= i < |w| :: w[i] == '-' || IsDigit(w[i]) by {
      forall i | 0 <= i < |w| ensures w[i] == '-' || IsDigit(w[i]) {
        if a < 0 && i > 0 { assert w[i] == digits[i - 1]; }
      }
    }
  }

  lemma {:induction false} StoredCons(ks: seq<int>)
    requires ks != [] && forall i | 0 <= i < |ks| :: -0x1_0000_0000 < ks[i] <= UintModulus
    ensures StoredIndices(ks) == [ToGLuint(ks[0] - 1)] + StoredIndices(ks[1..])
  {
    var a, b := StoredIndices(ks), [ToGLuint(ks[0] - 1)] + StoredIndices(ks[1..]);
    forall i | 0 <= i < |a| ensures a[i] == b[i] {
      if i > 0 { assert ks[1..][i - 1] == ks[i]; }
    }
  }

  /** A turn of the plain loop that reads v and then finds the text exhausted. */
  lemma {:induction false} PlainLast(s: string, v: nat, val: Option<nat>)
    requires ReadUnsigned(s) == Extracted(v, []) && (val.Some? ==> val.value < UintModulus)
    ensures PlainFrom(s, val) == Some([ToGLuint(v - 1)])
  {
  }

  /** A turn of the plain loop that reads v and skips to next. */
  lemma {:induction false} PlainNext(s: string, v: nat, rest: string, field: string, next: string, val: Option<nat>)
    requires ReadUnsigned(s) == Extracted(v, rest) && GetLine(rest, ' ') == Some((field, next))
    requires val.Some? ==> val.value < UintModulus
    requires PlainFrom(next, Some(v)).Some?
    ensures PlainFrom(s, val) == Some([ToGLuint(v - 1)] + PlainFrom(next, Some(v)).value)
  {
  }

  /** A turn of the plain loop that finds only white space: `in >> val` fails
      without assigning val, and what val held is stored once more. */
  lemma {:induction false} PlainBlank(s: string, val: Option<nat>)
    requires AllSpace(s) && val.Some? && val.value < UintModulus
    ensures PlainFrom(s, val) == Some([ToGLuint(val.value - 1)])
  {
    SkipAllSpace(s);
  }

  /** A turn of the slash loop that reads the field w and goes on at after. */
  lemma {:induction false} SlashNext(s: string, w: string, rest: string, k: int, after: string)
    requires GetLine(s, '/') == Some((w, rest)) && Stoi(w) == Some(k) && k != IntMin
    requires after == var skip := GetLine(rest, ' '); if skip.None? then [] else skip.value.1
    requires SlashFrom(after).Some?
    ensures SlashFrom(s) == Some([ToGLuint(k - 1)] + SlashFrom(after).value)
  {
  }

  /** The last plain index, followed by nothing or by white space only. */
  lemma {:induction false} PlainSingle(w: string, k: int, tail: string, val: Option<nat>)
    requires IsIntNumeral(w, k) && 0 <= k < UintModulus && (val.Some? ==> val.value < UintModulus)
    requires AllSpace(tail)
    ensures PlainFrom(w + tail, val) == Some(if tail == [] then [ToGLuint(k - 1)] else [ToGLuint(k - 1), ToGLuint(k - 1)])
  {
    ReadUnsignedNumeral(w, k, tail);
    if tail == [] {
      PlainLast(w + tail, k, val);
    } else {
      var (field, next) := GetLine(tail, ' ').value;
      GetLineSplits(tail, ' ');
      AllSpaceSuffix(field + [' '], next);
      PlainBlank(next, Some(k));
      PlainNext(w + tail, k, tail, field, next, val);
      assert [ToGLuint(k - 1)] + [ToGLuint(k - 1)] == [ToGLuint(k - 1), ToGLuint(k - 1)];
    }
  }

  /** The plain loop skips leading white space: `in >> val` does. */
  lemma {:induction false} PlainAfterSpace(sp: string, s: string, val: Option<nat>)
    requires AllSpace(sp) && (val.Some? ==> val.value < UintModulus)
    ensures PlainFrom(sp + s, val) == PlainFrom(s, val)
  {
    SkipSpaceAfter(sp, s);
    assert ReadUnsigned(sp + s) == ReadUnsigned(s);
  }

  /** The slash loop skips leading white space before a group: the text up
      to the '/' goes to `stoi`, which skips it. */
  lemma {:induction false} SlashAfterSpace(sp: string, s: string)
    requires AllSpace(sp) && s != []
    ensures SlashFrom(sp + s) == SlashFrom(s)
  {
    SpaceWithout(sp, '/');
    GetLineAfter(sp, '/', s);
    StoiAfterSpace(sp, GetLine(s, '/').value.0);
  }

  /** Numerals of values in [0, 2^32), separated by white space holding a
      blank and followed by nothing or by white space only, are read by the
      plain loop one by one, each stored as its value minus one. After white
      space, the loop runs once more and stores the last value again. */
  lemma {:induction false} PlainNumerals(ws: seq<string>, ks: seq<int>, seps: seq<string>, tail: string, val: Option<nat>)
    requires ws != [] && Numerals(ws, ks) && forall i | 0 <= i < |ks| :: 0 <= ks[i] < UintModulus
    requires |seps| == |ws| && BlankSeparators(seps)
    requires AllSpace(tail) && (val.Some? ==> val.value < UintModulus)
    ensures PlainFrom(SepWords(ws, seps) + tail, val)
      == Some(StoredIndices(ks) + if tail == [] then [] else [ToGLuint(ks[|ks| - 1] - 1)])
    decreases |ws|
  {
    if |ws| == 1 {
      PlainOne(ws, ks, seps, tail, val);
    } else {
      assert ks[1..][|ks[1..]| - 1] == ks[|ks| - 1];
      NumeralsTail(ws, ks);
      SeparatorsTail(seps);
      var extra := if tail == [] then [] else [ToGLuint(ks[1..][|ks[1..]| - 1] - 1)];
      PlainNumerals(ws[1..], ks[1..], seps[1..], tail, Some(ks[0]));
      PlainFirst(ws, ks, seps, tail, val);
      StoredCons(ks);
      Regroup([ToGLuint(ks[0] - 1)], StoredIndices(ks[1..]), extra);
      assert PlainFrom(SepWords(ws, seps) + tail, val) == Some(StoredIndices(ks) + extra);
    }
  }

  /** The inductive step of PlainNumerals: the first numeral's entry, then
      what the loop reads from the separator and numerals after it, now
      holding the first value. */
  lemma {:induction false} PlainFirst(ws: seq<string>, ks: seq<int>, seps: seq<string>, tail: string, val: Option<nat>)
    requires |ws| > 1 && Numerals(ws, ks) && 0 <= ks[0] < UintModulus
    requires |seps| == |ws| && BlankSeparators(seps)
    requires val.Some? ==> val.value < UintModulus
    requires PlainFrom(SepWords(ws[1..], seps[1..]) + tail, Some(ks[0])).Some?
    ensures PlainFrom(SepWords(ws, seps) + tail, val)
      == Some([ToGLuint(ks[0] - 1)] + PlainFrom(SepWords(ws[1..], seps[1..]) + tail, Some(ks[0])).value)
  {
    assert AllSpace(seps[0]) && AllSpace(seps[1..][0]) && ' ' in seps[1..][0];
    assert IsIntNumeral(ws[0], ks[0]);
    var rest := SepWords(ws[1..], seps[1..]) + tail;
    var y := ws[1..][0] + (SepWords(ws[1..][1..], seps[1..][1..]) + tail);
    SepWordsSplit(ws, seps, tail);
    SepWordsSplit(ws[1..], seps[1..], tail);
    PlainCons(SepWords(ws, seps) + tail, seps[0], ws[0], ks[0], rest, seps[1..][0], y, val);
  }

  /** A numeral after white space, then white space holding a blank and
      more text: the numeral's entry, then what the loop reads from that
      text holding the numeral's value. */
  lemma {:induction false} PlainCons(s: string, sep0: string, w: string, k: int, rest: string, sep: string, y: string, val: Option<nat>)
    requires IsIntNumeral(w, k) && 0 <= k < UintModulus && (val.Some? ==> val.value < UintModulus)
    requires AllSpace(sep0) && AllSpace(sep) && ' ' in sep
    requires s == sep0 + (w + rest) && rest == sep + y
    requires PlainFrom(rest, Some(k)).Some?
    ensures PlainFrom(s, val) == Some([ToGLuint(k - 1)] + PlainFrom(rest, Some(k)).value)
  {
    PlainAfterSpace(sep0, w + rest, val);
    PlainAfterSpace(sep, y, Some(k));
    PlainHead(w, k, sep, y, val);
  }

  /** The first turn of the plain loop on a numeral followed by more: the
      value minus one is stored, getline skips to just after the next
      blank, and the loop goes on holding that value. */
  lemma {:induction false} PlainHead(w: string, k: int, sep: string, y: string, val: Option<nat>)
    requires IsIntNumeral(w, k) && 0 <= k < UintModulus && (val.Some? ==> val.value < UintModulus)
    requires AllSpace(sep) && ' ' in sep && PlainFrom(y, Some(k)).Some?
    ensures PlainFrom(w + (sep + y), val) == Some([ToGLuint(k - 1)] + PlainFrom(y, Some(k)).value)
  {
    SplitAtBlank(sep);
    var b := Until(sep, ' ');
    var c := sep[|b| + 1..];
    Regroup(b + [' '], c, y);
    assert (sep + y)[0] == sep[0] && IsSpace(sep[0]);
    ReadUnsignedNumeral(w, k, sep + y);
    GetLineAt(b, ' ', c + y);
    PlainAfterSpace(c, y, Some(k));
    PlainNext(w + (sep + y), k, sep + y, b, c + y, val);
  }

  /** PlainNumerals for a single numeral. */
  lemma {:induction false} PlainOne(ws: seq<string>, ks: seq<int>, seps: seq<string>, tail: string, val: Option<nat>)
    requires |ws| == 1 && Numerals(ws, ks) && forall i | 0 <= i < |ks| :: 0 <= ks[i] < UintModulus
    requires |seps| == 1 && AllSpace(seps[0])
    requires AllSpace(tail) && (val.Some? ==> val.value < UintModulus)
    ensures PlainFrom(SepWords(ws, seps) + tail, val)
      == Some(StoredIndices(ks) + if tail == [] then [] else [ToGLuint(ks[|ks| - 1] - 1)])
  {
    var e := ToGLuint(ks[0] - 1);
    assert StoredIndices(ks) == [e];
    assert [e] + [] == [e] && [e] + [e] == [e, e];
    assert ws[1..] == [] && seps[1..] == [];
    assert SepWords(ws, seps) + tail == seps[0] + (ws[0] + tail) by {
      assert SepWords(ws, seps) == seps[0] + ws[0] + [];
    }
    PlainSingle(ws[0], ks[0], tail, val);
    PlainAfterSpace(seps[0], ws[0] + tail, val);
  }

  /** A turn of the slash loop on a group `w/t` followed by nothing, or by
      white space b without a blank, a blank and the text after: the value of
      w minus one is stored and the loop goes on after the blank. */
  lemma {:induction false} SlashGroup(w: string, k: int, t: string, rest: string, b: string, after: string)
    requires IsIntNumeral(w, k) && IntMin < k <= IntMax && ' ' !in t
    requires (rest == [] && after == []) || (rest == b + [' '] + after && ' ' !in b)
    requires SlashFrom(after).Some?
    ensures SlashFrom(Group(w, t) + rest) == Some([ToGLuint(k - 1)] + SlashFrom(after).value)
  {
    var s := Group(w, t) + rest;
    GroupSplit(w, t, rest);
    NumeralChars(w, k);
    GetLineAt(w, '/', t + rest);
    StoiOfNumeral(w, k);
    if rest == [] {
      assert t + rest == t;
      if t != [] { GetLineToEnd(t, ' '); }
    } else {
      assert t + rest == (t + b) + [' '] + after;
      GetLineAt(t + b, ' ', after);
    }
    SlashNext(s, w, t + rest, k, after);
  }

  lemma {:induction false} GroupSplit(w: string, t: string, rest: string)
    ensures Group(w, t) + rest == w + ['/'] + (t + rest)
  {
  }

  /** Groups `w/t` separated by white space holding a blank, whose w are
      numerals of values in `int` other than its minimum, are read by the
      slash loop one by one: the value of w minus one is stored and t, which
      holds no blank, is skipped. */
  lemma {:induction false} SlashNumerals(ws: seq<string>, ks: seq<int>, ts: seq<string>, seps: seq<string>)
    requires ws != [] && Numerals(ws, ks) && forall i | 0 <= i < |ks| :: IntMin < ks[i] <= IntMax
    requires |ts| == |ws| && forall i | 0 <= i < |ts| :: ' ' !in ts[i]
    requires |seps| == |ws| && BlankSeparators(seps)
    ensures SlashFrom(SepWords(Groups(ws, ts), seps)) == Some(StoredIndices(ks))
    decreases |ws|
  {
    if |ws| == 1 {
      SlashOne(ws, ks, ts, seps);
    } else {
      NumeralsTail(ws, ks);
      SeparatorsTail(seps);
      assert forall i | 0 <= i < |ks[1..]| :: IntMin < ks[1..][i] <= IntMax;
      assert forall i | 0 <= i < |ts[1..]| :: ' ' !in ts[1..][i];
      SlashNumerals(ws[1..], ks[1..], ts[1..], seps[1..]);
      SlashFirstGroup(ws, ks, ts, seps);
      StoredCons(ks);
    }
  }

  /** The inductive step of SlashNumerals: the first group's entry, then
      what the loop reads from the separator and groups after it. */
  lemma {:induction false} SlashFirstGroup(ws: seq<string>, ks: seq<int>, ts: seq<string>, seps: seq<string>)
    requires |ws| > 1 && Numerals(ws, ks) && IntMin < ks[0] <= IntMax
    requires |ts| == |ws| && forall i | 0 <= i < |ts| :: ' ' !in ts[i]
    requires |seps| == |ws| && BlankSeparators(seps)
    requires SlashFrom(SepWords(Groups(ws[1..], ts[1..]), seps[1..])).Some?
    ensures SlashFrom(SepWords(Groups(ws, ts), seps))
      == Some([ToGLuint(ks[0] - 1)] + SlashFrom(SepWords(Groups(ws[1..], ts[1..]), seps[1..])).value)
  {
    var gs := Groups(ws, ts);
    var gs1 := Groups(ws[1..], ts[1..]);
    var rest := SepWords(gs1, seps[1..]);
    assert ' ' !in ts[0] && AllSpace(seps[0]) && IsIntNumeral(ws[0], ks[0]);
    assert AllSpace(seps[1..][0]) && ' ' in seps[1..][0];
    GroupsHead(ws, ts);
    GroupsHead(ws[1..], ts[1..]);
    assert gs[1..] == gs1;
    var y := gs1[0] + SepWords(gs1[1..], seps[1..][1..]);
    SepWordsCons(gs, seps);
    SepWordsCons(gs1, seps[1..]);
    Regroup(seps[1..][0], gs1[0], SepWords(gs1[1..], seps[1..][1..]));
    SlashCons(SepWords(gs, seps), ws[0], ks[0], ts[0], seps[0], rest, seps[1..][0], y);
  }

  /** A group after white space, then white space holding a blank and more
      text: the group's entry, then what the loop reads from that text. */
  lemma {:induction false} SlashCons(s: string, w: string, k: int, t: string, sep0: string, rest: string, sep: string, y: string)
    requires IsIntNumeral(w, k) && IntMin < k <= IntMax && ' ' !in t
    requires AllSpace(sep0) && AllSpace(sep) && ' ' in sep && y != []
    requires rest == sep + y && s == sep0 + (Group(w, t) + rest)
    requires SlashFrom(rest).Some?
    ensures SlashFrom(s) == Some([ToGLuint(k - 1)] + SlashFrom(rest).value)
  {
    SlashAfterSpace(sep0, Group(w, t) + rest);
    SlashRest(sep, y);
    var b := Until(sep, ' ');
    SlashGroup(w, k, t, rest, b, sep[|b| + 1..] + y);
  }

  /** White space holding a blank, then the next group: the white space
      before the blank, the blank, and text the slash loop reads as it reads
      the next group. */
  lemma {:induction false} SlashRest(sep: string, y: string)
    requires AllSpace(sep) && ' ' in sep && y != []
    ensures var b := Until(sep, ' ');
      ' ' !in b && sep + y == b + [' '] + (sep[|b| + 1..] + y) && SlashFrom(sep[|b| + 1..] + y) == SlashFrom(sep + y)
  {
    SplitAtBlank(sep);
    var b := Until(sep, ' ');
    var c := sep[|b| + 1..];
    SlashAfterSpace(sep, y);
    SlashAfterSpace(c, y);
    Regroup(b + [' '], c, y);
  }

  /** SlashNumerals for a single group. */
  lemma {:induction false} SlashOne(ws: seq<string>, ks: seq<int>, ts: seq<string>, seps: seq<string>)
    requires |ws| == 1 && Numerals(ws, ks) && forall i | 0 <= i < |ks| :: IntMin < ks[i] <= IntMax
    requires |ts| == |ws| && forall i | 0 <= i < |ts| :: ' ' !in ts[i]
    requires |seps| == |ws| && BlankSeparators(seps)
    ensures SlashFrom(SepWords(Groups(ws, ts), seps)) == Some(StoredIndices(ks))
  {
    assert StoredIndices(ks) == [ToGLuint(ks[0] - 1)];
    assert IntMin < ks[0] <= IntMax && ' ' !in ts[0] && AllSpace(seps[0]);
    var gs := Groups(ws, ts);
    GroupsHead(ws, ts);
    SepWordsCons(gs, seps);
    assert gs[1..] == [] && seps[1..] == [];
    assert SepWords(gs[1..], seps[1..]) == [];
    SlashLast(SepWords(gs, seps), ws[0], ks[0], ts[0], seps[0]);
  }

  /** A last group after white space: its entry alone. */
  lemma {:induction false} SlashLast(s: string, w: string, k: int, t: string, sep0: string)
    requires IsIntNumeral(w, k) && IntMin < k <= IntMax && ' ' !in t
    requires AllSpace(sep0) && s == sep0 + (Group(w, t) + [])
    ensures SlashFrom(s) == Some([ToGLuint(k - 1)])
  {
    var e := ToGLuint(k - 1);
    var g := Group(w, t) + [];
    assert [e] + [] == [e];
    assert SlashFrom([]) == Some([]);
    SlashGroup(w, k, t, [], [], []);
    SlashAfterSpace(sep0, g);
  }

  /** A face line `f k1 k2 ...` of numerals of values in [0, 2^32),
      separated by white space holding a blank, with nothing or only white
      space after the last one, goes through the plain loop
      (main.cpp:47-55): each value minus one is stored as a `GLuint`, in
      order. When white space follows the last numeral, the last `in >> val`
      fails, leaves val as it was, and the last index is stored twice. */
  lemma {:induction false} PlainFaceText(t: string, ws: seq<string>, ks: seq<int>, seps: seq<string>, tail: string)
    requires ws != [] && Numerals(ws, ks) && forall i | 0 <= i < |ks| :: 0 <= ks[i] < UintModulus
    requires |seps| == |ws| && BlankSeparators(seps)
    requires AllSpace(tail) && t == "f " + (SepWords(ws, seps) + tail)
    ensures IsFaceLine(t)
    ensures ParseFace(t) == Some(StoredIndices(ks) + if tail == [] then [] else [ToGLuint(ks[|ks| - 1] - 1)])
  {
    TaggedLine(t, 'f', SepWords(ws, seps) + tail);
    forall i | 0 <= i < |ws| ensures '/' !in ws[i] && '/' !in seps[i] {
      NumeralChars(ws[i], ks[i]);
      SpaceWithout(seps[i], '/');
    }
    SepWordsWithout(ws, seps, '/');
    SpaceWithout(tail, '/');
    assert '/' !in t;
    PlainNumerals(ws, ks, seps, tail, None);
  }

  /** A face line `f k1 k2 ...` of numerals of indices in [1, 2^32),
      separated by white space holding a blank, yields the face of the
      indices minus one, in order (main.cpp:47-55). */
  lemma {:induction false} PlainFaceLine(t: string, ws: seq<string>, ks: seq<int>, seps: seq<string>)
    requires ws != [] && Numerals(ws, ks) && forall i | 0 <= i < |ks| :: 1 <= ks[i] < UintModulus
    requires |seps| == |ws| && BlankSeparators(seps)
    requires t == "f " + SepWords(ws, seps)
    ensures IsFaceLine(t) && ParseFace(t).Some? && |ParseFace(t).value| == |ks|
    ensures forall i | 0 <= i < |ks| :: ParseFace(t).value[i] == ks[i] - 1
  {
    assert SepWords(ws, seps) + [] == SepWords(ws, seps);
    PlainFaceText(t, ws, ks, seps, []);
    assert StoredIndices(ks) + [] == StoredIndices(ks);
  }

  /** A face line `f k1/t1 k2/t2 ...`, its groups separated by white space
      holding a blank, yields the indices k minus one, stored as `GLuint`, in
      order; the texture and normal references t are discarded
      (main.cpp:57-61). */
  lemma {:induction false} SlashFaceLine(t: string, ws: seq<string>, ks: seq<int>, ts: seq<string>, seps: seq<string>)
    requires ws != [] && Numerals(ws, ks) && forall i | 0 <= i < |ks| :: IntMin < ks[i] <= IntMax
    requires |ts| == |ws| && forall i | 0 <= i < |ts| :: ' ' !in ts[i]
    requires |seps| == |ws| && BlankSeparators(seps)
    requires t == "f " + SepWords(Groups(ws, ts), seps)
    ensures IsFaceLine(t) && ParseFace(t) == Some(StoredIndices(ks))
  {
    var gs := Groups(ws, ts);
    var s := SepWords(gs, seps);
    TaggedLine(t, 'f', s);
    GroupsHead(ws, ts);
    SepWordsSplit(gs, seps, []);
    var g := Group(ws[0], ts[0]);
    assert g[|ws[0]|] == '/';
    assert s == seps[0] + (g + SepWords(gs[1..], seps[1..])) + [];
    assert s[|seps[0]| + |ws[0]|] == '/';
    SlashNumerals(ws, ks, ts, seps);
  }

  /** The two formats describe the same face: `f k1 k2 ...` and
      `f k1/t1 k2/t2 ...` yield the same list of 0-based indices, however
      each spaces its words. */
  lemma {:induction false} SameFaceBothFormats(plain: string, slash: string, ws: seq<string>, ks: seq<int>, ts: seq<string>, plainSeps: seq<string>, slashSeps: seq<string>)
    requires ws != [] && Numerals(ws, ks) && forall i | 0 <= i < |ks| :: 1 <= ks[i] <= IntMax
    requires |ts| == |ws| && forall i | 0 <= i < |ts| :: ' ' !in ts[i]
    requires |plainSeps| == |ws| && BlankSeparators(plainSeps) && |slashSeps| == |ws| && BlankSeparators(slashSeps)
    requires plain == "f " + SepWords(ws, plainSeps) && slash == "f " + SepWords(Groups(ws, ts), slashSeps)
    ensures ParseFace(plain).Some? && ParseFace(plain) == ParseFace(slash)
  {
    PlainFaceLine(plain, ws, ks, plainSeps);
    SlashFaceLine(slash, ws, ks, ts, slashSeps);
    var face := ParseFace(plain).value;
    assert face == StoredIndices(ks);
    assert ParseFace(plain) == Some(face);
  }

  /** The face line a writer produces for the 1-based vertex indices ks. */
  function FaceLineOf(ks: seq<int>): string
    requires ks != []
  {
    "f " + Joined(NumeralsOf(ks))
  }

  /** The same face written as `k/tk/nk` groups, with texture indices tks
      and normal indices nks. */
  function TexturedFaceLineOf(ks: seq<int>, tks: seq<int>, nks: seq<int>): string
    requires ks != [] && |tks| == |ks| && |nks| == |ks|
  {
    "f " + Joined(Groups(NumeralsOf(ks), TexNormals(tks, nks)))
  }

  /** The `tk/nk` part of each group. */
  function TexNormals(tks: seq<int>, nks: seq<int>): (ts: seq<string>)
    requires |tks| == |nks|
    ensures |ts| == |tks| && forall i | 0 <= i < |ts| :: ' ' !in ts[i]
  {
    seq(|tks|, i requires 0 <= i < |tks| => TexNormal(tks[i], nks[i]))
  }

  function TexNormal(tk: int, nk: int): (t: string)
    ensures ' ' !in t
  {
    NumeralChars(IntToString(tk), tk);
    NumeralChars(IntToString(nk), nk);
    IntToString(tk) + "/" + IntToString(nk)
  }

  /** Reading back a written face line, in either format, gives the indices
      that were written, each minus one: the face is the same whether texture
      and normal references are written or not. */
  lemma {:induction false} FaceLineOfRoundTrip(ks: seq<int>, tks: seq<int>, nks: seq<int>)
    requires ks != [] && forall i | 0 <= i < |ks| :: 1 <= ks[i] <= IntMax
    requires |tks| == |ks| && |nks| == |ks|
    ensures ParseFace(FaceLineOf(ks)).Some? && |ParseFace(FaceLineOf(ks)).value| == |ks|
    ensures forall i | 0 <= i < |ks| :: ParseFace(FaceLineOf(ks)).value[i] == ks[i] - 1
    ensures ParseFace(TexturedFaceLineOf(ks, tks, nks)) == ParseFace(FaceLineOf(ks))
  {
    var ws, ts := NumeralsOf(ks), TexNormals(tks, nks);
    var seps := SingleBlanks(|ks|);
    assert FaceLineOf(ks) == "f " + SepWords(ws, seps);
    assert TexturedFaceLineOf(ks, tks, nks) == "f " + SepWords(Groups(ws, ts), seps);
    PlainFaceLine(FaceLineOf(ks), ws, ks, seps);
    SameFaceBothFormats(FaceLineOf(ks), TexturedFaceLineOf(ks, tks, nks), ws, ks, ts, seps, seps);
  }

  /** `f 1 2 3` gives the face [0, 1, 2]. */
  lemma {:induction false} PlainTriangle(t: string)
    requires t == "f 1 2 3"
    ensures ParseFace(t) == Some([0, 1, 2])
  {
    var ws, ks, seps := ["1", "2", "3"], [1, 2, 3], ["", " ", " "];
    assert [0, 1, 2] + [] == [0, 1, 2];
    assert Numerals(ws, ks);
    assert BlankSeparators(seps) by {
      assert seps[1] == " " && seps[2] == " ";
    }
    StoredTriangle();
    SepWordsThree("1", "2", "3", "", " ", " ");
    assert t == "f " + (SepWords(ws, seps) + []);
    PlainFaceText(t, ws, ks, seps, []);
  }

  /** `f 1/1/1 2/2/2 3/3/3` gives the same face [0, 1, 2] as `f 1 2 3`. */
  lemma {:induction false} SlashTriangle(t: string)
    requires t == "f 1/1/1 2/2/2 3/3/3"
    ensures ParseFace(t) == Some([0, 1, 2])
  {
    var ws, ks, ts, seps := ["1", "2", "3"], [1, 2, 3], ["1/1", "2/2", "3/3"], ["", " ", " "];
    assert Numerals(ws, ks);
    assert BlankSeparators(seps) by {
      assert seps[1] == " " && seps[2] == " ";
    }
    TriangleGroups(ws, ts);
    SepWordsThree("1/1/1", "2/2/2", "3/3/3", "", " ", " ");
    assert t == "f " + SepWords(Groups(ws, ts), seps);
    SlashFaceLine(t, ws, ks, ts, seps);
    StoredTriangle();
  }

  lemma {:induction false} TriangleGroups(ws: seq<string>, ts: seq<string>)
    requires ws == ["1", "2", "3"] && ts == ["1/1", "2/2", "3/3"]
    ensures Groups(ws, ts) == ["1/1/1", "2/2/2", "3/3/3"]
  {
    var gs := Groups(ws, ts);
    GroupsHead(ws, ts);
    GroupsHead(ws[1..], ts[1..]);
    GroupsHead(ws[2..], ts[2..]);
    assert ws[1..][1..] == ws[2..] && ts[1..][1..] == ts[2..];
    assert Group("1", "1/1") == "1/1/1" && Group("2", "2/2") == "2/2/2" && Group("3", "3/3") == "3/3/3";
    assert gs[1] == Groups(ws[1..], ts[1..])[0] == Group("2", "2/2");
    assert gs[2] == Groups(ws[2..], ts[2..])[0] == Group("3", "3/3");
  }

  lemma {:induction false} StoredTriangle()
    ensures StoredIndices([1, 2, 3]) == [0, 1, 2]
  {
    var r := StoredIndices([1, 2, 3]);
    assert r[0] == 0 && r[1] == 1 && r[2] == 2;
  }

  /** An index 0, which OBJ files do not use, wraps round: `f 0 1` stores
      2^32 - 1 for it (main.cpp:53). */
  lemma {:induction false} ZeroIndexWraps(t: string)
    requires t == "f 0 1"
    ensures ParseFace(t) == Some([0xFFFF_FFFF, 0])
  {
    var ws, ks, seps := ["0", "1"], [0, 1], ["", " "];
    assert Numerals(ws, ks);
    assert BlankSeparators(seps) by {
      assert seps[1] == " ";
    }
    SepWordsTwo("0", "1", "", " ");
    assert t == "f " + (SepWords(ws, seps) + []);
    PlainFaceText(t, ws, ks, seps, []);
    var r := StoredIndices(ks);
    assert r[0] == 0xFFFF_FFFF && r[1] == 0;
    assert r + [] == [0xFFFF_FFFF, 0];
  }

  /** `f 1 2 3 ` (a trailing blank, or the '\r' of a CRLF file) reads the
      last index twice: the face becomes [0, 1, 2, 2] (main.cpp:50-54). */
  lemma {:induction false} TrailingBlankRepeats(t: string)
    requires t == "f 1 2 3 "
    ensures ParseFace(t) == Some([0, 1, 2, 2])
  {
    var ws, ks, seps := ["1", "2", "3"], [1, 2, 3], ["", " ", " "];
    assert [0, 1, 2] + [2] == [0, 1, 2, 2];
    assert ToGLuint(ks[|ks| - 1] - 1) == 2;
    assert Numerals(ws, ks);
    assert BlankSeparators(seps) by {
      assert seps[1] == " " && seps[2] == " ";
    }
    StoredTriangle();
    SepWordsThree("1", "2", "3", "", " ", " ");
    assert t == "f " + (SepWords(ws, seps) + " ");
    PlainFaceText(t, ws, ks, seps, " ");
  }

  /** A tab alone between two indices is not a blank: `getline(in, t, ' ')`
      then reads to the end of the line, the next `in >> val` finds nothing
      and leaves val as it was, so `f 1\t2` stores the first index twice and
      loses the second (main.cpp:50-54). */
  lemma {:induction false} TabRepeats(t: string)
    requires t == "f 1\t2"
    ensures ParseFace(t) == Some([0, 0])
  {
    var s := "1\t2";
    assert s == "1" + "\t2";
    assert IsNatNumeral("1", 1) by {
      assert "1"[..0] == [];
    }
    assert ' ' !in "\t2";
    TaggedLine(t, 'f', s);
    assert '/' !in t;
    ReadUnsignedNumeral("1", 1, "\t2");
    GetLineToEnd("\t2", ' ');
    assert PlainFrom([], Some(1)) == Some([0]);
    assert ReadUnsigned(s) == Extracted(1, "\t2");
    assert PlainFrom(s, None) == Some([0] + [0]);
    assert [0] + [0] == [0, 0];
  }

  /** A field that is not a number fails `in >> val`, which then stores 0
      (C++11): `f x` stores 0 - 1, that is 2^32 - 1, and the loop ends
      (main.cpp:52-53). */
  lemma {:induction false} BadFieldWraps(t: string)
    requires t == "f x"
    ensures ParseFace(t) == Some([0xFFFF_FFFF])
  {
    TaggedLine(t, 'f', "x");
    assert '/' !in t;
    assert SkipSpace("x") == "x";
    DigitSplitOf([], "x");
    assert ReadUnsigned("x") == BadField;
  }

  /** A face line with nothing but blanks after the tag reads no value, and
      the program stores an entry from a `val` that was never assigned: the
      model has no face for it (main.cpp:49-53). */
  lemma {:induction false} BlankFaceUnknown(t: string, tail: string)
    requires AllSpace(tail) && t == "f " + tail
    ensures IsFaceLine(t) && ParseFace(t) == None
  {
    TaggedLine(t, 'f', tail);
    SpaceWithout(tail, '/');
    assert '/' !in t;
    SkipAllSpace(tail);
  }
}
