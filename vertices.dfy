/** `generate_vertices` (main.cpp:25-36): every line starting with "v " adds
    one vertex, read from the three numbers after the first space. */
module ObjVertices {
  import opened Text
  import opened Extract
  import opened Geometry
  import opened LineScan

  /** `t.substr(0, 2) == "v "` (main.cpp:29): "vn", "vt", a lone "v" and
      other lines are not vertex lines. */
  predicate IsVertexLine(t: string) {
    HasTag(t, 'v')
  }

  /** `in >> vertex.x >> vertex.y >> vertex.z` on the text after the first
      space (main.cpp:31-33). None when an extraction fails: the program then
      pushes a vertex whose remaining fields were never read. */
  function ParseVertex(t: string): (r: Option<GLvec3>)
    ensures SkipSpace(AfterFirstSpace(t)) == [] ==> r.None?
    ensures r.Some? ==> ReadReal(AfterFirstSpace(t)).Extracted? && r.value.x == ReadReal(AfterFirstSpace(t)).value
  {
    var xyz := ReadReals(AfterFirstSpace(t), 3);
    if xyz.None? then None else Some(GLvec3(xyz.value[0], xyz.value[1], xyz.value[2]))
  }

  /** Every vertex line of the input carries three readable numbers. */
  predicate VertexLinesParse(lines: seq<string>) {
    AllParse(lines, IsVertexLine, ParseVertex)
  }

  /** The vertices the lines describe: one per vertex line, in file order. */
  function VerticesOf(lines: seq<string>): seq<GLvec3>
    requires VertexLinesParse(lines)
  {
    Collected(lines, IsVertexLine, ParseVertex)
  }

  /** The vertex lines of the input, in order. */
  function VertexLines(lines: seq<string>): seq<string> {
    Kept(lines, IsVertexLine)
  }

  /** `generate_vertices(vertices, file)`: the vector passed by reference comes
      in as `vertices` and goes out as `result`; the lines stand for the file. */
  method GenerateVertices(vertices: seq<GLvec3>, lines: seq<string>) returns (result: seq<GLvec3>)
    requires VertexLinesParse(lines)
    ensures result == vertices + VerticesOf(lines)
  {
    result := vertices;
    var i := 0;
    while i < |lines|
      invariant 0 <= i <= |lines|
      invariant result == vertices + VerticesOf(lines[..i])
    {
      var t := lines[i];
      CollectedNext(lines, i, IsVertexLine, ParseVertex);
      if IsVertexLine(t) {
        var vertex := ParseVertex(t).value;
        Regroup(vertices, VerticesOf(lines[..i]), [vertex]);
        result := result + [vertex];
      }
      i := i + 1;
    }
    assert lines[..|lines|] == lines;
  }

  /** The k-th vertex is read from the k-th vertex line, and there are as many
      vertices as vertex lines. */
  lemma {:induction false} VerticesInFileOrder(lines: seq<string>)
    requires VertexLinesParse(lines)
    ensures |VerticesOf(lines)| == |VertexLines(lines)|
    ensures forall k | 0 <= k < |VertexLines(lines)| ::
      ParseVertex(VertexLines(lines)[k]).Some? && VerticesOf(lines)[k] == ParseVertex(VertexLines(lines)[k]).value
  {
    CollectedInFileOrder(lines, IsVertexLine, ParseVertex);
  }

  /** A vertex line "v A B C" whose three tokens are decimal numerals of a, b
      and c (a sign, digits and an optional fraction), separated by runs of
      white space and followed by nothing or by white space and anything
      else, yields the vertex (a, b, c): x, y and z in the order they are
      written. */
  lemma {:induction false} VertexLineRoundTrip(t: string, A: string, B: string, C: string, s0: string, s1: string, s2: string, tail: string, a: real, b: real, c: real)
    requires IsDecimal(A, a) && IsDecimal(B, b) && IsDecimal(C, c)
    requires AllSpace(s0) && AllSpace(s1) && AllSpace(s2) && s1 != [] && s2 != []
    requires tail == [] || IsSpace(tail[0])
    requires t == "v " + s0 + A + s1 + B + s2 + C + tail
    ensures IsVertexLine(t)
    ensures ParseVertex(t) == Some(GLvec3(a, b, c))
  {
    var ws, xs, seps := [A, B, C], [a, b, c], [s0, s1, s2];
    var s := SepWords(ws, seps) + tail;
    assert ReadReals(s, 3) == Some(xs) by {
      assert SpaceSeparators(seps) by {
        assert seps[1] == s1 && seps[2] == s2;
      }
      assert Decimals(ws, xs);
      ReadSpacedDecimals(ws, seps, xs, tail);
    }
    assert t == "v " + s by {
      SepWordsThree(A, B, C, s0, s1, s2);
      PrefixThree("v ", s0, A, s1, B, s2, C, tail);
    }
    VertexOfLine(t, s, xs);
  }

  /** A vertex line whose text after the tag reads as three numbers is the
      vertex of those numbers. */
  lemma {:induction false} VertexOfLine(t: string, s: string, xs: seq<real>)
    requires |xs| == 3 && t == "v " + s && ReadReals(s, 3) == Some(xs)
    ensures IsVertexLine(t)
    ensures ParseVertex(t) == Some(GLvec3(xs[0], xs[1], xs[2]))
  {
    TaggedLine(t, 'v', s);
  }

  /** The vertex line a writer produces for integer coordinates. */
  function VertexLineOf(a: int, b: int, c: int): string {
    "v " + IntToString(a) + " " + IntToString(b) + " " + IntToString(c)
  }

  /** Reading back a written vertex line gives the vertex that was written. */
  lemma {:induction false} VertexLineOfRoundTrip(a: int, b: int, c: int)
    ensures IsVertexLine(VertexLineOf(a, b, c))
    ensures ParseVertex(VertexLineOf(a, b, c)) == Some(GLvec3(a as real, b as real, c as real))
  {
    var t := VertexLineOf(a, b, c);
    var A, B, C := IntToString(a), IntToString(b), IntToString(c);
    assert t == "v " + [] + A + " " + B + " " + C + [];
    IntDecimal(A, a);
    IntDecimal(B, b);
    IntDecimal(C, c);
    VertexLineRoundTrip(t, A, B, C, [], " ", " ", [], a as real, b as real, c as real);
  }

  /** Fractions and signs are read too: "v 0.5 -1.25 2" is the vertex
      (0.5, -1.25, 2). */
  lemma {:induction false} DecimalVertexLine(t: string)
    requires t == "v 0.5 -1.25 2"
    ensures ParseVertex(t) == Some(GLvec3(0.5, -1.25, 2.0))
  {
    var A, B, C := "0.5", "-1.25", "2";
    assert t == "v " + [] + A + " " + B + " " + C + [];
    PointFive(A);
    MinusOnePointTwoFive(B);
    IntDecimal(C, 2);
    VertexLineRoundTrip(t, A, B, C, [], " ", " ", [], 0.5, -1.25, 2.0);
  }

  /** "0.5" is a decimal numeral of one half. */
  lemma {:induction false} PointFive(w: string)
    requires w == "0.5"
    ensures IsDecimal(w, 0.5)
  {
    DigitSplitOf("0", ".5");
    assert w == "0" + ".5";
    assert FractionValue("5") == 0.5 by {
      assert "5"[1..] == [];
    }
  }

  /** "-1.25" is a decimal numeral of minus five quarters. */
  lemma {:induction false} MinusOnePointTwoFive(w: string)
    requires w == "-1.25"
    ensures IsDecimal(w, -1.25)
  {
    DigitSplitOf("1", ".25");
    assert w[1..] == "1" + ".25";
    assert DigitsValue("1") == 1 by {
      assert "1"[..0] == [];
    }
    assert FractionValue("25") == 0.25 by {
      assert "25"[1..] == "5" && "5"[1..] == [];
    }
  }

  /** A last coordinate that is not a number fails `in >> vertex.z`, which
      then stores 0 (C++11): "v A B junk" is the vertex (a, b, 0). A failure
      at an earlier coordinate leaves the later ones unassigned, and the
      model has no vertex for such a line. */
  lemma {:induction false} BadLastCoordinate(t: string, A: string, B: string, bad: string, a: real, b: real)
    requires IsDecimal(A, a) && IsDecimal(B, b) && NotNumber(bad)
    requires t == "v " + A + " " + B + " " + bad
    ensures IsVertexLine(t)
    ensures ParseVertex(t) == Some(GLvec3(a, b, 0.0))
  {
    var r2 := " " + bad;
    var r1 := " " + (B + r2);
    assert t == ['v', ' '] + (A + r1);
    assert [b] + [0.0] == [b, 0.0];
    var r := [a] + [b, 0.0];
    assert r[0] == a && r[1] == b && r[2] == 0.0;
    NotNumberFails(bad);
    ReadRealsAfterSpace(" ", bad, 1);
    ReadDecimal(B, b, r2);
    ReadRealsStep(B + r2, 2, b, r2, [0.0]);
    ReadRealsAfterSpace(" ", B + r2, 2);
    ReadDecimal(A, a, r1);
    ReadRealsStep(A + r1, 3, a, r1, [b, 0.0]);
    TaggedLine(t, 'v', A + r1);
  }

  /** "v 1 2 x" is the vertex (1, 2, 0). */
  lemma {:induction false} BadLastExample(t: string)
    requires t == "v 1 2 x"
    ensures ParseVertex(t) == Some(GLvec3(1.0, 2.0, 0.0))
  {
    IntDecimal("1", 1);
    IntDecimal("2", 2);
    assert NotNumber("x");
    assert t == "v " + "1" + " " + "2" + " " + "x";
    BadLastCoordinate(t, "1", "2", "x", 1.0, 2.0);
  }

  /** A line that ends before its third coordinate has no vertex in the
      model: `in >> vertex.z` finds nothing and leaves z unassigned. */
  lemma {:induction false} MissingCoordinate(t: string)
    requires t == "v 1 2"
    ensures ParseVertex(t) == None
  {
    var two := "2" + [];
    var s := "1" + (" " + two);
    assert ReadReals(s, 3) == None by {
      IntDecimal("1", 1);
      IntDecimal("2", 2);
      ReadDecimal("1", 1.0, " " + two);
      ReadDecimal("2", 2.0, []);
      ReadRealAfterSpace(" ", two);
      assert ReadReals([], 1) == None;
      assert ReadReals(" " + two, 2) == None;
    }
    assert t == "v " + s;
    TaggedLine(t, 'v', s);
  }
}
