# OBJ loader and mesh normalisation

This project models in Dafny the part of the OpenGL `.OBJ` viewer that turns a Wavefront OBJ
file into the buffers it draws. It covers:

- `generate_vertices`, which collects the `v x y z` lines into a vector of `GLvec3`;
- `generate_faces`, which collects the `f ...` lines into a vector of faces, each a list of
  0-based `GLuint` vertex indices. A face is written either as plain indices `f 1 2 3` or
  as groups `f 1/1/1 2/2/2 3/3/3`;
- `normalize`, which divides every vertex by the magnitude of the largest one, when that
  exceeds 1;
- the operators `/` and `<` on `GLvec3` that `normalize` uses;
- the way `main` chains the three.

Modules, one per file:

| file | module | what it holds |
|---|---|---|
| `text.dfy` | `Text` | characters, numerals, `substr`/`find`, storing into a `GLuint` |
| `extract.dfy` | `Extract` | the stream reads `in >> float`, `in >> GLuint`, `getline`, and `stoi` |
| `geometry.dfy` | `Geometry` | `GLvec3`, `operator/`, `operator<` |
| `lines.dfy` | `LineScan` | the line-by-line scan both loaders share |
| `vertices.dfy` | `ObjVertices` | `generate_vertices` |
| `faces.dfy` | `ObjFaces` | `generate_faces`, plain and slash branches |
| `normalization.dfy` | `Normalization` | `std::max_element` and `normalize`, in place on an array |
| `mesh.dfy` | `Mesh` | `main`'s loading sequence |

How the model reads a line:

- An `istringstream` is the text it has not consumed yet.
- Each read returns what it extracted and the text after it, or the way it failed (`Extraction`).
- The plain face loop keeps `val` from one turn to the next, as the source does. So the
  model reproduces what the code does on unusual input:
  - With white space (or a `\r`) after the last index, the last index is stored twice.
  - With only a tab between two indices, `getline(in, t, ' ')` reads to the end of the
    line, the next `in >> val` finds nothing, and the first index is stored twice while
    the second is lost: `f 1\t2` gives [0, 0].
  - A field that is not a number stores 2^32 - 1.
  - An index 0 wraps round to 2^32 - 1.
- In the slash loop, a line that ends in a blank followed by more white space leaves a last
  field of white space for `getline(in, t, '/')`; `stoi` throws on it, and the model has no
  face (`SlashFrom("1/1 2/2  ")` is None).
- A coordinate numeral beyond the range of `float`, written without an exponent, fails
  `in >> f` in the program: the field becomes the largest float and the later coordinates
  stay unassigned. The model reads such a numeral exactly, as it reads every coordinate.
- `>>` skips any run of white space before a number, and `getline(in, t, ' ')` stops at
  the first blank, so vertex coordinates may be separated by any white space and face
  indices by any white space that holds a blank.
- Where the program would use a value it never assigned, the model yields no result
  (`None`), and the loaders require that this does not happen:
  - a face line with no index at all;
  - a vertex line whose first or second coordinate fails to read;
  - a vertex line that ends before its third coordinate, as in `v 1 2`: the third `>>`
    finds only the end of the text and z keeps its indeterminate value.

## Model

| member | source | states |
|---|---|---|
| `Text.AfterFirstSpace` | main.cpp:32 | the text after the first space; the whole line when there is none (`npos + 1` wraps to 0) |
| `Text.ToGLuint` | main.cpp:53 | an `int` in [-2^32, 2^32) stored into a `GLuint` is the value below 2^32 congruent to it |
| `Text.HasTag` | main.cpp:29 | the tag test `t.substr(0, 2) == "v "` (and `"f "` at line 43) holds exactly when the first two characters are the tag and a blank, so "vn", "vt" or a lone "v" fail |
| `Text.TaggedLine` | main.cpp:29-32 | a line `tag`, blank, s passes the two-character tag test, and its text after the first space is s |
| `Extract.ReadReal` | main.cpp:33 | a successful `in >> f` consumes text and stops at the end or before a non-digit; it finds no field exactly when only white space is left |
| `Extract.ReadUnsigned` | main.cpp:52 | a successful `in >> val` yields a value below 2^32 and stops at the end or before a non-digit; it finds no field exactly when only white space is left |
| `Extract.GetLine` | main.cpp:54 | `getline` fails exactly when nothing is left; the field holds no delimiter and the stream shrinks |
| `Extract.GetLineSplits` | main.cpp:54 | field, delimiter and the rest make up the text getline read |
| `Extract.GetLineAt` | main.cpp:54 | getline stops at the first delimiter and consumes it |
| `Extract.GetLineToEnd` | main.cpp:60 | with no delimiter left, getline takes the rest of the text |
| `Extract.Stoi` | main.cpp:59 | `stoi` returns a value in the range of `int` or throws |
| `Extract.StoiOfNumeral` | main.cpp:59 | `stoi` reads a numeral back as its value |
| `Extract.ReadDecimal` | main.cpp:33 | `in >> f` reads a decimal numeral (sign, digits, fraction) back as its value and stops right after it |
| `Extract.ReadReals` | main.cpp:33 | the chained `in >> x >> y >> z`: n values, or None when a field other than the last fails or when only white space is left; a failed field that reads as a non-number gives 0 when it is the last; its meaning on written numbers is `ReadSpacedDecimals` |
| `Extract.ReadRealAfterSpace` | main.cpp:33 | `in >> f` skips leading white space |
| `Extract.ReadRealsAfterSpace` | main.cpp:33 | so do the chained reads |
| `Extract.ReadSpacedDecimals` | main.cpp:33 | decimals separated by runs of white space, and followed by nothing or by a character that cannot continue a number, are read back in order |
| `Extract.GetLineAfter` | main.cpp:57 | a prefix without the delimiter becomes the front of the field getline takes |
| `Extract.StoiAfterSpace` | main.cpp:59 | `stoi` skips leading white space |
| `Extract.ReadUnsignedNumeral` | main.cpp:52 | `in >> val` reads a numeral below 2^32 back as its value |
| `Extract.NotNumberFails` | main.cpp:33 | a field starting with a non-number fails both reads; a last float field then holds 0 |
| `Geometry.Max` | main.cpp:84 | `std::max` is at least both arguments and equal to one of them |
| `Geometry.Magnitude` | main.cpp:84-85 | max(max(abs x, abs y), abs z) bounds each absolute coordinate and equals one of them |
| `Geometry.Div` | main.cpp:73-80 | each coordinate of v / d, multiplied back by d, is v's coordinate |
| `Geometry.Less` | main.cpp:82-86 | `u < v` holds exactly when u's magnitude is strictly below v's |
| `Geometry.MagnitudeOfDiv` | main.cpp:73-80 | dividing by a positive d divides the magnitude by d |
| `LineScan.CollectedNext` | main.cpp:28-34 | reading one more line appends what that line yields, if its tag matches |
| `LineScan.CollectedAppend` | main.cpp:28 | lines are read independently: a concatenation of files yields the concatenation |
| `LineScan.CollectedInFileOrder` | main.cpp:28-34 | the k-th item comes from the k-th matching line, and there is one item per matching line |
| `ObjVertices.GenerateVertices` | main.cpp:25-36 | the vector comes out as its old entries followed by one vertex per vertex line |
| `ObjVertices.VerticesInFileOrder` | main.cpp:28-35 | the k-th vertex is read from the k-th vertex line, and there are as many vertices as vertex lines |
| `ObjVertices.ParseVertex` | main.cpp:31-33 | the vertex of the text after the first space, read as three numbers; None when only white space follows the tag or an extraction leaves a coordinate unassigned; its first coordinate is the first number read; its meaning on written lines is `VertexLineRoundTrip` |
| `ObjVertices.VertexLineRoundTrip` | main.cpp:31-33 | `v A B C` with decimal numerals A, B, C separated by runs of white space (and followed by nothing or white space) yields the vertex (a, b, c), in that order |
| `ObjVertices.VertexOfLine` | main.cpp:29-34 | a vertex line whose text after the tag reads as three numbers is the vertex of those numbers |
| `ObjVertices.VertexLineOfRoundTrip` | main.cpp:29-33 | the vertex line written for integer coordinates reads back as those coordinates |
| `ObjVertices.DecimalVertexLine` | main.cpp:33 | `v 0.5 -1.25 2` yields (0.5, -1.25, 2) |
| `ObjVertices.BadLastCoordinate` | main.cpp:33 | a non-numeric third field leaves z at 0: `v A B junk` yields (a, b, 0) |
| `ObjVertices.BadLastExample` | main.cpp:33 | `v 1 2 x` yields (1, 2, 0) |
| `ObjVertices.MissingCoordinate` | main.cpp:31-33 | `v 1 2` leaves z unassigned, so no vertex is defined |
| `ObjFaces.Stored` | main.cpp:52 | a read that finds no field leaves `val` as it was; a stored value stays below 2^32 |
| `ObjFaces.PlainFrom` | main.cpp:49-55 | the plain loop always stores at least one entry, since `while(in)` is true on entry |
| `ObjFaces.PlainBlank` | main.cpp:50-53 | on white space only, the loop stores what `val` already held, once |
| `ObjFaces.PlainNumerals` | main.cpp:49-55 | numerals below 2^32, separated by white space holding a blank, are stored as value minus one, in order, and the last once more when white space follows |
| `ObjFaces.PlainFirst` | main.cpp:50-54 | the first numeral's entry, then what the loop reads from the rest holding that value |
| `ObjFaces.PlainCons` | main.cpp:50-54 | a numeral between white space and white space holding a blank stores its value minus one and the loop goes on holding it |
| `ObjFaces.PlainHead` | main.cpp:50-54 | `in >> val`, the store, and `getline` up to just after the next blank, on a numeral |
| `ObjFaces.PlainAfterSpace` | main.cpp:52 | the plain loop skips leading white space |
| `ObjFaces.SlashFrom` | main.cpp:57-61 | the slash loop's face: one entry per group, `stoi` of the text before the '/' minus one; an empty face when nothing is left; None when `stoi` throws or the subtraction overflows; its meaning on written groups is `SlashNumerals` |
| `ObjFaces.SlashAfterSpace` | main.cpp:57-59 | the slash loop skips leading white space before a group |
| `ObjFaces.ExtractPlainFace` | main.cpp:47-56 | the plain-branch loop builds exactly the face `PlainFrom` describes |
| `ObjFaces.SlashStep` | main.cpp:57-61 | one turn of the slash loop stores the first group's entry and continues after the blank |
| `ObjFaces.SlashNumerals` | main.cpp:57-61 | groups `k/t`, separated by white space holding a blank, store k minus one, in order; t is skipped |
| `ObjFaces.SlashFirstGroup` | main.cpp:57-61 | the first group's entry, then what the loop reads from the groups after it |
| `ObjFaces.SlashCons` | main.cpp:57-61 | a group between white space and white space holding a blank stores k minus one and the loop goes on after the blank |
| `ObjFaces.SlashGroup` | main.cpp:57-60 | one turn on a group `k/t` stores k minus one and continues after the next blank |
| `ObjFaces.SlashLast` | main.cpp:57-61 | a last group after white space gives its entry alone |
| `ObjFaces.ExtractSlashFace` | main.cpp:57-61 | the slash-branch loop builds exactly the face `SlashFrom` describes |
| `ObjFaces.GenerateFaces` | main.cpp:38-65 | the vector comes out as its old faces followed by one face per face line |
| `ObjFaces.FacesInFileOrder` | main.cpp:41-63 | the k-th face is read from the k-th face line, and there are as many faces as face lines |
| `ObjFaces.ParseFace` | main.cpp:45-61 | the face of the text after the first space: the plain loop when the whole line has no '/', else the slash loop; None when the plain loop would store an unassigned `val` (only white space after the tag) or the slash loop has no result; its meaning on written lines is `PlainFaceLine` and `SlashFaceLine` |
| `ObjFaces.PlainFaceText` | main.cpp:47-55 | `f k1 k2 ...`, separated by white space holding a blank and followed by nothing or only white space, yields each k minus one as a `GLuint`, plus the last once more after white space |
| `ObjFaces.PlainFaceLine` | main.cpp:47-55 | `f k1 k2 ...` with indices at least 1, separated by white space holding a blank, yields exactly the indices minus one, in order |
| `ObjFaces.SlashFaceLine` | main.cpp:57-61 | `f k1/t1 k2/t2 ...`, separated by white space holding a blank, yields the k minus one, in order, whatever the t |
| `ObjFaces.SameFaceBothFormats` | main.cpp:47-61 | the plain and the slash formats of the same indices give the same face, whatever white space holding a blank separates the words of each |
| `ObjFaces.FaceLineOfRoundTrip` | main.cpp:43-62 | a written face line reads back as the indices minus one, with or without texture and normal references |
| `ObjFaces.PlainTriangle` | main.cpp:47-55 | `f 1 2 3` yields [0, 1, 2] |
| `ObjFaces.SlashTriangle` | main.cpp:57-61 | `f 1/1/1 2/2/2 3/3/3` yields [0, 1, 2] |
| `ObjFaces.ZeroIndexWraps` | main.cpp:53 | `f 0 1` stores 2^32 - 1 for the index 0 |
| `ObjFaces.TrailingBlankRepeats` | main.cpp:50-54 | `f 1 2 3 ` with a trailing blank yields [0, 1, 2, 2] |
| `ObjFaces.TabRepeats` | main.cpp:50-54 | `f 1\t2`, a tab alone between the indices, yields [0, 0]: the first index twice, the second lost |
| `ObjFaces.BadFieldWraps` | main.cpp:52-53 | `f x` fails the read, stores 0 - 1 = 2^32 - 1 and ends the loop |
| `ObjFaces.BlankFaceUnknown` | main.cpp:49-53 | a face line with only white space after the tag stores an unassigned `val`, so no face is defined |
| `Normalization.MaxIndex` | main.cpp:96 | the index of the first vertex of largest magnitude |
| `Normalization.FirstMaxUnique` | main.cpp:96 | that index is unique |
| `Normalization.MaxElement` | main.cpp:96 | `std::max_element` with `operator<` returns the first vertex of largest magnitude |
| `Normalization.Scale` | main.cpp:97-99 | the scale is at least 1 and at least every magnitude; it is 1 or the picked vertex's magnitude |
| `Normalization.Normalize` | main.cpp:94-102 | the array ends as every old vertex divided by the scale, in the same order |
| `Normalization.Normalized` | main.cpp:100-101 | every vertex divided by the scale, in the same order and as many; its meaning is `NormalizedBounded`, `NormalizedShrinks`, `NormalizeNoOp` and `NormalizeIdempotent` |
| `Normalization.NormalizedBounded` | main.cpp:100-101 | afterwards every coordinate lies in [-1, 1] |
| `Normalization.NormalizedShrinks` | main.cpp:100-101 | no coordinate grows in absolute value |
| `Normalization.NormalizeNoOp` | main.cpp:98-101 | when every magnitude is at most 1, the scale is 1 and nothing changes |
| `Normalization.NormalizeIdempotent` | main.cpp:94-102 | normalizing twice is normalizing once |
| `Normalization.LargestBecomesUnit` | main.cpp:96-101 | when the largest magnitude exceeds 1, the picked vertex ends with magnitude exactly 1 |
| `Mesh.LoadMesh` | main.cpp:188-215 | the vertex buffer is the normalized vertices and the face buffer holds the faces, one per matching line, every coordinate in [-1, 1] |

## Left out

- OpenGL and GLFW (the window, shaders, buffers, `draw_face`, the render loop) and `operator<<`: these are foreign calls or printing.
- File I/O: the file is given as its sequence of lines. Opening, closing and reopening it between the two passes are not modelled.
- Floating point: coordinates are exact reals. Rounding in parsing and in division is not modelled, nor the failed read of a coordinate beyond the range of `float`.
- `abs` is taken to be the absolute value of a real. Which overload the unqualified `abs` call binds to depends on the compiler.
- Exponent notation (`1e-3`) in a vertex coordinate is not covered: such a line has no vertex in the model.
- A '-' before a plain face index is not covered. Standard libraries differ on what `in >> val` does with it for an unsigned `val`.
- `stoi` throwing ends the program, and `stoi(t) - 1` overflowing `int` (for `t` the minimum of `int`) is undefined behaviour. The model has no face in either case, and the loaders require that this does not happen.
- Values the program never assigned have no face or vertex in the model. This covers the `val` of a face line with no index, the coordinates left unset after an earlier failed read, and the third coordinate of a line that ends after two, such as `v 1 2`. The loaders require that this does not happen.
- The vectors passed by reference are modelled as values passed in and returned. The vertex vector that `normalize` updates in place is an array.
- `Normalization.Normalize` requires a non-empty array. On an empty vector the program reads `v[0]` out of bounds.
- `Mesh.LoadMesh` requires at least one vertex line, for the same reason.
