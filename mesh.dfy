/** What `main` builds from the OBJ file before drawing (main.cpp:188-215):
    a first pass collects the vertices, which are normalized in place, and a
    second pass over the same lines collects the faces. */
module Mesh {
  import opened Text
  import opened Geometry
  import opened ObjVertices
  import opened ObjFaces
  import opened Normalization

  /** The vertex and face buffers `main` hands to OpenGL. The program reads
      `v[0]` of an empty vector when the file has no vertex line, so one is
      required. */
  method LoadMesh(lines: seq<string>) returns (vertices: seq<GLvec3>, faces: seq<seq<nat>>)
    requires VertexLinesParse(lines) && FaceLinesParse(lines)
    requires VertexLines(lines) != []
    ensures VerticesOf(lines) != [] && vertices == Normalized(VerticesOf(lines))
    ensures faces == FacesOf(lines)
    ensures |vertices| == |VertexLines(lines)| && |faces| == |FaceLines(lines)|
    ensures forall i | 0 <= i < |vertices| :: Magnitude(vertices[i]) <= 1.0
  {
    var read := GenerateVertices([], lines);
    assert read == VerticesOf(lines);
    VerticesInFileOrder(lines);
    var buffer := new GLvec3[|read|](i requires 0 <= i < |read| => read[i]);
    assert buffer[..] == read;
    Normalize(buffer);
    vertices := buffer[..];
    NormalizedBounded(read);
    faces := GenerateFaces([], lines);
    assert faces == FacesOf(lines);
    FacesInFileOrder(lines);
  }
}
