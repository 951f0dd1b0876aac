/**
 * The parts of a Blender mesh that the add-on reads and writes.
 *
 * A `Mesh` stands for `obj.data` together with its BMesh view: the edge, face
 * and vertex tables are fixed-size arrays whose rows the operations rewrite in
 * place, and the material slot list is a sequence the tagging code appends to
 * and deletes from. Geometry that the add-on only asks Blender to compute (the
 * angle between the two face normals of an edge, the area of a face) is stored
 * as a given real on the row.
 */
module BlenderMesh {

  /** One BMesh edge. `linkFaces` lists the indices of the faces that use it;
      `angle` is the angle between the normals of `linkFaces[0]` and
      `linkFaces[1]` (meaningful only when there are exactly two); `weight` is
      the "bevel_weight_edge" float layer. */
  datatype Edge = Edge(
    linkFaces: seq<nat>,
    angle: real,
    smooth: bool,
    seam: bool,
    weight: real,
    select: bool)

  /** One BMesh face: the indices of its edges and of its vertices, its area,
      its material slot index and its selection flag. */
  datatype Face = Face(
    edges: seq<nat>,
    verts: seq<nat>,
    area: real,
    materialIndex: nat,
    select: bool)

  /** A material slot: empty, or holding the material with this name. */
  datatype Slot = EmptySlot | Holds(name: string)

  /** A full copy of a mesh datablock, as kept by the backup stores. */
  datatype MeshCopy = MeshCopy(edges: seq<Edge>, faces: seq<Face>, vertSelected: seq<bool>, materials: seq<Slot>)

  class Mesh {
    const edges: array<Edge>
    const faces: array<Face>
    const vertSelected: array<bool>
    var materials: seq<Slot>

    constructor (es: seq<Edge>, fs: seq<Face>, vs: seq<bool>, ms: seq<Slot>)
      ensures edges[..] == es && faces[..] == fs && vertSelected[..] == vs && materials == ms
      ensures fresh(edges) && fresh(faces) && fresh(vertSelected)
    {
      edges := new Edge[|es|](i requires 0 <= i < |es| => es[i]);
      faces := new Face[|fs|](i requires 0 <= i < |fs| => fs[i]);
      vertSelected := new bool[|vs|](i requires 0 <= i < |vs| => vs[i]);
      materials := ms;
    }
  }

  /** Every edge index a face names is a row of the edge table. */
  ghost predicate EdgeRefsValid(faces: seq<Face>, edgeCount: nat)
  {
    forall f, k :: 0 <= f < |faces| && 0 <= k < |faces[f].edges| ==> faces[f].edges[k] < edgeCount
  }

  /** Every vertex index a face names is a row of the vertex table. */
  ghost predicate VertRefsValid(faces: seq<Face>, vertCount: nat)
  {
    forall f, k :: 0 <= f < |faces| && 0 <= k < |faces[f].verts| ==> faces[f].verts[k] < vertCount
  }

  /** Face-edge incidence as BMesh keeps it: a face lists an edge exactly when
      the edge lists the face. */
  ghost predicate IncidenceConsistent(faces: seq<Face>, edges: seq<Edge>)
  {
    && EdgeRefsValid(faces, |edges|)
    && (forall e, l :: 0 <= e < |edges| && l in edges[e].linkFaces ==> l < |faces|)
    && (forall f, e :: 0 <= f < |faces| && 0 <= e < |edges| ==>
          (e in faces[f].edges <==> f in edges[e].linkFaces))
  }
}
