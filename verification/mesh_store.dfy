/**
 * The part of Blender's data that the backup functions touch: the mesh
 * datablocks by name (`bpy.data.meshes`) and the active object, which names
 * the mesh it uses (`obj.data`) and carries string custom properties
 * (`obj[key]`).
 */
module MeshStore {
  import opened BlenderMesh

  /** `bpy.data.meshes`: every mesh datablock, by name. */
  class MeshRegistry {
    var meshes: map<string, MeshCopy>
  }

  /** The active object: the name of its mesh and its custom properties. */
  class SceneObject {
    var dataName: string
    var props: map<string, string>
  }

  /** Object and registry together, as a value. */
  datatype StoreState = StoreState(dataName: string, props: map<string, string>, meshes: map<string, MeshCopy>)

  function StoreOf(obj: SceneObject, reg: MeshRegistry): StoreState
    reads obj, reg
  {
    StoreState(obj.dataName, obj.props, reg.meshes)
  }

  /** The content of the object's mesh. */
  function DataOf(s: StoreState): MeshCopy
    requires s.dataName in s.meshes
  {
    s.meshes[s.dataName]
  }
}
