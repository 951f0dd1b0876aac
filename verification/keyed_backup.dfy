/**
 * The single-slot mesh backup of normalforge.py and auto_custom_normals.py:
 * the object remembers, under one custom-property key, the name of a copy of
 * its mesh. Creating a backup replaces the previous one; restoring swaps a
 * copy of the backup in as the object's mesh and consumes the backup.
 */
module KeyedBackup {
  import opened Wrappers
  import opened BlenderMesh
  import opened MeshStore

  /** `obj.get(key)` used as a condition: set and not the empty string. */
  function StoredName(s: StoreState, key: string): (r: Option<string>)
    ensures r.Some? <==> key in s.props && s.props[key] != ""
    ensures r.Some? ==> r.value == s.props[key]
  {
    if key in s.props && s.props[key] != "" then Some(s.props[key]) else None
  }

  /** `has_backup`: the key is set, not empty, and names a mesh that exists. */
  function HasBackup(s: StoreState, key: string): (r: bool)
    ensures r <==> key in s.props && s.props[key] != "" && s.props[key] in s.meshes
  {
    match StoredName(s, key)
    case None => false
    case Some(name) => name in s.meshes
  }

  /** The object's mesh exists, and the key never names that mesh. */
  predicate Consistent(s: StoreState, key: string)
  {
    s.dataName in s.meshes && StoredName(s, key) != Some(s.dataName)
  }

  /** `create_mesh_backup`: drop the mesh the key names, if any, store a
      copy of the object's mesh under the fresh `backupName`, and point the
      key at it. */
  function Created(s: StoreState, key: string, backupName: string): StoreState
    requires Consistent(s, key) && backupName !in s.meshes
  {
    var cleared := match StoredName(s, key)
      case Some(previous) => s.meshes - {previous}
      case None => s.meshes;
    s.(props := s.props[key := backupName], meshes := cleared[backupName := DataOf(s)])
  }

  /** `restore_mesh_backup`: False and no change without a backup; otherwise
      the object takes a copy of the backup (under the fresh name
      `restoredName`), and its old mesh, the backup and the key are deleted. */
  function Restored(s: StoreState, key: string, restoredName: string): (bool, StoreState)
    requires Consistent(s, key) && restoredName !in s.meshes
  {
    match StoredName(s, key)
    case None => (false, s)
    case Some(name) =>
      if name !in s.meshes then (false, s)
      else (true, StoreState(restoredName, s.props - {key},
                             s.meshes[restoredName := s.meshes[name]] - {s.dataName} - {name}))
  }

  method CreateMeshBackup(obj: SceneObject, reg: MeshRegistry, key: string, backupName: string)
    requires Consistent(StoreOf(obj, reg), key) && backupName !in reg.meshes
    modifies obj, reg
    ensures StoreOf(obj, reg) == Created(old(StoreOf(obj, reg)), key, backupName)
  {
    var oldBackupName := if key in obj.props then obj.props[key] else "";
    if oldBackupName != "" {
      if oldBackupName in reg.meshes {
        reg.meshes := reg.meshes - {oldBackupName};
      }
    }
    var backupMesh := reg.meshes[obj.dataName];
    reg.meshes := reg.meshes[backupName := backupMesh];
    obj.props := obj.props[key := backupName];
  }

  method RestoreMeshBackup(obj: SceneObject, reg: MeshRegistry, key: string, restoredName: string)
    returns (ok: bool)
    requires Consistent(StoreOf(obj, reg), key) && restoredName !in reg.meshes
    modifies obj, reg
    ensures (ok, StoreOf(obj, reg)) == Restored(old(StoreOf(obj, reg)), key, restoredName)
  {
    var backupName := if key in obj.props then obj.props[key] else "";
    if backupName == "" {
      return false;
    }
    if backupName !in reg.meshes {
      return false;
    }
    var currentName := obj.dataName;
    reg.meshes := reg.meshes[restoredName := reg.meshes[backupName]];
    obj.dataName := restoredName;
    reg.meshes := reg.meshes - {currentName};
    reg.meshes := reg.meshes - {backupName};
    if key in obj.props {
      obj.props := obj.props - {key};
    }
    return true;
  }

  /** After a backup is created it exists and holds the object's mesh, the
      backup it replaced is gone, and every other mesh is as it was. */
  lemma CreateMakesBackup(s: StoreState, key: string, backupName: string)
    requires Consistent(s, key) && backupName !in s.meshes && backupName != ""
    ensures var c := Created(s, key, backupName);
      && HasBackup(c, key) && Consistent(c, key)
      && c.meshes[backupName] == DataOf(s)
      && DataOf(c) == DataOf(s)
      && (StoredName(s, key).Some? && StoredName(s, key).value != backupName ==> StoredName(s, key).value !in c.meshes)
      && forall n :: n in s.meshes && Some(n) != StoredName(s, key) ==> n in c.meshes && c.meshes[n] == s.meshes[n]
  {
  }

  /** Restoring fails exactly when there is no backup, and then changes nothing. */
  lemma RestoreFailsIffNoBackup(s: StoreState, key: string, restoredName: string)
    requires Consistent(s, key) && restoredName !in s.meshes
    ensures !Restored(s, key, restoredName).0 <==> !HasBackup(s, key)
    ensures !Restored(s, key, restoredName).0 ==> Restored(s, key, restoredName).1 == s
  {
  }

  /** A successful restore gives the object the backup's content, leaves no
      backup behind and keeps the store consistent. */
  lemma RestoreConsumesBackup(s: StoreState, key: string, restoredName: string)
    requires Consistent(s, key) && restoredName !in s.meshes
    requires HasBackup(s, key)
    ensures var (ok, r) := Restored(s, key, restoredName);
      && ok && Consistent(r, key) && !HasBackup(r, key)
      && DataOf(r) == s.meshes[StoredName(s, key).value]
      && s.dataName !in r.meshes && StoredName(s, key).value !in r.meshes
  {
  }

  /** Backing up and then restoring gives the object back the mesh content it
      had before, and removes both the intermediate mesh and the backup. */
  lemma CreateThenRestore(s: StoreState, key: string, backupName: string, restoredName: string)
    requires Consistent(s, key) && backupName !in s.meshes && backupName != ""
    requires restoredName !in s.meshes && restoredName != backupName
    ensures Created(s, key, backupName).dataName == s.dataName
    ensures var (ok, r) := Restored(Created(s, key, backupName), key, restoredName);
      && ok && DataOf(r) == DataOf(s) && !HasBackup(r, key)
      && backupName !in r.meshes && s.dataName !in r.meshes
  {
    CreateMakesBackup(s, key, backupName);
    RestoreConsumesBackup(Created(s, key, backupName), key, restoredName);
  }
}
