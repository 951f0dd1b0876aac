/**
 * The mesh backup of non_destructive_normals.py: the backup of a mesh named
 * `N` is the mesh named `N + "_ACN_Backup"`; the object keeps no reference
 * to it.
 */
module SuffixBackup {
  import opened Wrappers
  import opened BlenderMesh
  import opened MeshStore

  const BACKUP_SUFFIX: string := "_ACN_Backup"

  function BackupName(dataName: string): string
  {
    dataName + BACKUP_SUFFIX
  }

  /** `name.endswith("_ACN_Backup")`. */
  predicate EndsWithSuffix(name: string)
  {
    |name| >= |BACKUP_SUFFIX| && name[|name| - |BACKUP_SUFFIX|..] == BACKUP_SUFFIX
  }

  /** `has_backup`: a mesh with the backup name of the object's mesh exists.
      Whenever it holds, a restore finds a source; when it does not, a
      restore still finds one exactly when the object's own mesh already
      carries the suffix, since the restore tries that name first. */
  function HasBackup(s: StoreState): (r: bool)
    ensures r ==> RestoreSource(s).Some?
    ensures !r ==> (RestoreSource(s).Some? <==> EndsWithSuffix(s.dataName) && s.dataName in s.meshes)
    ensures !r && RestoreSource(s).Some? ==> RestoreSource(s).value == s.dataName
  {
    BackupName(s.dataName) in s.meshes
  }

  /** `create_mesh_backup`: any mesh with the backup name is replaced by a
      copy of the object's mesh. */
  function Created(s: StoreState): StoreState
    requires s.dataName in s.meshes
  {
    s.(meshes := s.meshes[BackupName(s.dataName) := DataOf(s)])
  }

  /** The mesh `restore_mesh_backup` copies from: the object's own mesh when
      its name already ends with the suffix, otherwise the mesh with the
      backup name; the second lookup under the backup name is the fallback. */
  function RestoreSource(s: StoreState): Option<string>
  {
    var first := if EndsWithSuffix(s.dataName) then s.dataName else BackupName(s.dataName);
    if first in s.meshes then Some(first)
    else if BackupName(s.dataName) in s.meshes then Some(BackupName(s.dataName))
    else None
  }

  /** `restore_mesh_backup`: False and no change without a source; otherwise
      the object takes a copy of the source (under the fresh name
      `restoredName`), and its old mesh and the source are deleted. */
  function Restored(s: StoreState, restoredName: string): (bool, StoreState)
    requires s.dataName in s.meshes && restoredName !in s.meshes
  {
    match RestoreSource(s)
    case None => (false, s)
    case Some(name) =>
      (true, s.(dataName := restoredName,
                meshes := s.meshes[restoredName := s.meshes[name]] - {s.dataName} - {name}))
  }

  method CreateMeshBackup(obj: SceneObject, reg: MeshRegistry) returns (backup: MeshCopy)
    requires obj.dataName in reg.meshes
    modifies reg
    ensures StoreOf(obj, reg) == Created(old(StoreOf(obj, reg)))
    ensures backup == old(DataOf(StoreOf(obj, reg)))
  {
    var backupName := obj.dataName + BACKUP_SUFFIX;
    if backupName in reg.meshes {
      reg.meshes := reg.meshes - {backupName};
    }
    backup := reg.meshes[obj.dataName];
    reg.meshes := reg.meshes[backupName := backup];
  }

  method RestoreMeshBackup(obj: SceneObject, reg: MeshRegistry, restoredName: string) returns (ok: bool)
    requires obj.dataName in reg.meshes && restoredName !in reg.meshes
    modifies obj, reg
    ensures (ok, StoreOf(obj, reg)) == Restored(old(StoreOf(obj, reg)), restoredName)
  {
    var backupName := obj.dataName + BACKUP_SUFFIX;
    if EndsWithSuffix(obj.dataName) {
      backupName := obj.dataName;
    }
    if backupName !in reg.meshes {
      var originalName := obj.dataName;
      backupName := originalName + BACKUP_SUFFIX;
    }
    if backupName !in reg.meshes {
      return false;
    }
    assert RestoreSource(StoreOf(obj, reg)) == Some(backupName);
    ghost var s0 := StoreOf(obj, reg);
    var currentName := obj.dataName;
    reg.meshes := reg.meshes[restoredName := reg.meshes[backupName]];
    obj.dataName := restoredName;
    reg.meshes := reg.meshes - {currentName};
    if backupName in reg.meshes {
      reg.meshes := reg.meshes - {backupName};
    }
    assert reg.meshes == s0.meshes[restoredName := s0.meshes[backupName]] - {s0.dataName} - {backupName};
    assert obj.props == s0.props;
    return true;
  }

  /** After a backup is created it exists and holds the object's mesh, and
      every other mesh is as it was. */
  lemma CreateMakesBackup(s: StoreState)
    requires s.dataName in s.meshes
    ensures var c := Created(s);
      && HasBackup(c) && c.meshes[BackupName(s.dataName)] == DataOf(s) && DataOf(c) == DataOf(s)
      && forall n :: n in s.meshes && n != BackupName(s.dataName) ==> n in c.meshes && c.meshes[n] == s.meshes[n]
  {
    assert BackupName(s.dataName) != s.dataName by {
      assert |BackupName(s.dataName)| == |s.dataName| + |BACKUP_SUFFIX|;
    }
  }

  /** Restoring succeeds exactly when there is a backup or the object's mesh
      is itself named like a backup; the fallback lookup never finds anything
      the first one missed. A failed restore changes nothing. */
  lemma RestoreSucceedsIff(s: StoreState, restoredName: string)
    requires s.dataName in s.meshes && restoredName !in s.meshes
    ensures Restored(s, restoredName).0 <==> HasBackup(s) || EndsWithSuffix(s.dataName)
    ensures !Restored(s, restoredName).0 ==> Restored(s, restoredName).1 == s
    ensures RestoreSource(s) == if EndsWithSuffix(s.dataName) then Some(s.dataName)
                                else if HasBackup(s) then Some(BackupName(s.dataName)) else None
  {
  }

  /** Backing up and then restoring gives the object back the mesh content it
      had before. Unless the mesh's own name ends with the suffix, the backup
      and the intermediate mesh are both gone afterwards. */
  lemma CreateThenRestore(s: StoreState, restoredName: string)
    requires s.dataName in s.meshes && restoredName !in s.meshes && restoredName != BackupName(s.dataName)
    ensures var (ok, r) := Restored(Created(s), restoredName);
      && ok && DataOf(r) == DataOf(s) && s.dataName !in r.meshes
      && (!EndsWithSuffix(s.dataName) ==> BackupName(s.dataName) !in r.meshes)
  {
    CreateMakesBackup(s);
  }
}
