/** Resolution of stored paths into the two storage folders
    (backend/services/file_manager.py). Whatever path a photo record holds,
    only its last component is kept and placed inside the folder. */
module FileManager {
  import Config
  import Paths

  /** A storage folder as configured: non-empty and without a trailing separator. */
  predicate IsFolder(folder: string) {
    folder != [] && folder[|folder| - 1] != '/'
  }

  /** Both configured folders qualify. */
  lemma ConfiguredFolders()
    ensures IsFolder(Config.CompressedFolder) && IsFolder(Config.OriginalsFolder)
  {
  }

  /** `os.path.join(folder, os.path.basename(p))`. */
  function Confine(folder: string, p: string): (r: string)
    requires IsFolder(folder)
    ensures r == folder + "/" + Paths.Basename(p)
  {
    Paths.JoinName(folder, Paths.Basename(p));
    Paths.Join(folder, Paths.Basename(p))
  }

  /** `get_file_path`: the path of a compressed rendition. */
  function GetFilePath(relativePath: string): (r: string)
    ensures r == Config.CompressedFolder + "/" + Paths.Basename(relativePath)
  {
    Confine(Config.CompressedFolder, relativePath)
  }

  /** `get_original_file_path`: the path of an original rendition. */
  function GetOriginalFilePath(relativePath: string): (r: string)
    ensures r == Config.OriginalsFolder + "/" + Paths.Basename(relativePath)
  {
    Confine(Config.OriginalsFolder, relativePath)
  }

  /** The result lies directly inside the folder: after the folder and one
      separator there is no further separator, so no `a/b` escapes. The last
      component itself may still be `..` or empty. */
  lemma {:induction false} ConfineStaysInFolder(folder: string, p: string)
    requires IsFolder(folder)
    ensures |Confine(folder, p)| > |folder|
    ensures Confine(folder, p)[..|folder| + 1] == folder + "/"
    ensures '/' !in Confine(folder, p)[|folder| + 1..]
    ensures Confine(folder, p)[|folder| + 1..] == Paths.Basename(p)
  {
    var r := Confine(folder, p);
    assert r == (folder + "/") + Paths.Basename(p);
  }

  /** Resolving a resolved path again gives the same path. */
  lemma {:induction false} ConfineIdempotent(folder: string, p: string)
    requires IsFolder(folder)
    ensures Confine(folder, Confine(folder, p)) == Confine(folder, p)
  {
    ConfineRoundTrip(folder, Paths.Basename(p));
  }

  /** A path stored as `folder/name`, with no separator in `name`, resolves
      to itself. */
  lemma {:induction false} ConfineRoundTrip(folder: string, name: string)
    requires IsFolder(folder)
    requires '/' !in name
    ensures Confine(folder, folder + "/" + name) == folder + "/" + name
  {
    var r := folder + "/" + name;
    var k := Paths.RFind(r, '/');
    assert r[|folder|] == '/';
    assert forall j :: |folder| < j < |r| ==> r[j] == name[j - |folder| - 1];
    assert k == |folder|;
    assert r[k + 1..] == name;
  }

  lemma GetFilePathIdempotent(p: string)
    ensures GetFilePath(GetFilePath(p)) == GetFilePath(p)
  {
    ConfineIdempotent(Config.CompressedFolder, p);
  }

  lemma GetOriginalFilePathIdempotent(p: string)
    ensures GetOriginalFilePath(GetOriginalFilePath(p)) == GetOriginalFilePath(p)
  {
    ConfineIdempotent(Config.OriginalsFolder, p);
  }

  lemma GetFilePathRoundTrip(name: string)
    requires '/' !in name
    ensures GetFilePath(Paths.Join(Config.CompressedFolder, name)) == Paths.Join(Config.CompressedFolder, name)
  {
    Paths.JoinName(Config.CompressedFolder, name);
    ConfineRoundTrip(Config.CompressedFolder, name);
  }

  lemma GetOriginalFilePathRoundTrip(name: string)
    requires '/' !in name
    ensures GetOriginalFilePath(Paths.Join(Config.OriginalsFolder, name)) == Paths.Join(Config.OriginalsFolder, name)
  {
    Paths.JoinName(Config.OriginalsFolder, name);
    ConfineRoundTrip(Config.OriginalsFolder, name);
  }

  /** Neither a `..` component nor an empty last component is rejected. */
  lemma ParentAndEmptyNotRejected()
    ensures GetFilePath("../..") == "uploads/compressed/.."
    ensures GetFilePath("photos/") == "uploads/compressed/"
  {
    Paths.BasenameOfDirectory("photos/");
    assert Paths.RFind("../..", '/') == 2;
  }
}
