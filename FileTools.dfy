/**
 * `FileToolsManager`: which file-access back end serves a path, or a copy between two paths.
 * The permission service that says how a path may be accessed is a function parameter.
 */
module FileTools {
  import opened Wrappers

  /** How a path may be accessed. */
  datatype FileAccessType = StandardFile | DocumentFile | Shizuku | NoAccess

  /** The three back ends. */
  datatype Tools = FileTools | DocumentFileTools | ShizukuFileTools

  /** `getFileToolsBySinglePath`. */
  function ToolsBySinglePath(accessType: string -> FileAccessType, path: string): Option<Tools>
  {
    match accessType(path)
    case StandardFile => Some(FileTools)
    case DocumentFile => Some(DocumentFileTools)
    case Shizuku => Some(ShizukuFileTools)
    case NoAccess => None
  }

  /** `getFileToolsByPaths`. */
  function ToolsByPaths(accessType: string -> FileAccessType, srcPath: string, destPath: string): Option<Tools>
  {
    var src := accessType(srcPath);
    var dest := accessType(destPath);
    if src == NoAccess || dest == NoAccess then None
    else if src == Shizuku || dest == Shizuku then Some(ShizukuFileTools)
    else if src == DocumentFile || dest == DocumentFile then Some(DocumentFileTools)
    else Some(FileTools)
  }

  /** The priority the comment on `getFileToolsByPaths` states: Shizuku over documents over
    * plain files. */
  function Priority(t: FileAccessType): nat
  {
    match t
    case StandardFile => 0
    case DocumentFile => 1
    case Shizuku => 2
    case NoAccess => 0
  }

  /** The single-path lookup maps each access type to its own back end and "no access" to none. */
  lemma SinglePathMeaning(accessType: string -> FileAccessType, path: string)
    ensures ToolsBySinglePath(accessType, path).None? <==> accessType(path) == NoAccess
    ensures accessType(path) == Shizuku <==> ToolsBySinglePath(accessType, path) == Some(ShizukuFileTools)
    ensures accessType(path) == DocumentFile <==> ToolsBySinglePath(accessType, path) == Some(DocumentFileTools)
    ensures accessType(path) == StandardFile <==> ToolsBySinglePath(accessType, path) == Some(FileTools)
  {
  }

  /** A copy has no back end exactly when either side has no access, and otherwise uses the
    * single-path back end of the side with the higher priority. */
  lemma ByPathsPriority(accessType: string -> FileAccessType, srcPath: string, destPath: string)
    ensures var src := accessType(srcPath);
      var dest := accessType(destPath);
      var r := ToolsByPaths(accessType, srcPath, destPath);
      (r.None? <==> src == NoAccess || dest == NoAccess) &&
      (r.Some? && Priority(src) >= Priority(dest) ==> r == ToolsBySinglePath(accessType, srcPath)) &&
      (r.Some? && Priority(dest) >= Priority(src) ==> r == ToolsBySinglePath(accessType, destPath))
  {
  }

  /** Source and destination can be swapped without changing the back end. */
  lemma ByPathsSymmetric(accessType: string -> FileAccessType, srcPath: string, destPath: string)
    ensures ToolsByPaths(accessType, srcPath, destPath) == ToolsByPaths(accessType, destPath, srcPath)
  {
  }

  /** A copy within one path uses that path's own back end. */
  lemma ByPathsSame(accessType: string -> FileAccessType, path: string)
    ensures ToolsByPaths(accessType, path, path) == ToolsBySinglePath(accessType, path)
  {
  }
}
