/** The blob-storage file service: the container paths it registers with the file
    provider, the normalisation of the paths of an incoming file-manager request, and the
    dispatch of the request's action to the provider. */
module AzureStorage {
  import opened Wrappers
  import opened Text

  /** The storage account's blob endpoint, up to the container name. Written as two
      literals joined so that the verifier reads its first character off the left one. */
  const StorageHost: string := "https://" + "documenteditorstorage.blob.core.windows.net/"

  /** The folder created inside the container that holds the documents. */
  const RootFolderName: string := "Files"

  /** The characters `TrimEnd` drops from the container paths. */
  const Slashes: set<char> := {'/', '\\'}

  /** The base-path fix: a path not ending in `/` gets one; a path ending in `/` has all
      trailing `/` and `\` trimmed and exactly one `/` put back. */
  function FixBasePath(s: string): (r: string)
    requires |s| >= 1
    ensures EndsWith(r, '/')
    ensures |r| < 2 || r[|r| - 2] != '/'
    ensures |r| <= |s| + 1
    ensures r[..|r| - 1] == s[..|r| - 1]
  {
    if s[|s| - 1] != '/' then s + "/" else TrimEnd(s, Slashes) + "/"
  }

  /** The file-path fix: trailing `/` and `\` are trimmed, but only when the last
      character is `/`. */
  function FixFilePath(s: string): (r: string)
    requires |s| >= 1
    ensures !EndsWith(r, '/')
    ensures |r| <= |s| && r == s[..|r|]
    ensures !EndsWith(s, '/') ==> r == s
  {
    if s[|s| - 1] == '/' then TrimEnd(s, Slashes) else s
  }

  /** The container URL before the fixes, with `../` removed. */
  function RawBasePath(containerName: string): (r: string)
    ensures |r| >= 1 && r[0] == 'h'
  {
    var s := StorageHost + containerName;
    assert s[0] == StorageHost[0] == 'h';
    ReplaceKeepsFirst(s, "../", "");
    Replace(s, "../", "")
  }

  /** The root-folder URL before the fixes, with `../` removed. */
  function RawFilePath(containerName: string): (r: string)
    ensures |r| >= 1 && r[0] == 'h'
  {
    var s := StorageHost + containerName + "/" + RootFolderName;
    assert s[0] == StorageHost[0] == 'h';
    ReplaceKeepsFirst(s, "../", "");
    Replace(s, "../", "")
  }

  /** `originalPath`: the root-folder URL with the container URL removed from it. */
  function OriginalPath(containerName: string): (r: string)
    ensures r == RootFolderName
  {
    var basePath := StorageHost + containerName + "/";
    ReplaceLeading(basePath, RootFolderName);
    Replace(basePath + RootFolderName, basePath, "")
  }

  /** The calls the service makes on the file provider, with the paths it passes. */
  datatype ProviderCall =
    | GetFiles(path: Option<string>)
    | Delete(path: Option<string>)
    | Details(path: Option<string>)
    | Search(path: Option<string>)
    | Copy(path: Option<string>, targetPath: Option<string>)

  /** The action name that selects a call. */
  function ActionName(call: ProviderCall): string {
    match call
    case GetFiles(_) => "read"
    case Delete(_) => "delete"
    case Details(_) => "details"
    case Search(_) => "search"
    case Copy(_, _) => "copy"
  }

  /** The `switch` on the action: five names select a provider call; any other action,
      null included, yields null. */
  function Dispatch(action: Option<string>, path: Option<string>, targetPath: Option<string>): Option<ProviderCall> {
    match action
    case None => None
    case Some(name) =>
      if name == "read" then Some(GetFiles(path))
      else if name == "delete" then Some(Delete(path))
      else if name == "details" then Some(Details(path))
      else if name == "search" then Some(Search(path))
      else if name == "copy" then Some(Copy(path, targetPath))
      else None
  }

  /** The dispatch table and the action names are inverse: a call is made exactly for the
      five names, and it is the call that name stands for, on the paths given. */
  lemma DispatchMatchesActionName(action: Option<string>, path: Option<string>, targetPath: Option<string>)
    ensures Dispatch(action, path, targetPath).Some? <==>
      action.Some? && action.value in {"read", "delete", "details", "search", "copy"}
    ensures Dispatch(action, path, targetPath).Some? ==>
      var call := Dispatch(action, path, targetPath).value;
      && action == Some(ActionName(call))
      && call.path == path
      && (call.Copy? ==> call.targetPath == targetPath)
  {
  }

  /** Each call is reached by its own action name. */
  lemma ActionNameDispatches(call: ProviderCall)
    ensures Dispatch(Some(ActionName(call)), call.path, if call.Copy? then call.targetPath else None) == Some(call)
  {
  }

  /** The normalised `Path` of a request whose `Path` is not empty. */
  function NormalizedPath(containerName: string, path: string): (r: string)
    ensures Contains(r, RootFolderName)
    ensures !Contains(path, RootFolderName) ==> r == RootFolderName + Replace(path, "//", "/")
  {
    var originalPath := OriginalPath(containerName);
    if Contains(path, originalPath) then
      CollapseKeepsContainedWord(path, originalPath);
      Replace(path, "//", "/")
    else
      CollapseKeepsSlashFreePrefix(originalPath, path);
      assert OccursAt(originalPath + Replace(path, "//", "/"), originalPath, 0);
      Replace(originalPath + path, "//", "/")
  }

  /** The normalised `TargetPath`: always the root folder followed by the collapsed target
      (a null target reads as empty). */
  function NormalizedTargetPath(containerName: string, targetPath: Option<string>): (r: string)
    ensures var t := if targetPath.None? then "" else targetPath.value;
      r == RootFolderName + Replace(t, "//", "/")
  {
    var originalPath := OriginalPath(containerName);
    var t := if targetPath.None? then "" else targetPath.value;
    CollapseKeepsSlashFreePrefix(originalPath, t);
    Replace(originalPath + t, "//", "/")
  }

  /** A path that already holds the root folder is only collapsed. */
  lemma NormalizedPathWithRoot(containerName: string, path: string)
    requires Contains(path, RootFolderName)
    ensures NormalizedPath(containerName, path) == Replace(path, "//", "/")
  {
  }

  /** The part of `FileManagerDirectoryContent` the service reads and rewrites; the other
      request fields go to the provider untouched and are not modelled. */
  class DirectoryContent {
    var action: Option<string>
    var path: Option<string>
    var targetPath: Option<string>

    constructor (action: Option<string>, path: Option<string>, targetPath: Option<string>)
      ensures this.action == action && this.path == path && this.targetPath == targetPath
    {
      this.action := action;
      this.path := path;
      this.targetPath := targetPath;
    }
  }

  /** `AzureDocumentStorageService`: the container name from configuration, and the two
      paths the constructor hands to the file provider. */
  class AzureDocumentStorageService {
    const containerName: string
    const rootFolderName: string
    var basePath: string
    var filePath: string

    /** Builds the container URL and the root-folder URL, removes `../` from both, then
        gives the first exactly one trailing `/` and strips trailing slashes off the second. */
    constructor (containerName: string)
      ensures this.containerName == containerName && rootFolderName == RootFolderName
      ensures basePath == FixBasePath(RawBasePath(containerName))
      ensures filePath == FixFilePath(RawFilePath(containerName))
    {
      this.containerName := containerName;
      rootFolderName := RootFolderName;
      var basePath := StorageHost + containerName;
      var filePath := basePath + "/" + RootFolderName;
      basePath := Replace(basePath, "../", "");
      filePath := Replace(filePath, "../", "");
      assert basePath == RawBasePath(containerName) && filePath == RawFilePath(containerName);
      if basePath[|basePath| - 1] != '/' {
        basePath := basePath + "/";
      } else {
        basePath := TrimEnd(basePath, Slashes) + "/";
      }
      if filePath[|filePath| - 1] == '/' {
        filePath := TrimEnd(filePath, Slashes);
      }
      this.basePath := basePath;
      this.filePath := filePath;
    }

    /** `NormalizeDocumentPaths`: a null or empty `Path` leaves the request as it is;
        otherwise `Path` and `TargetPath` are rewritten to start from the root folder. */
    method NormalizeDocumentPaths(args: DirectoryContent)
      modifies args`path, args`targetPath
      ensures old(args.path).None? || old(args.path) == Some("") ==>
        args.path == old(args.path) && args.targetPath == old(args.targetPath)
      ensures old(args.path).Some? && old(args.path) != Some("") ==>
        && args.path == Some(NormalizedPath(containerName, old(args.path).value))
        && args.targetPath == Some(NormalizedTargetPath(containerName, old(args.targetPath)))
    {
      if args.path.None? || args.path.value == "" {
        return;
      }
      var originalPath := OriginalPath(containerName);
      var path := args.path.value;
      if Contains(path, originalPath) {
        args.path := Some(Replace(path, "//", "/"));
      } else {
        args.path := Some(Replace(originalPath + path, "//", "/"));
      }
      var target := if args.targetPath.None? then "" else args.targetPath.value;
      args.targetPath := Some(Replace(originalPath + target, "//", "/"));
    }

    /** `ManageDocument`: normalise the request's paths, then make the call its action
        selects on the normalised paths (`None` for an action with no call). */
    method ManageDocument(args: DirectoryContent) returns (call: Option<ProviderCall>)
      modifies args`path, args`targetPath
      ensures old(args.path).None? || old(args.path) == Some("") ==>
        args.path == old(args.path) && args.targetPath == old(args.targetPath)
      ensures old(args.path).Some? && old(args.path) != Some("") ==>
        && args.path == Some(NormalizedPath(containerName, old(args.path).value))
        && args.targetPath == Some(NormalizedTargetPath(containerName, old(args.targetPath)))
      ensures call == Dispatch(args.action, args.path, args.targetPath)
    {
      NormalizeDocumentPaths(args);
      call := Dispatch(args.action, args.path, args.targetPath);
    }
  }

  /** Whatever the container name, the base path ends in exactly one `/` and the file path
      does not end in `/`. */
  lemma ContainerPathEnds(containerName: string)
    ensures var b := FixBasePath(RawBasePath(containerName));
      EndsWith(b, '/') && (|b| < 2 || b[|b| - 2] != '/')
    ensures !EndsWith(FixFilePath(RawFilePath(containerName)), '/')
  {
  }

  /** Every normalised, non-empty request path names the root folder. */
  lemma NormalizedPathsNameRoot(containerName: string, path: string, targetPath: Option<string>)
    ensures Contains(NormalizedPath(containerName, path), RootFolderName)
    ensures Contains(NormalizedTargetPath(containerName, targetPath), RootFolderName)
  {
    var r := NormalizedTargetPath(containerName, targetPath);
    assert OccursAt(r, RootFolderName, 0);
  }
}
