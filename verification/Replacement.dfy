/** Replacing an installed binary by renames, any of which may fail, without ever losing the old one. */
module Replacement {
  import opened Wrappers

  type Path = string
  type Content = nat
  type Files = map<Path, Content>

  datatype InstallError = Failed | Retained(backup: Path)

  /** A directory tree whose renames are atomic: they move one file, or fail and change nothing. */
  class FileSystem {
    var files: Files
    var history: seq<Files>

    constructor (initial: Files)
      ensures files == initial && history == [initial]
    {
      files, history := initial, [initial];
    }

    /** Whether a rename fails is not up to the caller. */
    method Rename(from: Path, to: Path) returns (ok: bool)
      modifies this
      ensures ok ==> from in old(files) && files == (old(files) - {from})[to := old(files)[from]]
      ensures !ok ==> files == old(files)
      ensures history == old(history) + [files]
    {
      ok := *;
      ok := ok && from in files;
      if ok {
        files := (files - {from})[to := files[from]];
      }
      history := history + [files];
    }

    /** Removing a file may fail silently. */
    method TryRemove(path: Path)
      modifies this
      ensures files == old(files) || files == old(files) - {path}
      ensures history == old(history) + [files]
    {
      var succeeds: bool := *;
      if succeeds {
        files := files - {path};
      }
      history := history + [files];
    }
  }

  /** The old binary is in place or in the backup, or the new one is in place. */
  ghost predicate NothingLost(files: Files, destination: Path, backup: Path, before: Content, after: Content) {
    || (destination in files && (files[destination] == before || files[destination] == after))
    || (backup in files && files[backup] == before)
  }

  ghost predicate SameElsewhere(a: Files, b: Files, touched: set<Path>) {
    forall path | path !in touched :: (path in a <==> path in b) && (path in a ==> a[path] == b[path])
  }

  /**
   * Moves the old binary to a backup, the new one into place, and the old one back if that fails. The
   * backup's directory is deleted on every return except the one that names it.
   */
  method ReplaceOtherDestination(fs: FileSystem, source: Path, destination: Path, backup: Path)
    returns (result: Result<(), InstallError>)
    requires source != destination && backup != source && backup != destination && backup !in fs.files
    modifies fs
    ensures SameElsewhere(fs.files, old(fs.files), {source, destination, backup})
    ensures destination !in old(fs.files) ==>
              match result
              case Ok(_) =>
                && source in old(fs.files)
                && fs.files == (old(fs.files) - {source})[destination := old(fs.files)[source]]
              case Err(error) => error == Failed && fs.files == old(fs.files)
    ensures destination in old(fs.files) ==>
              match result
              case Ok(_) =>
                && source in old(fs.files) && source !in fs.files
                && destination in fs.files && fs.files[destination] == old(fs.files)[source]
              case Err(Failed) => fs.files == old(fs.files)
              case Err(Retained(at)) =>
                && at == backup && fs.files == (old(fs.files) - {destination})[backup := old(fs.files)[destination]]
    ensures old(fs.history) <= fs.history
    ensures destination in old(fs.files) ==>
              forall i :: |old(fs.history)| <= i < |fs.history| ==>
                NothingLost(fs.history[i], destination, backup, old(fs.files)[destination],
                            if source in old(fs.files) then old(fs.files)[source] else old(fs.files)[destination])
  {
    if destination !in fs.files {
      var moved := fs.Rename(source, destination);
      return if moved then Ok(()) else Err(Failed);
    }
    ghost var before := fs.files;
    var directoryFails: bool := *;
    if directoryFails {
      return Err(Failed);
    }
    var saved := fs.Rename(destination, backup);
    if !saved {
      fs.TryRemove(backup);
      assert fs.files == before;
      return Err(Failed);
    }
    var replaced := fs.Rename(source, destination);
    if !replaced {
      var restored := fs.Rename(backup, destination);
      if !restored {
        return Err(Retained(backup));
      }
      assert fs.files == before;
      fs.TryRemove(backup);
      assert fs.files == before;
      return Err(Failed);
    }
    fs.TryRemove(backup);
    fs.TryRemove(backup);
    return Ok(());
  }
}
