/**
 * The file rewriter: one read-modify-write of one target file for one (find,
 * replace) pair. The file is read (already decoded to text), every occurrence of
 * `find` is replaced, and the text is written back only when it changed. A failure
 * is caught and reported as an outcome; a modelled failure never alters the file.
 *
 * The file system is a map from path to text. Which paths refuse reading and which
 * refuse writing is fixed for the run and given as `Access`.
 */
module Rewriter {
  import opened Literal

  type Path = string

  datatype FailureKind = PermissionDenied | OtherError

  /** What one attempt did; the tool reports these as log events. */
  datatype Outcome = Replaced | Unchanged | Failed(kind: FailureKind)

  /** Paths whose opening for reading, or for writing, is refused with a permission error. */
  datatype Access = Access(unreadable: set<Path>, unwritable: set<Path>)

  /** The outcome of one attempt on `files`: a missing file is a non-permission error
      on open; a refused read is a permission error; an unchanged text is never written;
      a changed text is written unless writing is refused. */
  function Attempt(files: map<Path, string>, access: Access, path: Path, find: string, rep: string): Outcome
  {
    if path !in files then Failed(OtherError)
    else if path in access.unreadable then Failed(PermissionDenied)
    else if ReplaceAll(files[path], find, rep) == files[path] then Unchanged
    else if path in access.unwritable then Failed(PermissionDenied)
    else Replaced
  }

  /** The files after one attempt: only a `Replaced` attempt stores the new text. */
  function Rewrite(files: map<Path, string>, access: Access, path: Path, find: string, rep: string)
    : (r: map<Path, string>)
    ensures r.Keys == files.Keys
    ensures forall p :: p in files && p != path ==> r[p] == files[p]
  {
    if Attempt(files, access, path, find, rep) == Replaced
    then files[path := ReplaceAll(files[path], find, rep)]
    else files
  }

  /** The file store is written exactly when the attempt reports `Replaced`, and that
      happens exactly when the file is present, readable and writable, `find` occurs
      in its text and `rep` differs from `find`. */
  lemma RewriteWritesIff(files: map<Path, string>, access: Access, path: Path, find: string, rep: string)
    requires path in files
    ensures Rewrite(files, access, path, find, rep) != files <==> Attempt(files, access, path, find, rep) == Replaced
    ensures Attempt(files, access, path, find, rep) == Replaced <==>
      path !in access.unreadable && path !in access.unwritable && Occurs(find, files[path]) && find != rep
  {
    ReplaceUnchangedIff(files[path], find, rep);
    if Attempt(files, access, path, find, rep) == Replaced {
      assert Rewrite(files, access, path, find, rep)[path] != files[path];
    }
  }

  /** When `find` does not occur in the file, nothing is written; a readable file
      reports `Unchanged`. */
  lemma NoOccurrenceNoWrite(files: map<Path, string>, access: Access, path: Path, find: string, rep: string)
    requires path in files && !Occurs(find, files[path])
    ensures Rewrite(files, access, path, find, rep) == files
    ensures path !in access.unreadable ==> Attempt(files, access, path, find, rep) == Unchanged
  {
    NoOccurrenceUnchanged(files[path], find, rep);
  }

  /** Applying the same pair a second time writes nothing when the first application
      left no occurrence of `find`. */
  lemma SecondApplicationNoWrite(files: map<Path, string>, access: Access, path: Path, find: string, rep: string)
    requires path in files
    requires !Occurs(find, Rewrite(files, access, path, find, rep)[path])
    ensures var once := Rewrite(files, access, path, find, rep);
      Rewrite(once, access, path, find, rep) == once &&
      Attempt(once, access, path, find, rep) != Replaced
  {
    var once := Rewrite(files, access, path, find, rep);
    NoOccurrenceNoWrite(once, access, path, find, rep);
  }

  /** A present, readable, writable file ends up holding the replaced text, whether or
      not a write was needed. */
  lemma RewriteWhenAllowed(files: map<Path, string>, access: Access, path: Path, find: string, rep: string)
    requires path in files && path !in access.unreadable && path !in access.unwritable
    ensures Rewrite(files, access, path, find, rep)[path] == ReplaceAll(files[path], find, rep)
  {
  }

  /** A failed attempt leaves the whole store as it was. */
  lemma FailureLeavesStore(files: map<Path, string>, access: Access, path: Path, find: string, rep: string)
    requires Attempt(files, access, path, find, rep).Failed?
    ensures Rewrite(files, access, path, find, rep) == files
  {
  }

  /** The files the tool reads and writes. */
  class FileStore {
    var files: map<Path, string>
    const access: Access

    constructor (files: map<Path, string>, access: Access)
      ensures this.files == files && this.access == access
    {
      this.files := files;
      this.access := access;
    }

    /** Reads `path`, replaces every `find` by `rep`, and writes the text back only when
        it changed; any failure is returned as an outcome and changes nothing. */
    method FindAndReplaceInFile(path: Path, find: string, rep: string) returns (outcome: Outcome)
      modifies this
      ensures outcome == Attempt(old(files), access, path, find, rep)
      ensures files == Rewrite(old(files), access, path, find, rep)
      ensures outcome != Replaced ==> files == old(files)
      ensures files.Keys == old(files).Keys
      ensures forall p :: p in old(files) && p != path ==> files[p] == old(files)[p]
    {
      if path !in files {
        return Failed(OtherError);
      }
      if path in access.unreadable {
        return Failed(PermissionDenied);
      }
      var content := files[path];
      var newContent := ReplaceAll(content, find, rep);
      if newContent != content {
        if path in access.unwritable {
          return Failed(PermissionDenied);
        }
        files := files[path := newContent];
        return Replaced;
      }
      return Unchanged;
    }
  }
}
