/** A file system any of whose operations may fail. */
module FileSystems {
  import opened Models
  import opened Maps

  /** Temporary names are a name space of their own, numbered so that each is new. */
  datatype Path = Output(name: string) | Temporary(serial: nat)

  type Files = map<Path, Bytes>

  datatype Removal = Removed | Missing | Failed

  function Renamed(files: Files, source: Path, target: Path): (moved: Files)
    requires source in files
  {
    Without(files, source)[target := files[source]]
  }

  class FileSystem {
    var files: Files
    var nextSerial: nat

    /** How many operations have failed so far. */
    ghost var failures: nat

    /** Every temporary name in use has been handed out. */
    ghost predicate Valid()
      reads this
    {
      forall n: nat | Temporary(n) in files :: n < nextSerial
    }

    /** Whether the next operation happens to fail. */
    method Fails() returns (fails: bool)
      modifies `failures
      ensures failures == old(failures) + (if fails then 1 else 0)
    {
      fails := *;
      if fails {
        failures := failures + 1;
      }
    }

    /** os.path.lexists: an error on an existing path reads as absence. */
    method Exists(path: Path) returns (present: bool)
      modifies `failures
      ensures present ==> path in files
      ensures failures == old(failures) + (if path in files && !present then 1 else 0)
    {
      var fails: bool := *;
      present := path in files && !fails;
      if path in files && fails {
        failures := failures + 1;
      }
    }

    /** tempfile.mkstemp: an empty file under a new name, or an error. */
    method MakeTemporary() returns (path: Option<Path>)
      requires Valid()
      modifies this
      ensures Valid() && nextSerial >= old(nextSerial)
      ensures failures == old(failures) + (if path.None? then 1 else 0)
      ensures path.None? ==> files == old(files)
      ensures path.Some? ==>
                && path.value.Temporary? && old(nextSerial) <= path.value.serial < nextSerial
                && path.value !in old(files) && files == old(files)[path.value := []]
    {
      var fails := Fails();
      if fails {
        return None;
      }
      path := Some(Temporary(nextSerial));
      files, nextSerial := files[path.value := []], nextSerial + 1;
    }

    /** os.replace: moves the file, or changes nothing. */
    method Replace(source: Path, target: Path) returns (ok: bool)
      requires Valid() && (target.Temporary? ==> target.serial < nextSerial)
      modifies `files, `failures
      ensures Valid()
      ensures ok ==> failures == old(failures)
      ensures !ok ==> files == old(files)
      ensures !ok && source in files ==> failures == old(failures) + 1
      ensures ok ==> source in old(files) && files == Renamed(old(files), source, target)
    {
      var fails := Fails();
      if fails || source !in files {
        return false;
      }
      files := Renamed(files, source, target);
      return true;
    }

    /** Path.unlink. */
    method Unlink(path: Path) returns (r: Removal)
      requires Valid()
      modifies `files, `failures
      ensures Valid()
      ensures failures == old(failures) + (if r.Failed? then 1 else 0)
      ensures r.Removed? ==> path in old(files) && files == Without(old(files), path)
      ensures r.Missing? ==> path !in old(files) && files == old(files)
      ensures r.Failed? ==> files == old(files)
    {
      var fails := Fails();
      if fails {
        return Failed;
      }
      if path !in files {
        return Missing;
      }
      files := Without(files, path);
      return Removed;
    }

    /** Writing a buffer out: all of it, or some of it and an error. */
    method WriteOut(path: Path, buffer: Bytes) returns (written: nat, ok: bool)
      requires Valid() && path in files
      modifies `files, `failures
      ensures Valid() && written <= |buffer| && (ok ==> written == |buffer|)
      ensures failures == old(failures) + (if ok then 0 else 1)
      ensures files == old(files)[path := old(files)[path] + buffer[..written]]
    {
      var fails := Fails();
      written, ok := |buffer|, !fails;
      if fails {
        var some: int := *;
        written := if 0 <= some <= |buffer| then some else 0;
      }
      files := files[path := files[path] + buffer[..written]];
    }
  }
}
