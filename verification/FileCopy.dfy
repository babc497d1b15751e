/** Copying a file in chunks (Copy in api/filesystem/filesystem.go). Unless `healthy`, every call may
    fail and the process may die between any two of them. */
module FileCopy {
  import opened Bytes

  datatype Copied = Success | Failed | Interrupted

  const CHUNK := 1024

  /** Whether the next call fails, and whether the process dies at it. */
  method Trouble(healthy: bool) returns (fails: bool, dies: bool)
    ensures healthy ==> !fails && !dies
  {
    fails, dies := *, *;
    fails, dies := fails && !healthy, dies && !healthy;
  }

  class Disk {
    var files: map<string, bytes>

    constructor (files: map<string, bytes>)
      ensures this.files == files
    {
      this.files := files;
    }

    /** What a copy that did not finish can have done to its destination: nothing, removed it, or
        written a part of the source. */
    static ghost predicate Partial(before: map<string, bytes>, now: map<string, bytes>, to: string, source: bytes) {
      && now - {to} == before - {to}
      && (to in now ==> (to in before && now[to] == before[to]) || now[to] <= source)
    }

    method Copy(fromPath: string, toPath: string, deleteIfExists: bool, healthy: bool) returns (r: Copied)
      modifies this
      ensures healthy ==> !r.Interrupted? && (r.Success? <==> fromPath in old(files) && (deleteIfExists || toPath !in old(files)))
      ensures r.Success? ==> fromPath in old(files) && files == old(files)[toPath := old(files)[fromPath]]
      ensures r.Success? ==> deleteIfExists || toPath !in old(files)
      ensures fromPath !in old(files) || (toPath in old(files) && !deleteIfExists) ==> files == old(files)
      ensures fromPath in old(files) ==> Partial(old(files), files, toPath, old(files)[fromPath])
    {
      var fails, dies := Trouble(healthy);
      if dies { return Interrupted; }
      if fails || fromPath !in files {
        return Failed;
      }
      // an open file is read on even after its name is gone
      var source := files[fromPath];
      fails, dies := Trouble(healthy);
      if dies { return Interrupted; }
      if fails { return Failed; }
      if toPath in files {
        if !deleteIfExists {
          return Failed;
        }
        fails, dies := Trouble(healthy);
        if fails { return Failed; }
        files := files - {toPath};
        if dies { return Interrupted; }
      }
      fails, dies := Trouble(healthy);
      if dies { return Interrupted; }
      if fails { return Failed; }
      files := files[toPath := []];
      r := CopyChunks(source, toPath, healthy);
    }

    /** The loop; a read returns at most a chunk, and a failed write may have written a part. */
    method CopyChunks(source: bytes, toPath: string, healthy: bool) returns (r: Copied)
      requires toPath in files && files[toPath] == []
      modifies this
      ensures healthy ==> r.Success?
      ensures r.Success? ==> files == old(files)[toPath := source]
      ensures files - {toPath} == old(files) - {toPath} && toPath in files && files[toPath] <= source
    {
      var i := 0;
      while true
        invariant 0 <= i <= |source|
        invariant files == old(files)[toPath := source[..i]]
        decreases |source| - i
      {
        var fails, dies := Trouble(healthy);
        if dies { return Interrupted; }
        if fails { return Failed; }
        if i == |source| {
          break;
        }
        var n: nat :| 0 < n <= CHUNK && n <= |source| - i by { assert 0 < 1 <= CHUNK && 1 <= |source| - i; }
        var buf := source[i..i + n];
        fails, dies := Trouble(healthy);
        if fails || dies {
          var written: nat :| written <= n by { assert 0 <= n; }
          files := files[toPath := files[toPath] + buf[..written]];
          assert source[..i] + buf[..written] == source[..i + written];
          return if fails then Failed else Interrupted;
        }
        files := files[toPath := files[toPath] + buf];
        assert source[..i] + buf == source[..i + n];
        i := i + n;
      }
      assert source[..i] == source;
      r := Success;
    }
  }
}
