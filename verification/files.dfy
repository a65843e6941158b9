/** A flat directory of files, such as `<facetpath>/TS_estimate`, as the
    pipeline sees it through `os.makedirs`, `shutil.rmtree`, ASE `write`,
    `os.remove`, `os.rename` and `sorted(os.listdir(...))`. A file is its
    name and an opaque content `G` (a written structure). */
module Files {
  import opened Text

  /** `os.rename(src, dst)` on a POSIX system: the file moves, replacing any
      file already called `dst`; a missing `src` changes nothing (Python raises). */
  function RenameStep<G>(m: map<string, G>, src: string, dst: string): (m': map<string, G>)
    ensures src in m ==> dst in m' && m'[dst] == m[src]
    ensures src in m && src != dst ==> src !in m'
    ensures forall x :: x != src && x != dst ==> (x in m' <==> x in m) && (x in m' ==> m'[x] == m[x])
  {
    if src in m then (m - {src})[dst := m[src]] else m
  }

  class Directory<G> {
    var files: map<string, G>

    /** `os.makedirs(path)` of a new directory. */
    constructor ()
      ensures files == map[]
    {
      files := map[];
    }

    /** `shutil.rmtree(path)` followed by `os.makedirs(path)`. */
    method Clear()
      modifies this
      ensures files == map[]
    {
      files := map[];
    }

    /** ASE `write(path, atoms)`: creates the file or replaces its content. */
    method Write(name: string, content: G)
      modifies this
      ensures files == old(files)[name := content]
    {
      files := files[name := content];
    }

    /** `os.remove(path)`; `ok` is false where Python raises `OSError`. */
    method Remove(name: string) returns (ok: bool)
      modifies this
      ensures ok <==> name in old(files)
      ensures files == old(files) - {name}
    {
      ok := name in files;
      files := files - {name};
    }

    /** `os.rename(src, dst)`; `ok` is false where Python raises `OSError`. */
    method Rename(src: string, dst: string) returns (ok: bool)
      modifies this
      ensures ok <==> src in old(files)
      ensures files == RenameStep(old(files), src, dst)
    {
      ok := src in files;
      files := RenameStep(files, src, dst);
    }

    /** `sorted(os.listdir(path))`: every name once, in Python's string order. */
    method Listing() returns (names: seq<string>)
      ensures StrictlySorted(names) && forall x :: x in names <==> x in files
      ensures names == SortedSet(files.Keys)
    {
      names := [];
      var remaining := files.Keys;
      while remaining != {}
        invariant remaining <= files.Keys
        invariant StrictlySorted(names)
        invariant forall x :: x in names <==> x in files && x !in remaining
        decreases remaining
      {
        var x :| x in remaining;
        InsertStrict(names, x);
        names := Insert(names, x);
        remaining := remaining - {x};
      }
      SortedSetIs(files.Keys, names);
    }
  }
}
