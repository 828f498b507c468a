/** The file record every checker is offered. Its names are fixed when the
    walk over the repository creates it; the checker writes the requirement
    flags, and the file provider fills in the contents afterwards. */
module Repo {

  /** What a checker asks the file provider to materialise. */
  datatype Requirements = Requirements(localCopy: bool, contents: bool)

  /** A snapshot of a file's names and contents, for specifications. */
  datatype Entry = Entry(tempName: string, origName: string, baseName: string, contents: string)

  class RepoFile {
    /** Path of the temporary copy the external tools read. */
    const tempName: string
    /** Path inside the repository; every warning names this one. */
    const origName: string
    const baseName: string
    var contents: string
    var require: Requirements

    constructor(tempName: string, origName: string, baseName: string)
      ensures this.tempName == tempName && this.origName == origName && this.baseName == baseName
      ensures contents == [] && require == Requirements(false, false)
    {
      this.tempName := tempName;
      this.origName := origName;
      this.baseName := baseName;
      contents := [];
      require := Requirements(false, false);
    }

    function View(): Entry
      reads this
    {
      Entry(tempName, origName, baseName, contents)
    }
  }

  /** Snapshots of `files`, in order. */
  function Entries(files: seq<RepoFile>): (es: seq<Entry>)
    reads files
    ensures |es| == |files|
    ensures forall i :: 0 <= i < |files| ==> es[i] == files[i].View()
  {
    if files == [] then [] else Entries(files[..|files| - 1]) + [files[|files| - 1].View()]
  }
}
