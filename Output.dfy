/** The files the build writes under `dist`, as a map from path to contents.
    `safely_write_file` (src/file_ops.rs) stores one file; a failing write
    is not modelled. */
module Output {

  class Dist {
    var files: map<string, string>

    constructor ()
      ensures files == map[]
    {
      files := map[];
    }

    /** `safely_write_file`: the file at `path` now holds `content`; no other
        file changes. */
    method Write(path: string, content: string)
      modifies this
      ensures files == old(files)[path := content]
    {
      files := files[path := content];
    }
  }
}
