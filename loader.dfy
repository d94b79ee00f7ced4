/** The file records loaders exchange and the dispatcher they call. */
module Loader {
  import opened Wrappers

  /** A file handed to a loader. Its contents are given as text; the lazy
      accessor that supplies them is not modelled. */
  datatype InFile = InFile(path: string, srcPath: string, extension: string, contents: string)

  /** A file a loader emits. The host document comes back without an
      extension. */
  datatype OutFile = OutFile(path: string, contents: string, extension: Option<string>)

  /** `context.loadFile`: runs whichever loaders are registered for the
      file's extension and returns the files they emit, or `None` when no
      loader applies. */
  type Dispatcher = InFile -> Option<seq<OutFile>>
}
