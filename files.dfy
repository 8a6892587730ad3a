/** Paths and the file system both programs work on. */
module Files {
  type Path = string

  /** The file system: the set of paths that exist, files and directories alike. */
  type FileSystem = set<Path>
}
