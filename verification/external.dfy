/** What the engine sees of the external programs and of the filesystem:
    a subprocess either runs and yields its standard output, or fails
    (non-zero exit or not found); a directory listing yields entries. */
module External {

  /** The outcome of running one external command and reading its output. */
  datatype ToolResult = Ran(stdout: string) | Failed

  /** One entry of a directory listing. */
  datatype DirEntry = DirEntry(name: string, isDir: bool)

  /** The external commands the workflows issue, in the order they issue
      them. Their effects are outside the model; only which command runs,
      with which arguments, is recorded. */
  datatype Command =
    | Mountpoint(path: string)                         // mountpoint -q <path>
    | FileBotList(query: string, format: string)       // filebot -list --db TheMovieDB
    | MkdirAll(path: string)
    | MakeMkvInfo(drive: string)                       // makemkvcon -r info <drive>
    | MakeMkvRip(drive: string, title: string, outDir: string, minLength: nat)
    | FileBotRename(dir: string, db: string, format: string)
    | Remove(path: string)
    | Eject(device: string)
}
