/** The hard link to an update payload, which lives in a directory `updated` beside the
    payload.  Only those directories are part of the file system here: a parent directory is
    mapped to the one file its `updated` directory holds. */
module PayloadLink {

  /** An absolute payload path. */
  datatype Source = Source(dir: string, file: string)

  type Links = map<string, string>

  class FileSystem {
    var links: Links

    constructor (links: Links)
      ensures this.links == links
    {
      this.links := links;
    }
  }

  class PayloadHardLink {
    const fs: FileSystem
    const source: Source

    /** Replaces the `updated` directory, whatever it held, by one with the link. */
    constructor (fs: FileSystem, source: Source)
      modifies fs
      ensures this.fs == fs && this.source == source
      ensures fs.links == old(fs.links)[source.dir := source.file]
    {
      this.fs, this.source := fs, source;
      new;
      if source.dir in fs.links {
        fs.links := fs.links - {source.dir};
      }
      fs.links := fs.links[source.dir := source.file];
    }

    /** The destructor removes the directory, even if a later link has replaced it. */
    method Destroy()
      modifies fs
      ensures fs.links == old(fs.links) - {source.dir}
    {
      if source.dir in fs.links {
        fs.links := fs.links - {source.dir};
      }
    }
  }
}
