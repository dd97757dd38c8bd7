/**
 * The part of the filesystem the bot touches, reduced to two flat directories
 * held as maps from entry name to what `stat` reports. A directory that does
 * not exist reads as an empty one.
 */
module Disk {

  /** What `stat` says an entry is: a regular file, a directory, or anything else (FIFO, socket, link to a directory). */
  datatype Kind = RegularFile | Directory | Special

  /** One directory entry: its size in bytes, its modification time, and its kind. */
  datatype Entry = Entry(size: nat, mtime: int, kind: Kind)
  {
    /** `Path.is_file()`. */
    const isFile: bool := kind == RegularFile
  }

  /** A flat directory: entry name to entry. */
  type Dir = map<string, Entry>

  /** The shared inbox directory and the staging directory for downloads. */
  class FileSystem {
    var shared: Dir
    var tmp: Dir

    constructor (shared: Dir, tmp: Dir)
      ensures this.shared == shared && this.tmp == tmp
    {
      this.shared := shared;
      this.tmp := tmp;
    }
  }
}
