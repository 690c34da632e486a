/** The part of the file system the exporter and the watcher share. */
module Storage {

  /** Text files by path, and zip archives by path as the (member name, member content)
      pairs they package. */
  class FileStore {
    var files: map<string, string>
    var archives: map<string, seq<(string, string)>>

    constructor (files: map<string, string>)
      ensures this.files == files && archives == map[]
    {
      this.files := files;
      archives := map[];
    }
  }
}
