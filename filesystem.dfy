/**
 * The output directory: whether it exists, and its entries by name. A
 * regular file holds the table written to it; any other entry (a
 * sub-directory, say) is a `Folder`.
 */
module FileSystem {
  import opened Tables

  datatype Entry = File(data: Table) | Folder

  /**
   * What one `DataFrame.to_excel` call does, as seen afterwards: the file is
   * there, the call returned but no file is there, or the call raised.
   */
  datatype WriteOutcome = Written | Vanished | Raised

  /** The entries that are not regular files. */
  function NonFiles(entries: map<string, Entry>): map<string, Entry>
  {
    map name | name in entries && entries[name].Folder? :: entries[name]
  }

  /** A write raises when the directory is missing, the writer fails, or the name is taken by a folder. */
  predicate SaveRaises(present: bool, entries: map<string, Entry>, name: string, how: WriteOutcome)
  {
    !present || how == Raised || (name in entries && entries[name].Folder?)
  }

  /** The entries after a write that did not raise: a written file replaces whatever file had that name. */
  function AfterSave(entries: map<string, Entry>, name: string, data: Table, how: WriteOutcome): map<string, Entry>
  {
    if how == Written then entries[name := File(data)] else entries - {name}
  }

  class Directory {
    const path: string
    var present: bool
    var entries: map<string, Entry>

    /** A directory that does not exist has no entries. */
    ghost predicate Valid()
      reads this
    {
      !present ==> entries == map[]
    }

    constructor (path: string, present: bool, entries: map<string, Entry>)
      requires !present ==> entries == map[]
      ensures Valid()
      ensures this.path == path && this.present == present && this.entries == entries
    {
      this.path := path;
      this.present := present;
      this.entries := entries;
    }

    /** `os.path.exists(directory)`. */
    predicate Exists()
      reads this
    {
      present
    }

    /** `os.path.exists(os.path.join(directory, name))`. */
    predicate Contains(name: string)
      reads this
    {
      name in entries
    }

    /** `os.path.isfile(os.path.join(directory, name))`. */
    predicate IsFile(name: string)
      reads this
    {
      name in entries && entries[name].File?
    }

    /** `os.listdir(directory)`, whose order is unspecified, as a set. */
    function ListDir(): set<string>
      reads this
    {
      entries.Keys
    }

    /** `os.makedirs(directory, exist_ok=True)`. */
    method MakeDirs()
      requires Valid()
      modifies this`present
      ensures Valid() && present && entries == old(entries)
    {
      present := true;
    }

    /** `shutil.rmtree(directory)`. */
    method RemoveTree()
      requires Valid() && present
      modifies this
      ensures Valid() && !present && entries == map[]
    {
      present := false;
      entries := map[];
    }

    /** `os.unlink(os.path.join(directory, name))` on a regular file. */
    method Unlink(name: string)
      requires Valid() && IsFile(name)
      modifies this`entries
      ensures Valid() && entries == old(entries) - {name}
    {
      entries := entries - {name};
    }

    /** `data.to_excel(os.path.join(directory, name), index=False)`, whose effect is `how`. */
    method Save(name: string, data: Table, how: WriteOutcome) returns (raised: bool)
      requires Valid()
      modifies this`entries
      ensures Valid()
      ensures raised == SaveRaises(present, old(entries), name, how)
      ensures entries == if raised then old(entries) else AfterSave(old(entries), name, data, how)
    {
      raised := SaveRaises(present, entries, name, how);
      if !raised {
        entries := AfterSave(entries, name, data, how);
      }
    }
  }
}
