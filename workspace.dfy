/**
 * The output directory of a run, as the file system presents it to the two
 * scripts: it exists or not, and it holds image files by name.
 */
module Workspace {

  class Directory<F> {
    var present: bool
    var files: map<string, F>

    /** A missing directory holds no file. */
    ghost predicate Valid()
      reads this
    {
      present || files == map[]
    }

    constructor (present: bool, files: map<string, F>)
      requires present || files == map[]
      ensures Valid() && this.present == present && this.files == files
    {
      this.present := present;
      this.files := files;
    }

    /** `if not os.path.exists(d): os.makedirs(d)`: creates the directory when missing and keeps what it holds. */
    method EnsureExists()
      requires Valid()
      modifies this
      ensures Valid() && present
      ensures files == old(files)
    {
      if !present {
        present := true;
      }
    }

    /** `shutil.rmtree(d)` when the directory exists, then `os.makedirs(d)`: an existing, empty directory. */
    method Recreate()
      requires Valid()
      modifies this
      ensures Valid() && present && files == map[]
    {
      if present {
        present := false;
        files := map[];
      }
      present := true;
    }

    /** `cv2.imwrite(path, frame)`: stores `frame` under `name`, replacing a file of that name; nothing is written into a missing directory. */
    method Write(name: string, frame: F)
      requires Valid()
      modifies this
      ensures Valid() && present == old(present)
      ensures files == if present then old(files)[name := frame] else old(files)
    {
      if present {
        files := files[name := frame];
      }
    }
  }
}
