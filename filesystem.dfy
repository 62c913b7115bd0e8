/**
 * The working directory as a map from path to content, and the backup of
 * `.env` the tool keeps while the merged file is in place.
 */
module FileSystem {

  const DOTENV: string := ".env"
  const BACKUP: string := "dotenv-merge.env.backup"

  /** The directory after `restoreDotenv`. */
  function Restored(files: map<string, string>): map<string, string> {
    if BACKUP in files then files[DOTENV := files[BACKUP]] - {BACKUP} else files
  }

  /** With a backup present, `.env` gets its content back and the backup is gone; nothing else changes. */
  lemma RestoreMovesBackup(files: map<string, string>)
    requires BACKUP in files
    ensures DOTENV in Restored(files) && Restored(files)[DOTENV] == files[BACKUP]
    ensures BACKUP !in Restored(files)
    ensures forall p :: p != DOTENV && p != BACKUP ==>
      (p in Restored(files) <==> p in files) && (p in files ==> Restored(files)[p] == files[p])
  {
  }

  /** Without a backup, restoring changes nothing. */
  lemma RestoreWithoutBackup(files: map<string, string>)
    requires BACKUP !in files
    ensures Restored(files) == files
  {
  }

  /** Restoring twice is restoring once. */
  lemma RestoreIdempotent(files: map<string, string>)
    ensures Restored(Restored(files)) == Restored(files)
  {
  }

  /**
   * Back up, then change `.env` in any way (overwrite it, or remove it), then
   * restore: `.env` is back to its old content and no backup is left.
   */
  lemma BackupRestoreRoundTrip(files: map<string, string>, changed: map<string, string>)
    requires DOTENV in files
    requires BACKUP in changed && changed[BACKUP] == files[DOTENV]
    requires forall p :: p != DOTENV && p != BACKUP ==>
      (p in changed <==> p in files) && (p in files ==> changed[p] == files[p])
    ensures Restored(changed) == files - {BACKUP}
  {
    var r := Restored(changed);
    assert r.Keys == files.Keys - {BACKUP};
  }

  /** The round trip as the script performs it: back up, overwrite `.env`, restore. */
  lemma BackupWriteRestore(files: map<string, string>, content: string)
    requires DOTENV in files
    ensures Restored(files[BACKUP := files[DOTENV]][DOTENV := content]) == files - {BACKUP}
  {
    BackupRestoreRoundTrip(files, files[BACKUP := files[DOTENV]][DOTENV := content]);
  }

  class Disk {
    var files: map<string, string>

    constructor (files: map<string, string>)
      ensures this.files == files
    {
      this.files := files;
    }

    /** `fs.existsSync(path)` */
    function Exists(path: string): (b: bool)
      reads this
      ensures b <==> path in files
    {
      path in files
    }

    /** `fs.copyFileSync(from, to)`; `ok` is false, and nothing changes, when `from` does not exist. */
    method CopyFile(from: string, to: string) returns (ok: bool)
      modifies this
      ensures ok == (from in old(files))
      ensures files == if ok then old(files)[to := old(files)[from]] else old(files)
    {
      ok := from in files;
      if ok {
        files := files[to := files[from]];
      }
    }

    /** `fs.unlinkSync(path)`; `ok` is false, and nothing changes, when `path` does not exist. */
    method Unlink(path: string) returns (ok: bool)
      modifies this
      ensures ok == (path in old(files))
      ensures files == old(files) - {path}
    {
      ok := path in files;
      files := files - {path};
    }

    /** A write stream opened on `path` and ended after `content` was written. */
    method WriteFile(path: string, content: string)
      modifies this
      ensures files == old(files)[path := content]
    {
      files := files[path := content];
    }

    /** `backupDotenv`: `ok` is false (the copy throws) when there is no `.env`. */
    method BackupDotenv() returns (ok: bool)
      modifies this
      ensures ok == (DOTENV in old(files))
      ensures files == if ok then old(files)[BACKUP := old(files)[DOTENV]] else old(files)
    {
      ok := CopyFile(DOTENV, BACKUP);
    }

    /** `restoreDotenv` */
    method RestoreDotenv()
      modifies this
      ensures files == Restored(old(files))
    {
      if Exists(BACKUP) {
        var copied := CopyFile(BACKUP, DOTENV);
        var removed := Unlink(BACKUP);
      }
    }
  }
}
