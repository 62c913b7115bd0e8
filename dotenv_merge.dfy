/**
 * The script from start to finish: parse the arguments, back up `.env`, write
 * the merged cascade into `.env`, name the command to run, and restore `.env`.
 */
module DotenvMerge {
  import opened Wrappers
  import opened Cascade
  import opened Options
  import opened Overlay
  import opened Output
  import opened Command
  import opened FileSystem

  /** The directory as the line reader sees it: every file's content cut into lines. */
  function LinesOf(files: map<string, string>, readLines: string -> seq<string>): (dir: map<string, seq<string>>)
    ensures dir.Keys == files.Keys
    ensures forall p :: p in files ==> dir[p] == readLines(files[p])
  {
    map p | p in files :: readLines(files[p])
  }

  /** The object the cascade selected by the arguments leaves behind, over the given files. */
  function Merged(files: map<string, string>, argv: seq<string>, readLines: string -> seq<string>): KeyValues {
    Merge(LinesOf(files, readLines), GetFilenames(Get(Parse(argv), "-e")))
  }

  /** The backup is never one of the candidate files, so making it does not change the merge. */
  lemma BackupNotInCascade(files: map<string, string>, argv: seq<string>, readLines: string -> seq<string>)
    requires DOTENV in files
    ensures Merged(files[BACKUP := files[DOTENV]], argv, readLines) == Merged(files, argv, readLines)
  {
    var names := GetFilenames(Get(Parse(argv), "-e"));
    var dir, dir' := LinesOf(files, readLines), LinesOf(files[BACKUP := files[DOTENV]], readLines);
    forall i | 0 <= i < |names|
      ensures FileLines(dir, names[i]) == FileLines(dir', names[i])
    {
      assert ".env" <= names[i];
      assert names[i] != BACKUP by {
        assert names[i][0] == '.' && BACKUP[0] == 'd';
      }
    }
    CascadeAgree(dir, dir', names);
  }

  /**
   * One run of the tool. `started` is false when there is no `.env`: the backup
   * throws and nothing happens. Otherwise `.env` holds the merged writes while
   * the command runs (`during` is the directory the command sees), and afterwards the directory is as before, save that no
   * backup is left behind.
   */
  method Run(disk: Disk, argv: seq<string>, eol: string, readLines: string -> seq<string>)
    returns (started: bool, writes: seq<string>, command: Option<Command>, ghost during: map<string, string>)
    modifies disk
    ensures started == (DOTENV in old(disk.files))
    ensures started ==> during == old(disk.files)[BACKUP := old(disk.files)[DOTENV]][DOTENV := Concat(writes)]
    ensures disk.files == if started then old(disk.files) - {BACKUP} else old(disk.files)
    ensures started ==> WritesOf(Merged(old(disk.files), argv, readLines), eol, writes)
    ensures command == if started then SplitCommand(Get(Parse(argv), "-x")) else None
  {
    ghost var original := disk.files;
    var options := GetOptions(argv);
    started := disk.BackupDotenv();
    if !started {
      writes, command, during := [], None, disk.files;
      return;
    }
    BackupNotInCascade(original, argv, readLines);
    var names := GetFilenames(Get(options, "-e"));
    var keyValues := LoadKeyValues(LinesOf(disk.files, readLines), names);
    assert keyValues == Merged(original, argv, readLines);
    writes := WriteValues(keyValues, eol);
    var content := Concat(writes);
    disk.WriteFile(DOTENV, content);
    during := disk.files;
    command := SplitCommand(Get(options, "-x"));
    disk.RestoreDotenv();
    BackupWriteRestore(original, content);
  }
}
