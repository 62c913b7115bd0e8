# dotenv-merge in Dafny

`dotenv-merge` is a command-line script. It merges a cascade of dotenv files
into `.env` and optionally runs a command while the merged file is in place.
Afterwards it puts the original `.env` back.

The script runs in five steps:

1. It reads its flags: `-e <env>` selects an environment, `-x <command...>` names the command.
2. It copies `.env` to `dotenv-merge.env.backup`.
3. It reads `.env`, `.env.<env>`, `.env.local` and `.env.<env>.local`, in that order.
   The two `<env>` files are read only when an environment was given.
   A missing file is skipped.
   Every line holding `=` is stored whole under the text before its first `=`.
   Later lines replace earlier ones.
4. It writes one line per key into `.env`, each followed by the platform's end-of-line string.
5. It runs the command, then copies the backup back over `.env` and deletes the backup.

The model has one module per concern. They share no state.

- `JsString`: the JavaScript `split` and `join` on a one-character separator. All parsing uses them.
- `Cascade`: `getFilenames`.
- `Options`: `isOption` and `getOptions`. `GetOptions` is a method with the script's two nested loops.
  It is proved equal to a reference function `Parse`. The properties are lemmas about `Parse`.
- `Overlay`: the `keyValues` object is the value `KeyValues` (a map plus the keys in insertion order).
  `LoadKeyValuesHelper` is a recursive method over the file names, as in the script.
  Its inner loop stands for the `'line'` events.
  It is proved equal to a left fold `Fold` over the lines of the cascade.
  The properties are lemmas about that fold.
- `Output`: the `forEach` that writes the object back.
- `Command`: the split of the `-x` value into a program and its arguments.
- `FileSystem`: the working directory is a class `Disk` holding a `map<string, string>` from path to content.
  `backupDotenv` and `restoreDotenv` are methods on it.
  `Restored` is a function stating the effect of a restore.
- `DotenvMerge.Run`: the whole script from start to finish.

Inputs that come from outside the script are parameters:

- the user arguments (`process.argv` without its first two entries);
- the end-of-line string (`os.EOL`);
- the line splitting of `readline` (a function from file content to lines).

## Model

| member | source | states |
|---|---|---|
| `Wrappers.Get` | bin/dotenv-merge.js:104 | Definition of the property read: looking up an option gives the flag's value when it was recorded, and `undefined` (`None`) exactly when it was not. |
| `JsString.Split` | bin/dotenv-merge.js:68 | `split` on one character always yields at least one piece, and no piece contains the separator. |
| `JsString.Join` | bin/dotenv-merge.js:38 | `join` opens with the first piece and puts the separator right after it when there are more. `JoinSplit` and `SplitJoin` show it is the inverse of `split`. |
| `JsString.JoinSplit` | bin/dotenv-merge.js:111 | Joining the pieces of a split with the same separator gives back the original string, for every string. |
| `JsString.SplitJoin` | bin/dotenv-merge.js:38 | Splitting the join of one or more separator-free pieces gives back exactly those pieces. |
| `JsString.SplitHead` | bin/dotenv-merge.js:68-71 | The first piece is the prefix of the string before the first separator. There is more than one piece exactly when the string contains the separator. |
| `Cascade.Truthy` | bin/dotenv-merge.js:11 | Definition of JavaScript truthiness for the `-e` value: false exactly for `undefined` (`None`) and `''`. `EmptyEnvIsAbsent` shows both select the same files. |
| `Cascade.GetFilenames` | bin/dotenv-merge.js:10-14 | A truthy name `e` gives four files: `.env`, `.env.e`, `.env.local`, `.env.e.local`. Otherwise there are two: `.env`, `.env.local`. The base file comes first, and every name extends `.env`. |
| `Cascade.EmptyEnvIsAbsent` | bin/dotenv-merge.js:11-13 | An empty `-e` value selects the same two files as no `-e` at all. |
| `Options.IsOption` | bin/dotenv-merge.js:16-18 | Definition: exactly `-e` and `-x` are flags. `ParseKeys` shows that these are the only keys ever recorded. |
| `Options.RunLength` | bin/dotenv-merge.js:30-36 | The inner loop collects the longest run of non-flag tokens, stopping at the first flag or at the end. |
| `Options.RunAfter` | bin/dotenv-merge.js:30-36 | The run after position `i` holds only non-flag tokens, is a contiguous slice of the arguments, and is followed by a flag or by the end. |
| `Options.GetOptions` | bin/dotenv-merge.js:20-43 | The nested shift loops compute exactly the reference reading `Parse` of the argument list. |
| `Options.ParseKeys` | bin/dotenv-merge.js:16-18 | A key is recorded exactly when it is `-e` or `-x` and occurs among the arguments. No other key is ever recorded. |
| `Options.ParseLast` | bin/dotenv-merge.js:27-38 | A flag's value comes from its last occurrence. It is the space-join of the run of non-flag tokens right after that occurrence. |
| `Options.ParseEmptyValue` | bin/dotenv-merge.js:28-38 | A flag at the end of the list, or right before another flag, records `''`. |
| `Options.ParseSkipsLeading` | bin/dotenv-merge.js:24-27 | Tokens before the first flag are discarded: prepending non-flag tokens changes nothing. |
| `Overlay.Put` | bin/dotenv-merge.js:73 | An assignment stores the value under the key and leaves every other key's value as it was. A new key goes to the end of the key order. The object stays well formed. |
| `Overlay.Step` | bin/dotenv-merge.js:67-75 | The `'line'` handler leaves the object unchanged for a line without `=`. Otherwise the whole line is stored under the text before its first `=`. The object stays well formed. |
| `Overlay.LoadKeyValuesHelper` | bin/dotenv-merge.js:45-76 | Reading the first file line by line, then recursing on the rest, yields the fold of the line handler over the lines of all the files. A missing file reads as no lines. |
| `Overlay.LoadKeyValues` | bin/dotenv-merge.js:78-80 | Starting from `{}`, the result is the merge of the cascade. Every stored line carries its own key, and each key is listed once. |
| `Overlay.FoldAppend` | bin/dotenv-merge.js:49-51 | Handing the object on to the next file equals folding over the concatenated lines. |
| `Overlay.MissingFileIgnored` | bin/dotenv-merge.js:53-55 | A name that does not exist can be removed from the list without changing the merge. |
| `Overlay.LineWithoutEqualsIgnored` | bin/dotenv-merge.js:68-70 | A line without `=` never affects the result, wherever it stands. |
| `Overlay.CarriesMeans` | bin/dotenv-merge.js:68-73 | A line is stored under `key` exactly when `key` is the text before its first `=`. That text may be empty. The line is stored untrimmed, including later `=` signs. |
| `Overlay.FoldValid` | bin/dotenv-merge.js:67-75 | The line handler keeps the object well formed. It stores only lines that carry their own key. |
| `Overlay.MergeKeys` | bin/dotenv-merge.js:67-75 | A key is present after the merge exactly when some line of the cascade carries it. |
| `Overlay.LastWriteWins` | bin/dotenv-merge.js:45-51 | The stored line for a key is the last line carrying it, taking files in list order and lines in file order. |
| `Overlay.FirstAppearanceOrder` | bin/dotenv-merge.js:73 | When key `p` precedes key `q` in the object's order, a line carrying `p` stands before every line carrying `q`. |
| `Output.OutputLines` | bin/dotenv-merge.js:119 | Definition of `Object.values`: the values come out one per listed key, in key order, each being that key's stored line. |
| `Output.WriteValues` | bin/dotenv-merge.js:119 | There is one write per distinct key, in key order. Each write is the stored line followed by EOL. |
| `Output.Concat` | bin/dotenv-merge.js:119-121 | Definition: the text of the writes to the stream, which `end` completes. `ConcatPrefix` and `ConcatAppend` state its properties. |
| `Output.ConcatPrefix` | bin/dotenv-merge.js:119-121 | Each write appends: the text written up to any write is a prefix of the final file. |
| `Output.ConcatAppend` | bin/dotenv-merge.js:119-121 | Writing one run of chunks and then another gives the two texts one after the other. |
| `Output.ReloadOutput` | bin/dotenv-merge.js:119 | Overlaying the written lines once more rebuilds the same object: the same stored lines in the same key order. |
| `Output.MergeReloads` | bin/dotenv-merge.js:104-119 | The merged file, read again on its own, gives back the merged object. |
| `Command.SplitCommand` | bin/dotenv-merge.js:108-111 | A command is taken exactly when the `-x` value is present and non-empty. Neither the program nor any argument contains a space. |
| `Command.SplitCommandRoundTrip` | bin/dotenv-merge.js:111 | Joining the program and its arguments with single spaces gives back the `-x` value. |
| `Command.SplitCommandOfTokens` | bin/dotenv-merge.js:38 | When the tokens after `-x` contain no spaces, the command and its arguments are exactly those tokens. |
| `Command.TokenWithSpaceIsSplit` | bin/dotenv-merge.js:111 | Whatever the tokens after `-x`, when one of them contains a space the spawned command is not those tokens: the quoted token is broken up. |
| `Command.QuotedArgumentIsSplit` | bin/dotenv-merge.js:111 | An instance: `echo` and `a b` become `echo` with the two arguments `a` and `b`. |
| `FileSystem.RestoreMovesBackup` | bin/dotenv-merge.js:86-92 | With a backup present, `.env` ends with the backup's content, the backup path is gone, and every other file is untouched. |
| `FileSystem.RestoreWithoutBackup` | bin/dotenv-merge.js:87 | Without a backup, restoring changes nothing. |
| `FileSystem.RestoreIdempotent` | bin/dotenv-merge.js:86-92 | Restoring twice has the same effect as restoring once. |
| `FileSystem.BackupRestoreRoundTrip` | bin/dotenv-merge.js:82-92 | Back up, then change or remove `.env` in any way, then restore. `.env` has its original content again and no backup is left; nothing else changed. |
| `FileSystem.BackupWriteRestore` | bin/dotenv-merge.js:102-116 | Backing up, overwriting `.env` with any content, and restoring leaves the directory as it was, minus any old backup. |
| `FileSystem.Disk.Exists` | bin/dotenv-merge.js:87 | Definition of `existsSync`: true exactly when the path is in the directory. |
| `FileSystem.Disk.CopyFile` | bin/dotenv-merge.js:83 | Copying replaces the target's content by the source's. When the source is missing it fails and nothing changes. |
| `FileSystem.Disk.Unlink` | bin/dotenv-merge.js:90 | Removing a path deletes exactly that entry. |
| `FileSystem.Disk.WriteFile` | bin/dotenv-merge.js:105 | Opening a write stream on a path and ending it leaves exactly the written content there. |
| `FileSystem.Disk.BackupDotenv` | bin/dotenv-merge.js:82-84 | The backup path receives `.env`'s content. The step fails and nothing changes when there is no `.env`. |
| `FileSystem.Disk.RestoreDotenv` | bin/dotenv-merge.js:86-92 | The new directory is `Restored` of the old one. |
| `DotenvMerge.LinesOf` | bin/dotenv-merge.js:65 | Definition: the line reader sees exactly the files of the directory, each cut into lines by the given reader. |
| `DotenvMerge.BackupNotInCascade` | bin/dotenv-merge.js:102-104 | The backup file is never a candidate of the cascade, so making it does not change the merge. |
| `DotenvMerge.Run` | bin/dotenv-merge.js:94-122 | Without `.env` the run stops at the backup and changes nothing. Otherwise the writes are one per merged key, and while the `-x` command runs (`during`) the directory is the original one plus the backup, with `.env` holding exactly the text of those writes. Afterwards the directory is as before, minus any stale backup. |

## Left out

- Spawning the child process (`childProcess.spawnSync`, line 113) is a foreign process call.
  `Run` returns the command it would spawn and the directory it would see. The model treats the child as changing no files.
  `BackupRestoreRoundTrip` covers a child that rewrites or removes `.env`.
- The `SIGINT` handler and `process.exit` (lines 96-100) are signal handling.
  What the handler does is `restoreDotenv`, whose effect and idempotence are proved.
  Other signals are not handled by the script either.
  A run killed by one leaves the backup behind, and the next run's `backupDotenv` overwrites it with the merged `.env`.
- Streams, `readline` and the event-callback order are I/O.
  File contents reach the overlay already cut into lines, by a reader passed in as a parameter.
  The model assumes that every `'line'` event of a file arrives before its `'close'` event.
  It also assumes that each file hands over to the next exactly once.
  The script calls `nextIteration` from both the `'error'` and the `'close'` handler (lines 53-63).
  Node versions whose read streams emit `'close'` after a failed open would hand over twice for a missing file.
  The rest of the cascade, the merge and the command would then run twice; the model has one pass.
- Read errors other than `ENOENT` (line 57) are operating-system errors and are not modelled.
  Failures of `copyFileSync` and `unlinkSync` other than a missing source are not modelled either.
  A missing `.env` at backup time is modelled: the run stops and nothing changes.
- `os.EOL` is a platform constant. It is a parameter and takes no fixed value.
- `Overlay.FirstAppearanceOrder`: this follows plain insertion order. The JavaScript engine differs in two places, both engine rules rather than script logic.
  `Object.values` lists integer-like keys such as `"0"` or `"12"` first, in ascending numeric order.
  An assignment to the key `"__proto__"` does not create an own property.
- `process.argv` access is left out: the user arguments are a parameter.
- `LoadKeyValuesHelper` requires a non-empty list of names.
  The script would throw on an empty list, but it never passes one: the cascade always has two or four names.
