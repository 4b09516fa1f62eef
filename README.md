# TaskAutomator bulk actions in Dafny

This project models the core of TaskAutomator, `TaskAutomator/BulkActions.cs`, and proves what it does. The core has three parts.

- **The path guard.** `IsPathWithinRootDirectory` makes both paths absolute with `Path.GetFullPath`. It then checks, ignoring case, that the candidate string starts with the root string. `IsFilePathValid` answers `true` or throws `UnauthorizedAccessException`. `PerformFileOperation` runs its action only when the guard admits the path.
- **Scatter**, `Media.MoveFilesIntoTargetDirectory`. Every file directly inside an immediate subfolder of the source directory is tested. A file passes when the extension filter is blank or contains the file's extension (ignoring case), and its length reaches `maxFileSize * 1024 * 1024`. Each file that passes moves to `<target>/<folder>_<file>`.
- **Gather**, `Media.MoveFilesBackToOriginalDirectory`. It looks at every file directly inside the source directory whose first underscore is not its first character. The name is split at that first underscore, and the file moves to `<original>/<folder>/<file>` if that folder exists.

## Files and modules

| File | Module | What it holds |
|---|---|---|
| `results.dfy` | `Results` | `Result` and `Option`; the .NET exceptions the core can raise become `Exception` values |
| `text.dfy` | `Text` | Ordinal ignore-case comparison (ASCII case folding), `IndexOf`, `LastIndexOf`, `IsNullOrWhiteSpace` |
| `paths.dfy` | `Paths` | Unix-style `Path.GetFullPath` and `Path.Combine` over strings; resolved locations are sequences of names |
| `guard.dfy` | `Guard` | The guard, and lemmas on what its string-prefix test means for locations |
| `naming.dfy` | `Naming` | The `<folder>_<file>` name, `FileInfo.Extension`, the 32-bit size threshold, the selection test |
| `filesystem.dfy` | `FileSystems` | A file system as directories plus a map from files to bytes; the `FileSystem` class performs `Directory.CreateDirectory` and `File.Move` in place |
| `bulk.dfy` | `BulkActions` | `PerformFileOperation`, and `Relocated`: what a batch of moves does to the files |
| `media.dfy` | `Media` | Scatter and gather as methods with loops, and the scatter-then-gather round trip |

Several things are made explicit:

- The application root (`AppDomain.CurrentDomain.BaseDirectory`) and the current directory are a parameter, `Guard.Env`.
- A thrown exception is a returned `Err`. The exception types are `UnauthorizedAccess`, `Argument`, `IO`, `FileNotFound` and `DirectoryNotFound`.
- Directory enumeration is a set. The loops pick each next entry arbitrarily, so every proved property holds for any order.

The loops follow the code. Scatter lists the subfolders once, then lists each folder's files when it reaches that folder. Gather lists the source's files once.

### Behaviour worth knowing

- The size test is the single comparison `length >= maxFileSize * 1024 * 1024`, in unchecked 32-bit arithmetic, with `maxFileSize` in megabytes. From 2048 MB upwards the product wraps; from 2048 to 4095 MB the threshold is negative and every length passes.
- The extension filter is one raw string, and a file passes when that string contains its extension, ignoring case. A file without an extension passes any filter.
- Gather skips a file whose original folder is missing. It never creates that folder.
- A name whose first underscore is its first character is not decoded, so gather leaves that file alone.
- The guard compares the two full paths as strings, character by character up to case, so, when the root is written without a trailing separator, a sibling whose name extends the root's last name is admitted (`IsPathWithinRootDirectory` is public). The application base directory that the program's own calls pass as the root ends with a separator, and then every admitted path resolves to the root or beneath it (`Guard.GuardConfines`), so those calls refuse siblings.
- `IsFilePathValid` returns `true` or throws.
- Moves never overwrite: `File.Move` with two arguments fails when the destination exists.
- Scatter checks the target directory only when the source exists.
- Gather checks both directory arguments before testing whether the source exists.
- Both actions return nothing; they report progress only on the console.

## Model

| member | source | states |
|---|---|---|
| Text.IndexOf | TaskAutomator/BulkActions.cs:79 | The result is -1 exactly when the character is absent; otherwise it is a position holding the character, with no earlier occurrence |
| Text.LastIndexOf | TaskAutomator/BulkActions.cs:44 | The result is -1 exactly when the character is absent; otherwise it is a position holding the character, with no later occurrence |
| Text.ContainsIgnoreCaseAt | TaskAutomator/BulkActions.cs:44 | `Text.ContainsIgnoreCase` (`Contains(..., OrdinalIgnoreCase)`) holds exactly when, at some position, the text starts with the needle ignoring case (`Text.StartsWithIgnoreCase`) |
| Text.ContainsEmpty | TaskAutomator/BulkActions.cs:44 | Every filter text contains the empty extension |
| Paths.GetFullPath | TaskAutomator/BulkActions.cs:108-109 | `GetFullPath` fails (ArgumentException) exactly for an empty path or one holding NUL |
| Paths.SplitJoin | TaskAutomator/BulkActions.cs:108-109 | For names without separators (every resolved location, also once folded to lower case), splitting the rendered path at its separators gives back the names after the leading empty piece |
| Paths.ResolveCombine | TaskAutomator/BulkActions.cs:47 | `Paths.Combine` is `Path.Combine`; `Combine(dir, name)` is a valid path without a trailing separator that resolves to one step from `dir` |
| Guard.IsPathWithinRootDirectory | TaskAutomator/BulkActions.cs:105-113 | Fails with ArgumentException exactly when either path is empty or holds NUL; otherwise answers whether the candidate's full path starts with the root's, ignoring case (`Text.StartsWithIgnoreCase`, the `StartsWith(..., OrdinalIgnoreCase)` of line 112) |
| Guard.IsFilePathValid | TaskAutomator/BulkActions.cs:115-124 | Never answers false; answers true exactly when the guard admits the path; throws UnauthorizedAccessException when the path is outside the root, and ArgumentException for an invalid path |
| Guard.GuardConfines | TaskAutomator/BulkActions.cs:105-113 | When the root is written with a trailing separator, every admitted path resolves to the root or beneath it, ignoring case, so a `..` that climbs out is refused |
| Guard.GuardAdmitsBeneath | TaskAutomator/BulkActions.cs:105-113 | Every location beneath the root is admitted, and so is the root itself unless only the root is written with a trailing separator |
| Guard.GuardRefusesRootWithoutSeparator | TaskAutomator/BulkActions.cs:112 | A root written with a trailing separator refuses itself when spelled without one |
| Guard.GuardAdmitsSiblingWithSamePrefix | TaskAutomator/BulkActions.cs:112 | A root written without a trailing separator admits a sibling whose name extends the root's last name, which is not beneath the root |
| Guard.GuardAdmitsCombinedName | TaskAutomator/BulkActions.cs:47-50 | Combining an entry name onto an admitted directory gives a path that is admitted and resolves to that directory plus the name |
| BulkActions.ActionEffect | TaskAutomator/BulkActions.cs:126-138 | The actions resolve their path string first; an invalid one throws ArgumentException, and ArgumentException comes only from an invalid one; a failed action changes nothing; a well-formed tree stays well formed |
| BulkActions.Invoke | TaskAutomator/BulkActions.cs:132 | Running an action changes the file system exactly as its effect says |
| BulkActions.PerformFileOperation | TaskAutomator/BulkActions.cs:126-138 | When the guard refuses the path, the guard's exception is returned and nothing changes; otherwise the action runs |
| BulkActions.RelocatedStep | TaskAutomator/BulkActions.cs:50 | One more successful move of a file not moved before extends a relocation by that move |
| BulkActions.DestinationStillFree | TaskAutomator/BulkActions.cs:50 | Partway through a collision-free batch, a file not yet moved is still in place and its destination is still neither a file nor a directory |
| BulkActions.RelocationWasCollisionFree | TaskAutomator/BulkActions.cs:50 | A batch that has been carried out, whose destinations are not among its sources, had distinct destinations that were free to begin with |
| Naming.DecodeName | TaskAutomator/BulkActions.cs:79-83 | No result exactly when the name has no underscore or starts with one; otherwise a non-empty, underscore-free folder part and a file part that re-encode to the name |
| Naming.DecodeEncode | TaskAutomator/BulkActions.cs:79-83 | Decoding undoes `Naming.EncodeName` (the `$"{folderName}_{fileInfo.Name}"` of line 46) exactly when the folder name is non-empty and has no underscore; the file name may hold underscores |
| Naming.EncodeIsAmbiguous | TaskAutomator/BulkActions.cs:79-83 | `a_b`+`c` and `a`+`b_c` encode alike, and the name decodes to the second |
| Naming.Extension | TaskAutomator/BulkActions.cs:44 | `FileInfo.Extension` is empty exactly when the name has no dot; otherwise it is the name's tail from its last dot |
| Naming.Wrap32 | TaskAutomator/BulkActions.cs:44 | The value is a 32-bit int congruent to the unbounded result modulo 2^32 |
| Naming.ThresholdInRange | TaskAutomator/BulkActions.cs:44 | `Naming.Threshold` is `maxFileSize * 1024 * 1024` wrapped to 32 bits; below 2048 MB it is `maxFileSize * 1048576` bytes |
| Naming.ThresholdWraps | TaskAutomator/BulkActions.cs:44 | From 2048 to 4095 MB the threshold wraps to `(maxFileSize - 4096) * 1048576`, which is negative |
| Naming.SelectsIff | TaskAutomator/BulkActions.cs:44 | `Naming.Selects` is the line-44 test, with `Text.IsNullOrWhiteSpace` and `Text.ContainsIgnoreCase`; below 2048 MB a file is selected exactly when the filter is blank (empty or white space only) or contains its extension ignoring case, and its length is at least the threshold (a file exactly at the threshold is selected) |
| Naming.NoExtensionPassesAnyFilter | TaskAutomator/BulkActions.cs:44 | A file without a dot is selected exactly when it passes the size test, whatever the filter |
| Naming.LargeSizeSelectsEveryLength | TaskAutomator/BulkActions.cs:44 | From 2048 to 4095 MB the size test passes for every length |
| Naming.UpperCaseFilterSelectsLowerCaseExtension | TaskAutomator/BulkActions.cs:44 | The filter `.JPG` selects `photo.jpg` at 1 MB and not one byte under |
| FileSystems.CreateDirectoryEffect | TaskAutomator/BulkActions.cs:30 | `Directory.CreateDirectory` succeeds exactly when no prefix of the path is a file; then the directories gain exactly the path and those above it, and files are unchanged; otherwise it throws IOException and nothing changes |
| FileSystems.MoveEffect | TaskAutomator/BulkActions.cs:50 | `File.Move` succeeds exactly when the source file exists, the destination is neither a file nor a directory, and its folder exists; the bytes then leave the source for the destination and nothing else changes |
| FileSystems.FileSystem.Subdirectories | TaskAutomator/BulkActions.cs:34 | `Directory.GetDirectories` lists exactly the existing immediate subdirectories (`FileSystem.DirectoryExists`, the `Directory.Exists` of lines 21, 28, 66 and 88, is membership in the same set of directories) |
| FileSystems.FileSystem.FilesIn | TaskAutomator/BulkActions.cs:39 | `Directory.GetFiles` lists exactly the files directly inside the directory |
| FileSystems.FileSystem.CreateDirectory | TaskAutomator/BulkActions.cs:30 | Performs `Directory.CreateDirectory` in place, as its effect function says, keeping the tree well formed |
| FileSystems.FileSystem.Move | TaskAutomator/BulkActions.cs:95 | Performs `File.Move` in place, as its effect function says, keeping the tree well formed |
| Media.ScatterDestination | TaskAutomator/BulkActions.cs:46-47 | A scattered file lands directly inside the target directory |
| Media.MoveIntoTarget | TaskAutomator/BulkActions.cs:46-50 | Moving a file to `<target>/<folder>_<file>` succeeds exactly when the file is there and the new name is free; a failure changes nothing and, with the file present, is IOException |
| Media.ScatterMovesLeaveSubfolders | TaskAutomator/BulkActions.cs:34-47 | Unless the target is an immediate subfolder of the source, no destination of scatter is one of the files it moves |
| Media.CreatedTargetKeepsCollisionFree | TaskAutomator/BulkActions.cs:28-31 | Creating the target and the directories above it takes none of scatter's destinations |
| Media.MoveFolderFiles | TaskAutomator/BulkActions.cs:39-53 | When the target is not an immediate subfolder of the source: after one subfolder, exactly its selected files have moved to their destinations, on top of the earlier moves, and the only failure is IOException; when the whole batch is collision-free, the subfolder cannot fail. A listed file that is gone fails with FileNotFoundException only after it passes the extension test, as `FileInfo.Length` is read only then |
| Media.ScatterFolders | TaskAutomator/BulkActions.cs:33-54 | Once the target exists and is not an immediate subfolder of the source: the loops succeed exactly when scatter's destinations are distinct and none is taken, and then every selected file has moved to its destination with its bytes; a failure is IOException after a part of those moves |
| Media.ScatterCanSucceedOnceCreated | TaskAutomator/BulkActions.cs:28-31 | Scatter's moves are collision-free after the target is created exactly when they were before |
| Media.MoveFilesIntoTargetDirectory | TaskAutomator/BulkActions.cs:19-57 | A source outside the root throws and a missing source returns, both with no change; a target outside the root throws with no change; otherwise the directories gain the target and those above it exactly when the target was missing and no location above it is a file, and, unless the target is an immediate subfolder of the source, scatter succeeds exactly when the target exists or can be created and the destinations are distinct and free, in which case every selected file has moved to `<target>/<folder>_<file>` with its bytes while every other file stays; a failure is IOException after a part of those moves |
| Media.MoveBack | TaskAutomator/BulkActions.cs:84-96 | Moving a file to `<folder>/<file>` succeeds exactly when the guard admits that path, the file is there and the destination is free; a failure changes nothing and is the guard's exception or IOException |
| Media.GatherFile | TaskAutomator/BulkActions.cs:75-97 | An undecodable name is skipped; an original folder path outside the root throws UnauthorizedAccessException; a missing original folder skips the file; otherwise the file moves to its original path or the call fails with no change; it goes through whenever the guard admits the paths it checks and the destination is free |
| Media.GatherFileCanSucceed | TaskAutomator/BulkActions.cs:84-95 | When gather is sure to go through, the next listed file passes the guard and, if it is to move, its destination is still free, so its turn of the loop goes through |
| Media.GatherNext | TaskAutomator/BulkActions.cs:74-97 | One turn of gather's loop keeps the loop invariant (relocated by a part of gather's moves, every path the guard checked admitted) one file further on; a failure is UnauthorizedAccessException or IOException and changes nothing; when gather is sure to go through, the turn does |
| Media.GatherListed | TaskAutomator/BulkActions.cs:73-98 | After the loop every listed file with an encoded name and an existing original folder has moved to its original path and every other file stays; every path the guard checked was admitted; a failure is UnauthorizedAccessException or IOException after a part of those moves; the loop succeeds whenever the guard admits every path it will check and the destinations are distinct and free |
| Media.MoveFilesBackToOriginalDirectory | TaskAutomator/BulkActions.cs:64-101 | Either directory outside the root throws with no change; a missing source returns with no change; otherwise the files are relocated as gather's moves say, no directory is ever created, and gather succeeds whenever the guard admits every path it will check and the destinations are distinct and free |
| Media.GatherUndoesScatterPath | TaskAutomator/BulkActions.cs:79-85 | For a folder name without an underscore, `Media.OriginalFolderPath` of a scattered file (the `Path.Combine(originalDirectory, originalFolderName)` of line 84) resolves to its folder and `Media.OriginalFilePath` (line 85) to the file itself |
| Media.ScatteredFileGatherable | TaskAutomator/BulkActions.cs:79-88 | The guard, admitting the original directory, admits the original folder path and the original file path of every file scatter moved out of a subfolder whose name holds no underscore |
| Media.RelocatedUndone | TaskAutomator/BulkActions.cs:95 | A relocation followed by one that sends every moved file back restores the files exactly |
| Media.GatherReversesScatter | TaskAutomator/BulkActions.cs:79-95 | After scatter into a target that held no files, with no scattered folder name holding an underscore, gather's moves are exactly scatter's moves reversed |
| Media.ScatterSourcesFree | TaskAutomator/BulkActions.cs:28-50 | After a successful scatter, unless the target is an immediate subfolder of the source, every file it moved has left its place, and that place is not a directory |
| Media.ScatterLeavesGatherFree | TaskAutomator/BulkActions.cs:19-101 | After a successful scatter into a target that held no files, with no underscore in a scattered folder name, gathering back into the source is sure to go through |
| Media.ScatterGatherRoundTrip | TaskAutomator/BulkActions.cs:19-101 | Scatter's moves followed by gather's moves, with the directories swapped, restore the whole file map exactly, provided the target held no files and no scattered folder name holds an underscore |
| Media.ScatteredFileRestored | TaskAutomator/BulkActions.cs:19-101 | File by file, with no assumption on the target or on other folders: scatter's moves followed by gather's moves put each file from a subfolder whose name holds no underscore back at its original path with its bytes |
| Media.SelectionNeedsSource | TaskAutomator/BulkActions.cs:21-34 | Scatter selects files only when its source directory exists |
| Media.ScatterThenGather | TaskAutomator/BulkActions.cs:19-101 | Running scatter and then gather with the directories swapped: whenever scatter succeeds, with the target admitted, file-free and not an immediate subfolder of the source, and no scattered folder name holding an underscore, gather succeeds too and every file is back at its original path with its bytes; and whenever both succeed and the target is not an immediate subfolder of the source, each file scatter moved out of a subfolder whose name holds no underscore is back at its original path with its bytes |

## Left out

- The `Console.WriteLine` progress messages (lines 23, 51, 56, 68, 90, 96, 100) are not modelled.
- `TaskAutomator/Program.cs` is not part of this model. It is the interactive console loop that reads the arguments.
- Windows drive letters, UNC paths, symbolic links and a case-insensitive file system are left out. Paths are Unix-style with `/` as separator. The file system is case-sensitive, while the guard folds case.
- `StringComparison.OrdinalIgnoreCase` is modelled as ASCII case folding. Unicode case mappings beyond ASCII are left out.
- `char.IsWhiteSpace` is restricted to the Latin-1 white-space characters.
- The order in which `Directory.GetDirectories` and `Directory.GetFiles` list entries is left out. It is unspecified, and the proved properties hold for every order.
- `FileInfo.Length` is the length of the stored bytes. Real file I/O, the atomicity of `File.Move` and failures of the storage itself (disk full, permissions, files locked by other processes) are left out.
- File contents are kept only so that the proofs can state that a move keeps a file's bytes.
- `Media.MoveFilesIntoTargetDirectory`: relocation is promised only when the target is not itself an immediate subfolder of the source. In that case files already moved into the target can be listed again when the loop reaches the target folder, and the outcome depends on enumeration order. The promises about the guard, a missing source and the target directory hold in every case.
- `Media.MoveFilesIntoTargetDirectory` and `Media.MoveFilesBackToOriginalDirectory`: after a failure the contracts say that some part of the batch has moved, not which part. Which part depends on enumeration order.
- `Media.ScatterGatherRoundTrip` and `Media.ScatterThenGather`: the whole file map is promised back only when the target held no files directly before the scatter and no scattered folder name holds an underscore. Otherwise gather would also move the target's own files, and a name such as `a_b_c` decodes to the folder `a`. File by file, `Media.ScatteredFileRestored` and the second promise of `Media.ScatterThenGather` need neither assumption. `Media.ScatterThenGather` promises that gather succeeds only under both assumptions, because otherwise the moves of other files can collide.
- `Media.MoveFilesBackToOriginalDirectory` and `Media.GatherListed` state a condition under which gather succeeds, not one that is also necessary. A destination that is a listed file gather moves away earlier in the loop is free by the time it is used, so gather can succeed where the condition fails, depending on enumeration order.
