# local-photo-reel: a Dafny model of the gallery, change watcher and rename logic

local-photo-reel is a browser page (one script, `app.js`). It shows the images
of a folder the user picked. A background worker polls the folder and tells the
page when files appear or disappear. The page can also rename a file, which it
does by copying the bytes to a new name and then deleting the old entry. This
project models three pieces of that script and proves properties about them:

- **The gallery listing** (`renderGallery`). It keeps the directory entries of
  kind "file" whose name ends in a dot and one of `jpg`, `jpeg`, `png`, `webp`,
  `gif` (ASCII case ignored), then sorts them by name. Module `Entries`
  (`entries.dfy`) holds the entries and the name patterns; module `Gallery`
  (`gallery.dfy`) holds the filter-then-sort.
- **The change watcher** (the worker script). It keeps a set of known names and
  one interval timer. Each tick compares the scanned name set with the known
  one, posts `changes-detected` or `permission-error`, and updates its state.
  Module `Watcher` (`watcher.dfy`) models it as class `ChangeWatcher` with
  `Start`, `Stop` and `Tick`. Module `Polling` (`polling.dfy`) models the page's
  side: the new worker and the baseline sent to it with `start`.
- **Rename** (`openRenameModal`, `saveRename`). Module `Rename` (`rename.dfy`)
  holds the name split, `trim`, the no-op rule and the new-name rule. Class
  `AppState` holds the folder (a map from names to bytes) and the rename
  context. The copy-then-delete steps take a parameter that names the step that
  throws, so every partial-failure outcome can be stated.

Timers, the worker's message port and the asynchronous directory iteration are
replaced by explicit calls. `Tick(scan)` is one firing of the interval. Its
argument is what the directory iteration yielded: the entries, or a failure.
Posted messages are appended to the `outbox` sequence. `setInterval` and
`clearInterval` are modelled by a counter of handed-out ids and the set
`activeTimers` of intervals still scheduled.

Points where the model follows the code rather than the design description:

- The worker never resets `intervalId` after a `permission-error`; it only
  clears the timer. The model keeps the stale id, and `Start` and `Stop` still
  behave correctly because clearing a cleared timer does nothing.
- A `removeEntry` failure is reported by the same generic error toast as every
  other step's failure. The model's `Failed(step)` outcome records which step
  threw, but the page's message does not tell them apart.
- `saveRename` never clears `renameContext`; it stays set after a commit.
- `getFileHandle(newName, {create: true})` creates an empty file before anything
  is written. So a failure in the write step leaves an empty file under the new
  name when that name was free. The old file is still untouched.
- `renderGallery` does not catch a failed directory iteration, so the promise
  rejects. `ListImages` returns `None` for that case.
- The baseline at app.js:390 uses a different pattern from the gallery and the
  worker (see Findings).

## Model

| member | source | states |
|---|---|---|
| `Entries.FoldMatchesPatternCharacter` | app.js:202 | under the `i` flag without `u`, a character matches a lower-case letter of the pattern exactly when it is that letter or its ASCII upper-case form, and matches the dot only when it is a dot |
| `Entries.ImageNameIgnoresCase` | app.js:202 | the image pattern ignores ASCII case: a name matches exactly when its lower-cased form matches |
| `Entries.KeptMembers` | app.js:199-206 | the listing filter keeps exactly the entries of kind "file" whose name matches the pattern |
| `Entries.KeptSnoc` | app.js:199-206 | filtering a listing one entry longer appends that entry exactly when it passes the filter |
| `Entries.BaselinePatternNeedsBackslash` | app.js:388-391 | the regular-expression literal of the baseline can only match a name that contains a backslash |
| `Entries.PlainNameMissesBaseline` | app.js:385-394 | `a.JPG` is an image name for the gallery and the worker but not for the baseline |
| `Gallery.Insert` | app.js:208 | inserting into a name-sorted list gives a name-sorted list with the same entries and one more |
| `Gallery.SortByName` | app.js:208 | the sort returns a permutation of its input, sorted ascending by the comparator |
| `Gallery.CodePointTotal` | app.js:208 | of two names, one comes before the other in code-point order |
| `Gallery.CodePointTransitive` | app.js:208 | code-point order is transitive |
| `Gallery.CodePointOrderIsTotalPreorder` | app.js:208 | code-point order is a valid sort comparator, so the sort's precondition can be met |
| `Gallery.ListImages` | app.js:194-208 | the gallery holds exactly the image files of the listing, as a permutation of them, sorted by name; a failed listing yields no gallery |
| `Watcher.SubsetOfSameSize` | app.js:336-345 | a finite set inside another of the same size is equal to it |
| `Watcher.ChangedIffDiffers` | app.js:336-345 | "sizes differ, or a known name is missing" holds exactly when the scanned set differs from the known set |
| `Watcher.ScanNames` | app.js:330-334 | the scan collects exactly the names of the image files of the listing |
| `Watcher.Diff` | app.js:336-345 | `hasChanges` is the size-plus-missing-name test, and is true exactly when the two sets differ |
| `Watcher.TickOnListing` | app.js:336-350 | a successful tick posts one `changes-detected` exactly when the scanned set differs from the known set, posts nothing otherwise, and always leaves the known set equal to the scanned set |
| `Watcher.SecondTickIsQuiet` | app.js:347-350 | a second tick on the same listing posts nothing and changes nothing |
| `Watcher.ChangeWatcher.constructor` | app.js:320-322 | a new worker knows no names, has no interval and has posted nothing |
| `Watcher.ChangeWatcher.ClearInterval` | app.js:365 | `clearInterval` cancels exactly the interval with that id and leaves the others scheduled |
| `Watcher.ChangeWatcher.SetInterval` | app.js:363 | `setInterval` returns the next id of an increasing counter and adds exactly that interval to the scheduled ones |
| `Watcher.ChangeWatcher.Start` | app.js:359-363 | `start` sets the known names to the set of `initialFiles` and leaves exactly one fresh interval active, whatever was active before |
| `Watcher.ChangeWatcher.Stop` | app.js:364-367 | `stop` leaves no interval active and none recorded, and changes nothing else, so a second `stop` changes nothing |
| `Watcher.ChangeWatcher.Tick` | app.js:324-356 | a failed scan posts one `permission-error`, cancels the interval and keeps the known names; a successful one sets the known names to the scanned set and posts `changes-detected` exactly when they differed |
| `Watcher.StartThenTwoTicks` | app.js:324-363 | starting with `a.jpg`, `b.png`, then ticking twice on a folder that also holds `c.gif`, posts one `changes-detected` and ends with the three names |
| `Watcher.ExampleListing` | app.js:330-350 | the three-file listing scans to its three names, and a tick from the two-name set posts `changes-detected` |
| `Polling.CollectInitialFiles` | app.js:385-394 | the baseline is the names of the file entries that match the baseline's own pattern, in listing order |
| `Polling.StartBackgroundPolling` | app.js:314-400 | polling creates a fresh worker that has posted nothing; when the baseline listing succeeds, its known names are the baseline and one interval is active; when it fails, `start` is never sent and the worker stays idle, with no interval and no known names |
| `Polling.NameSetOfKept` | app.js:385-394 | a name is in the baseline exactly when some file entry with that name matches the pattern |
| `Polling.BaselineFirstTickFires` | app.js:385-399 | when no name contains a backslash, the baseline is empty, so the first tick on an unchanged folder with an image fires `changes-detected` |
| `Polling.IntendedBaselineFirstTickQuiet` | app.js:385-399 | with the gallery's pattern, the baseline equals the scanned set and the first tick on an unchanged folder posts nothing |
| `Rename.AllWhitespaceConcat` | app.js:277 | two all-whitespace strings concatenate to an all-whitespace string |
| `Rename.TrimStart` | app.js:277 | the leading whitespace is removed and the rest of the string starts with a non-whitespace character |
| `Rename.TrimEnd` | app.js:277 | the trailing whitespace is removed and the rest of the string ends with a non-whitespace character |
| `Rename.TrimParts` | app.js:277 | the cut prefix, the kept middle and the cut suffix rebuild the input; the middle is empty exactly when the input is all whitespace |
| `Rename.Trim` | app.js:277 | `trim` leaves the middle of the input, with only whitespace cut off at both ends; it starts and ends with non-whitespace, and is empty exactly when the input is all whitespace |
| `Rename.TrimStartDropsLeading` | app.js:277 | a whitespace prefix in front of a string that starts with non-whitespace is exactly what the start of `trim` removes |
| `Rename.TrimEndDropsTrailing` | app.js:277 | a whitespace suffix behind a string that ends with non-whitespace is exactly what the end of `trim` removes |
| `Rename.TrimOfPadded` | app.js:277 | the converse of `Trim`: a string that neither starts nor ends with whitespace, padded with whitespace on both sides, trims back to itself |
| `Rename.SplitOn` | app.js:254 | `split` gives at least one part and no part holding the separator; there is more than one part exactly when the separator occurs; joining the parts gives back the input |
| `Rename.JoinSnoc` | app.js:257 | joining parts with one part appended adds the separator and that part |
| `Rename.SplitName` | app.js:254-261 | with a dot in the name, `base + "." + ext` is the name and `ext` has no dot; without a dot, the base is the whole name and the extension is empty |
| `Rename.AppendCancels` | app.js:283-285 | two names that end with the same suffix are equal if they are equal once the suffix is added |
| `Rename.NewNameDiffersUnlessTrailingDot` | app.js:283-285 | a typed base other than the old base gives the old name back exactly when the old name ends in a dot and the typed base is the whole old name |
| `Rename.RenameTargetOfOpenedFile` | app.js:277-285 | nothing is renamed exactly when the input is all whitespace or trims to the old base; otherwise the target is the old name only in that trailing-dot case |
| `Rename.ImageNameHasExtension` | app.js:199-214 | every name the gallery lists does not end in a dot, and its split has a non-empty extension |
| `Rename.ShownFileNeverTargetsItself` | app.js:214-262 | for any file whose rename modal the page can open (a gallery thumbnail's), whatever is typed, the target is never the old name |
| `Rename.RenameSucceeds` | app.js:289-302 | a copy to another name succeeds exactly when no step fails and the old file exists; then the target holds the old bytes, the old name is gone, and no other entry changed |
| `Rename.FailureBeforeRemoveKeepsOriginal` | app.js:289-299 | a failure at read, create or write leaves the old entry untouched and every other name unchanged; the target is unchanged or a new empty file |
| `Rename.FailureAtRemoveDuplicates` | app.js:301-302 | a failure at `removeEntry` leaves both names holding the old bytes |
| `Rename.TrailingDotSplit` | app.js:254-261 | a name ending in a dot splits into an empty extension and a shorter base |
| `Rename.CopyOntoItself` | app.js:289-302 | copying a file onto its own name, then removing that name, deletes it and reports success |
| `Rename.TrailingDotRenameDeletesFile` | app.js:276-302 | as written, `saveRename` on a context holding a file whose name ends in a dot, such as `photo.`, with that same name typed in (possibly padded with whitespace) reports success and leaves the folder without the file; the page never opens such a context (see `ShownFileNeverTargetsItself`) |
| `Rename.CopyToOtherNameKeepsBytes` | app.js:289-302 | copying to another name never loses the bytes: they are under the new name after success, and under the old name otherwise |
| `Rename.GuardedRenameKeepsBytes` | app.js:276-302 | with a guard against a target equal to the old name, the old file's bytes survive every outcome |
| `Rename.AppState.constructor` | app.js:17-23 | the page once a folder has been chosen (the page itself starts with no folder handle), with the empty rename context it starts with |
| `Rename.AppState.OpenRenameModal` | app.js:253-262 | the rename context records the file and the split of its name, and base, dot and extension rebuild the name |
| `Rename.AppState.CopyThenDeleteSteps` | app.js:288-302 | the four steps change the folder as the copy-then-delete model says, stopping at the step that throws |
| `Rename.AppState.SaveRename` | app.js:276-311 | `saveRename` changes the folder as the model of the no-op rule plus copy-then-delete says, and leaves the rename context as it was |
| `Rename.AppState.SaveRenameGuarded` | app.js:276-311 | the corrected `saveRename` also treats a target equal to the old name as a no-op |

## Findings

| source | as written | input that shows it | evidently intended | confidence | as-written member | corrected member |
|---|---|---|---|---|---|---|
| app.js:390 | the baseline uses the regular-expression literal `/\\.(jpg\|jpeg\|png\|webp\|gif)$/i`, which needs a backslash and one more character before the extension | a folder holding `a.jpg`: the baseline is empty, so the first tick fires `changes-detected` on an unchanged folder | the pattern of app.js:202 and of the worker (app.js:331), where the template literal turns `\\.` into `\.` | high; not executed | `Polling.BaselineFirstTickFires` | `Polling.IntendedBaselineFirstTickQuiet` |
| app.js:283-302 | `saveRename` does not check whether `newName` equals the old name before copying, then removes the old name | a rename context holding `photo.` with the input `photo.`: the base is `photo`, the extension is empty, and `newName` is `photo.`, so the file is copied onto itself and then removed. The defect is latent: the modal opens only for gallery names, which always carry an image extension, so the page itself never reaches this input. The exact-equality guard also does not cover a case-only rename such as `Photo.jpg` to `photo.jpg` on a case-insensitive file system, which this model does not capture | a target equal to the old name is no rename, and the file is kept | medium (latent in the page); not executed | `Rename.TrailingDotRenameDeletesFile` | `Rename.GuardedRenameKeepsBytes` |

## Left out

- The page and its visuals: toasts, the welcome screen, `startApp`, thumbnails and object URLs, and showing and hiding the modal. The "No images found" message depends on DOM style state.
- The page's handling of worker messages: re-rendering on `changes-detected`; on `permission-error`, dropping the folder and showing the welcome screen. These are UI responses.
- IndexedDB persistence (`openDb`, `saveDirectoryHandle`, `getDirectoryHandle`). These are callback wrappers over a browser store.
- `verifyPermission`, `init` and `selectExistingFolder`. These are thin wrappers over the platform's permission calls and directory picker.
- `createDemoAlbum` and `saveDemoImage`. They need the directory picker, HTTP `fetch` and stream piping.
- The directory handle passed with `start`. Each `Tick` is given the listing of that directory directly. The check `if (!directoryHandle) return` is not modelled, because a tick only runs after `start`, which sets the handle.
- Messages other than `start` and `stop`. The worker ignores them.
- Worker creation and termination, `postMessage` delivery, and the 3000 ms period. Overlapping scans are also left out: `setInterval` does not wait for an asynchronous scan to finish, and a scan started before `stop` can still post after it.
- `localeCompare` collation. The comparator is a parameter that must be a total preorder. Code-point order is given as one valid instance.
- Gallery.SortByName: the sort is proved sorted and a permutation. Stability is not stated, although `Array.prototype.sort` is stable.
- Why a step of the rename throws: a bad name, a directory already under the target name, a quota or a revoked permission. These are folded into the `failing` parameter. The one exception is a missing file handle or a vanished old file, which fails the read step.
- Interleaving of the rename steps. Each `saveRename` runs its four steps (app.js:289-302) as one uninterrupted step on one snapshot of the folder. In the page every step is an `await`, and nothing stops a second `saveRename` while one is pending: Enter (app.js:421-423) and the Save button (app.js:418) both call it, and the modal stays open until success. Concurrent `saveRename` calls and outside changes to the folder between the awaits are not captured. For example, after two Enter presses one call's `removeEntry` can succeed while the other's throws, with the old name already gone. The failure lemmas (`FailureBeforeRemoveKeepsOriginal`, `FailureAtRemoveDuplicates`) describe one call run alone.
- A folder handle dropped by the page after a `permission-error` (app.js:380) while the modal is open. `getFileHandle` then throws at the create step, which the `failing` parameter already covers.
- Lazy `File` reads. The bytes read in the first step are a snapshot.
- UTF-16 code units. Dafny's `char` is a Unicode scalar value, so positions and lengths are counted in scalar values, not the UTF-16 code units JavaScript strings and regular expressions without `u` use. A character outside the Basic Multilingual Plane counts as one position here but two in JavaScript. So `MatchesBaselinePattern` accepts a backslash, an emoji and `jpg`, which the literal at app.js:390 rejects. Lone surrogates are not representable either.
- The folder is modelled as case-sensitive and non-normalizing: names are compared as exact strings. On a case-insensitive file system, `getFileHandle` with `create: true` (app.js:292) would open an existing file differing only in case. `removeEntry` (app.js:302) would then delete the only copy. So `GuardedRenameKeepsBytes` holds only for exact-string name comparison.
