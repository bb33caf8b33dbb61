# Modpack installer, modelled in Dafny

This project models the two installers of a CurseForge Minecraft modpack.
`install_pack.py` and `install_pack.js` each take a pack URL or a project
file and download the pack archive. They then fetch every mod the pack's
`manifest.json` lists into `minecraft/mods`, and merge the pack's
`overrides` directory into `minecraft`.

The model works on an in-memory directory tree (`Tree`): a map from paths to
files and directories, changed in place through a `Tree.Disk` object.
Network traffic is a sequence of responses (`Http.Response`), answered in the
order the requests are made. Pure code is written as functions and lemmas.
Code that changes the disk or loops is written as methods, each proved equal
to a specification function.

- `text.dfy` holds the string operations both installers share:
  - the last `/`-segment;
  - `urllib.parse.unquote` and `decodeURIComponent`;
  - the `digits-` prefix strip;
  - `indexOf`, `replace` and `re.sub`;
  - decimal rendering.
- `http.dfy` holds responses, redirect resolution, and the relation between a
  response sequence and what is left of it.
- `tree.dfy` holds the tree and the directory operations:
  - `os.makedirs`, `copytree` and `shutil.copytree`;
  - `makeDir`, `rmdir`, `patchDirs` and `renameSync`;
  - the functions each one is proved against: `Overlay`, `Pruned`, `Patched`, `Made`, `DirMade`.
- `py_install.dfy` models `install_pack.py`:
  - `name_url` and `project_by_id`;
  - the redirect chain of `hit_file`, and `curse_file`;
  - the counting loop of `modpack_step` and the copy of its overrides;
  - the pack naming of `download_modpack`, and the argument routing of `__main__`.
- `js_install.dfy` models `install_pack.js`:
  - `determineProjectByID` and `progress_bar`;
  - `hitFile` and `curseFile`;
  - the strictly ordered `downloadNext` chain of `modpackStep1`, including
    how it names, moves or updates an install;
  - the move of the overrides in `modpackStep2`;
  - the archive name check of `downloadModpackFile`.

A JavaScript exception that nothing catches is the error `Crashed`. The
callbacks of a JavaScript run are the sequence of values they are handed, in
order.

## Model

| member | source | states |
|---|---|---|
| `Text.LastSegment` | install_pack.py:18 | The result has no '/', is a suffix of the input, and is preceded by a '/' when shorter than it. |
| `Text.LastSegmentAfterSlash` | install_pack.js:102-103 | Whatever precedes it, a '/'-free tail after a '/' is the last segment. |
| `Text.Unquote` | install_pack.py:19 | Text without '%' is unchanged, and decoding never lengthens a string. |
| `Text.DecodeComponent` | install_pack.js:104 | `decodeURIComponent`: text without '%' comes back unchanged, and a decoded result is never longer than its input. `DecodeEscapeSegment` and `UnquotePercentEncode` give what each escape decodes to. |
| `Text.UnquotePlainPrefix` | install_pack.py:19 | A '%'-free prefix passes through decoding unchanged, whatever follows it. |
| `Text.UnquoteEscapeSegment` | install_pack.py:19 | Decoding undoes the segment escape, and the escaped text has no malformed escape. |
| `Text.DecodeEscapeSegment` | install_pack.js:104 | `decodeURIComponent` undoes the segment escape and never throws on its output. |
| `Text.UnquotePercentEncode` | install_pack.py:19 | Both `unquote` and `decodeURIComponent` undo the percent-encoding of any ASCII text. `decodeURIComponent` never throws on it. |
| `Text.EscapeSegment` | install_pack.js:104 | The escaped segment contains no '/'. |
| `Text.StripIdPrefix` | install_pack.py:31 | Either nothing is removed or exactly one leading `digits-` run; when there is such a run, it is the one removed. |
| `Text.StripDecimalPrefix` | install_pack.js:60 | A decimal id, a '-' and a rest strip to the rest. |
| `Text.Find` | install_pack.js:294 | `indexOf`: -1 or an index where the pattern occurs, with no occurrence before it. |
| `Text.FindOccurrence` | install_pack.py:195 | Wherever the pattern occurs, Find finds it there or earlier. |
| `Text.RemoveFirst` | install_pack.js:298 | Only the first occurrence is cut out; without one the text is unchanged. |
| `Text.RemoveAll` | install_pack.py:174 | `re.sub` with a literal pattern shortens the text by one pattern length per occurrence it finds. Without an occurrence the text is unchanged. With exactly one, the result is that of removing the first. In general the result is the `Pieces` of the text, one after the other. |
| `Text.Matches` | install_pack.py:174 | The left-to-right count of occurrences is at least one exactly when `Find` finds one. |
| `Text.Pieces` | install_pack.py:174 | The stretches between the occurrences the scan finds: joined with the pattern they give the text back, there is one more of them than there are matches, and none holds the pattern. |
| `Text.PiecesOfJoin` | install_pack.py:174 | When the pattern's first character does not come back inside it, any pattern-free pieces joined by the pattern are cut back into exactly those pieces. |
| `Text.RemoveAllJoin` | install_pack.py:174 | For such a pattern, removing every occurrence from pattern-free pieces joined by it leaves the pieces one after the other. |
| `Text.RemoveSuffixOnce` | install_pack.py:174 | With a single occurrence at the end, removing the first and removing all both give the stem. |
| `Text.DecimalRoundTrip` | install_pack.js:79 | The value of the decimal rendering of n is n. |
| `Text.IntString` | install_pack.js:79 | The rendering is digits, with a leading '-' exactly for a negative n; the digits read back as the absolute value of n, with no leading zero except in `0`. |
| `Http.SuffixTrans` | install_pack.py:67 | Responses used up in two stretches are used up from the first sequence. |
| `Tree.Overlay` | install_pack.py:42-53 | Every entry of s appears under d with the same node; every other entry keeps its node. |
| `Tree.OverlayIdempotent` | install_pack.py:42-53 | Copying the overrides a second time changes nothing, and afterwards their kinds agree with the target's. |
| `Tree.Pruned` | install_pack.js:10-19 | Exactly the entries at or below p are gone; the others keep their nodes. |
| `Tree.Patched` | install_pack.js:174-184 | After the move, d holds the overlay of s. Below s only the directories a merge passed through are left. |
| `Tree.MoveIsCopy` | install_pack.js:174-184 | Once the source is removed, moving it (`patchDirs`) and copying it (`copytree`) leave the same tree. |
| `Tree.SameKindsNoDirReplaced` | install_pack.py:47-53 | Wherever the Python copy is well defined, so is the JavaScript move. |
| `Tree.DirMade` | install_pack.js:164-172 | An existing path is left alone. A missing one is created, as a directory, exactly when its parent is a directory. Every other entry is kept, with its node. |
| `Tree.MadeEntries` | install_pack.py:35-40 | `os.makedirs` only adds directories on the way to p, and leaves p present when it succeeds. A second call does nothing. |
| `Tree.Made` | install_pack.py:35-40 | A failing `os.makedirs` leaves the tree as it was; a successful one leaves p present and keeps every entry. `MadeEntries` adds that only directories on the way to p are created and that a second call does nothing. |
| `Tree.OverlayWellFormed` | install_pack.py:42-53 | The overlay stays a well-formed tree as long as no directory is replaced by a file. |
| `Tree.Disk.CopyNewTree` | install_pack.py:51 | `shutil.copytree` onto a missing path leaves the overlay of src on dst. |
| `Tree.Disk.CopyFile` | install_pack.py:53 | `shutil.copy2` onto a non-directory path puts the source file there. |
| `Tree.Disk.Unlink` | install_pack.js:180 | Only the file is removed. |
| `Tree.Disk.Rename` | install_pack.js:247 | src and its subtree move to the missing path dst. |
| `Tree.Disk.RmDir` | install_pack.js:10-19 | The directory and everything below it are removed, child by child; a missing one is left alone. |
| `Tree.Disk.Replace` | install_pack.js:180-182 | A file in the way is unlinked, then src is renamed onto dst. |
| `Tree.Disk.PatchDirs` | install_pack.js:174-184 | The tree left is `Patched` of the tree before, and stays well formed. |
| `Tree.Disk.PatchEntry` | install_pack.js:175-183 | One entry of the patch is merged into, or moved to, its counterpart. |
| `Tree.Disk.WriteFile` | install_pack.js:135 | The data is written exactly when the parent is a directory and the path is not one. |
| `Tree.Written` | install_pack.js:135 | The data lands at p exactly when the parent is a directory and p is not one; otherwise the tree is unchanged. No other entry is added, removed or changed. |
| `Tree.Disk.MakeDir` | install_pack.js:164-172 | Creation succeeds exactly when the path exists or its parent is a directory; the tree left is `DirMade`. |
| `Tree.Disk.EnsureDir` | install_pack.py:35-40 | The call succeeds exactly when no proper prefix is a file; the tree left is `Made`. |
| `Tree.Disk.CopyTree` | install_pack.py:42-53 | Recursive `copytree` leaves the overlay of src on dst. |
| `PyInstall.NameUrlRoundTrip` | install_pack.py:17-21 | The name of a URL ending in an escaped segment is that segment's text. |
| `PyInstall.NameUrlAfterSlash` | install_pack.py:17-21 | A plain segment after the last '/' is the name. |
| `PyInstall.NameUrlWhole` | install_pack.py:17-21 | A string with neither '/' nor '%' is its own name. |
| `PyInstall.NameUrl` | install_pack.py:17-21 | A URL without '%' is named by its last segment, which holds no '/'; decoding never lengthens the segment. `NameUrlRoundTrip` gives the name of an escaped segment. |
| `PyInstall.ProjectById` | install_pack.py:23-33 | No name exactly when the response has no `location`. |
| `PyInstall.ProjectByIdSlug` | install_pack.py:29-31 | A location ending in `<id>-<escaped slug>` gives back the slug. |
| `PyInstall.Follow` | install_pack.py:65-67 | The chain starts at the URL and uses up responses. A final response has no `location`, and at least one response is used to reach it. |
| `PyInstall.LastNamedCons` | install_pack.py:59-67 | Choosing the name at the first URL and handing it on equals choosing it from the end of the chain. |
| `PyInstall.LastNamedAllDownload` | install_pack.py:62-63 | A chain whose every URL is named `download` keeps the fallback name. |
| `PyInstall.HitResult` | install_pack.py:55-94 | `hit_file` only uses up responses. |
| `PyInstall.HitOutcome` | install_pack.py:55-94 | A download ends as the last response of its redirect chain says, under the latest non-`download` name along the chain. |
| `PyInstall.HitSavedName` | install_pack.py:59-63 | A saved file is named after the latest non-`download` URL of the chain, or the fallback; the name is never empty. |
| `PyInstall.ChangesOnlyAtTrans` | install_pack.py:76 | Changes confined to target compose. |
| `PyInstall.HitFrame` | install_pack.py:76-94 | When the URL, the fallback and every redirect location name no '/', `hit_file` creates the missing directories up to target and otherwise writes at most one entry, directly inside target. |
| `PyInstall.HitKeeps` | install_pack.py:76-94 | `hit_file` only adds entries or rewrites them, never removes one, and leaves target itself as it was. |
| `PyInstall.HitRerun` | install_pack.py:78-80 | Asked again with the same responses, on a tree holding what the first call left, nothing changes and the file is skipped. |
| `PyInstall.HitRerunEnd` | install_pack.py:69-94 | The same for the last response of a chain: an existing name is skipped, whether the earlier body was whole or broken off. |
| `PyInstall.HitAfterMade` | install_pack.py:57 | Making target beforehand changes nothing about a download. |
| `PyInstall.BrokenStreamThenSkipped` | install_pack.py:82-85 | A body that broke off stays on disk, and the next run takes it for a finished download and skips it. |
| `PyInstall.HitFile` | install_pack.py:55-94 | The recursive, disk-writing `hit_file` leaves the tree, outcome and remaining responses of `HitResult`. |
| `PyInstall.CurseUrlName` | install_pack.py:97 | The CurseForge URL is named `download`, so the first name chosen is the fallback. |
| `PyInstall.CurseFile` | install_pack.py:96-97 | `curse_file` only uses up responses, and a saved file is named after the latest non-`download` URL of the chain from the CurseForge URL, or `<fileId>.jar`; never empty. |
| `PyInstall.CurseFileJarName` | install_pack.py:96-97 | When every URL of the chain is named `download`, the file is saved as `<fileId>.jar`. |
| `PyInstall.CurseFileNamedByRedirect` | install_pack.py:59-67 | Redirected to a URL that names the file, the file gets that name. |
| `PyInstall.FetchOne` | install_pack.py:145-157 | One turn adds at most one to the skip count and only uses up responses. The count stays exactly when both ids are present and the file is saved under a non-empty name. An entry without both ids changes nothing. |
| `PyInstall.InstallIsNew` | install_pack.py:145-157 | An entry counted as installed was saved as a new file directly inside `mods`: its name was not listed there before the turn and is listed after it. |
| `PyInstall.FetchAll` | install_pack.py:142-159 | The loop skips at most one per file and only uses up responses. No outcome stops it. |
| `PyInstall.FetchFrame` | install_pack.py:142-159 | When no file id and no redirect location names a '/', the loop writes only directly inside `mods`, besides making the directories on the way to it. |
| `PyInstall.FetchOneFrame` | install_pack.py:145-157 | The same for one turn of the loop. |
| `PyInstall.CurseFrame` | install_pack.py:96-97 | The same for `curse_file`: a '/'-free file id and '/'-free redirect locations keep it directly inside `mods`. |
| `PyInstall.FetchKeeps` | install_pack.py:142-159 | The loop only adds entries, and leaves `mods` itself as it was. |
| `PyInstall.FetchInstalledAreNew` | install_pack.py:142-159 | The installed count, files minus skips, is at most the number of names that are new in `mods`. |
| `PyInstall.FetchOneRerun` | install_pack.py:145-157 | In a rerun, each file is skipped, and the same responses are used up as the first time. |
| `PyInstall.FetchRerun` | install_pack.py:142-159 | In a rerun, the loop changes nothing and skips every file. |
| `PyInstall.ModpackResult` | install_pack.py:120-163 | Installed and skipped sum to the number of files. A missing key or `files` fails before the disk or the network is touched. |
| `PyInstall.Overrides` | install_pack.py:161-163 | Without overrides the counts stand and nothing changes. With overrides, after a successful loop, the counts stand exactly when the overrides are a directory whose entries agree in kind with `minecraft`; the tree is then their overlay onto `minecraft`. Overrides that are not a directory fail as missing. When the copy fails, the tree is left as it was. |
| `PyInstall.ModpackFrame` | install_pack.py:138-163 | When no file id and no redirect location names a '/', every entry outside `minecraft` keeps its node, and the only entries the run adds outside `minecraft` are directories on the way to it. |
| `PyInstall.ModpackInstalledAreNew` | install_pack.py:138-163 | The installed count of a successful run is at most the number of names that are new in `minecraft/mods`. |
| `PyInstall.ModpackRerun` | install_pack.py:120-163 | Installing the same pack again installs nothing, skips every file and leaves the disk as it was. |
| `PyInstall.FetchFile` | install_pack.py:145-157 | One loop turn on the disk equals `FetchOne`. |
| `PyInstall.FetchFiles` | install_pack.py:142-159 | The counting loop on the disk equals `FetchAll`. |
| `PyInstall.CopyOverrides` | install_pack.py:161-163 | The overrides step on the disk equals `Overrides`. |
| `PyInstall.ModpackStep` | install_pack.py:120-167 | `modpack_step` on the disk equals `ModpackResult`. |
| `PyInstall.PackName` | install_pack.py:170-174 | An exception or a skip from `hit_file` fails; a name is given exactly when a non-empty name was saved. That name is the stretches between the `.zip`s `re.sub` finds, one after the other: four characters shorter for each `.zip`, and whole when it has none. |
| `PyInstall.PackNameOfArchive` | install_pack.py:174 | `<stem>.zip`, with no other `.zip`, names the pack stem. |
| `PyInstall.PackNameJoin` | install_pack.py:174 | A name made of `.zip`-free pieces joined by `.zip` names the pack those pieces make one after the other: every `.zip` goes. |
| `PyInstall.PackNameEveryZip` | install_pack.py:174 | `a.zip.zip` names the pack `a`. |
| `PyInstall.WithFilesContainsFiles` | install_pack.py:210-213 | The routed URL always contains `/files`, and appending is idempotent. |
| `PyInstall.RouteArgs` | install_pack.py:188-215 | No argument is an error exactly when fewer than two are given. Otherwise the `.ccip` route is taken exactly when `.ccip` occurs in the argument, but not at its start. A `.ccip` route carries the argument itself. A URL route carries the argument, with `/files/latest` appended when `/files` does not occur in it. |
| `PyInstall.FindPastStart` | install_pack.py:195 | `index` gives a positive position exactly when the pattern occurs somewhere but not at position 0. |
| `PyInstall.RouteUrlHasFiles` | install_pack.py:209-215 | A URL route always contains `/files`. |
| `PyInstall.RouteMissesLeadingCcip` | install_pack.py:194-199 | As written, a path starting with `.ccip` is downloaded as a URL. |
| `PyInstall.RouteArgsIntended` | install_pack.py:189-190 | With the intended test, no argument is still an error exactly when fewer than two are given. |
| `PyInstall.RouteIntendedCcip` | install_pack.py:194-199 | With the intended test, the `.ccip` route is taken exactly when `.ccip` occurs in the path; otherwise the URL carries `/files`. |
| `JsInstall.ProjectName` | install_pack.js:56-64 | `noloc` exactly when `location` is missing or empty. A name is the decoded, stripped last segment, never empty. A decoding failure throws; an empty name is `failed`. |
| `JsInstall.ProjectNameSlug` | install_pack.js:58-62 | A location ending in `<id>-<escaped slug>` gives back a non-empty slug. |
| `JsInstall.ProjectNameDiffersFromPython` | install_pack.js:60 | Stripping before decoding differs from install_pack.py: `p/%31-a` gives `1-a` here and `a` there. |
| `JsInstall.EscapedDigitNoPrefix` | install_pack.js:60 | An escaped digit is no `digits-` prefix. |
| `JsInstall.EscapedDigitDecodes` | install_pack.js:60 | `%31-a` decodes to `1-a`. |
| `JsInstall.Repeat` | install_pack.js:72-77 | n copies of one character. |
| `JsInstall.BarShape` | install_pack.js:72-77 | The loop's bar is a run of '#' as long as cnt allows within the bar, followed by '-' up to its length. |
| `JsInstall.Bar` | install_pack.js:72-77 | The bar has n characters; the one at i is '#' exactly when i < cnt, '-' otherwise. |
| `JsInstall.ProgressBar` | install_pack.js:68-80 | `[`, a bar of barsize - 1 characters whose first cnt (clamped) are '#' and the rest '-', `] `, the percentage and `%`. |
| `JsInstall.BarLoop` | install_pack.js:72-77 | The `for` loop builds the bar of `Bar`. |
| `JsInstall.HitResult` | install_pack.js:88-151 | `hitFile` only uses up responses. An undecodable URL name throws before any request. |
| `JsInstall.UrlName` | install_pack.js:101-104 | When `decodeURIComponent` accepts the last segment, the name is the one install_pack.py's `name_url` gives; a URL without '%' is named by its last segment. |
| `JsInstall.HitNamed` | install_pack.js:113-150 | The request under a name already decoded only uses up responses; `HitStep` gives the redirect hop and `HitNamedEnds` how the last response ends it. |
| `JsInstall.Follow` | install_pack.js:116-119 | The chain starts at the URL and only uses up responses; its final response has no truthy `location`. |
| `JsInstall.FinalUrl` | install_pack.js:116-117 | The URL the response chain ends at is the last of the chain. |
| `JsInstall.Decodable` | install_pack.js:101-104 | When every URL of the chain decodes, so does the final one's name. |
| `JsInstall.HitOutcome` | install_pack.js:101-149 | A download ends as the last response of its chain says (404, existing name, write, broken stream), under the decoded name of the final URL. |
| `JsInstall.HitOutcomeHop` | install_pack.js:116-119 | A redirect hands the outcome on to the next URL with the original fallback name. |
| `JsInstall.HitStep` | install_pack.js:116-119 | A truthy `location` is followed before the status is looked at. |
| `JsInstall.HitNamedEnds` | install_pack.js:121-149 | The last hop: 404 first, then an existing name, then the write. |
| `JsInstall.HitFallbackOnlyInMessage` | install_pack.js:117-122 | The name passed in matters only to the 404 message. Two calls that differ in it change the tree alike and otherwise succeed or fail alike. |
| `JsInstall.HitNamedFallback` | install_pack.js:121-122 | The same, for the last hop. |
| `JsInstall.HitFile` | install_pack.js:88-151 | The recursive, disk-writing `hitFile` leaves the tree, result and remaining responses of `HitResult`. |
| `JsInstall.HitNamedOnDisk` | install_pack.js:113-150 | Given the file name decoded from the URL, the disk-writing request leaves the tree, result and remaining responses of `HitNamed`. |
| `JsInstall.CurseFile` | install_pack.js:153-162 | A lookup error is handed on and no download is made. Otherwise `hitFile` of the CurseForge URL runs, with `<fileId>.jar` as the name passed in. |
| `JsInstall.CurseDirectNamesDiffer` | install_pack.js:156 | A CurseForge download answered directly is stored as `download` here but as `<fileId>.jar` by install_pack.py. |
| `JsInstall.CurseUrlReadsDownload` | install_pack.js:156 | The CurseForge URL decodes to the name `download`. |
| `JsInstall.CurseFileOnDisk` | install_pack.js:153-162 | `curseFile` on the disk equals `CurseFile`. |
| `JsInstall.DownloadFrom` | install_pack.js:268-286 | Downloads only use up responses. An empty list changes nothing. A failing first file ends the run with its error. |
| `JsInstall.DownloadSplit` | install_pack.js:268-286 | Downloads go in index order. A failing prefix ends the run whatever follows; a succeeding one hands its tree and remaining responses to the rest. |
| `JsInstall.DownloadNext` | install_pack.js:268-286 | The recursive `downloadNext(index)` on the disk equals `DownloadFrom` of the files from index on. |
| `JsInstall.Step2` | install_pack.js:186-202 | A success reports `Modpack downloaded successfully.` and leaves nothing of the overrides. A crash keeps the tree. |
| `JsInstall.Step2IsPythonCopy` | install_pack.js:187-200 | Where install_pack.py's copy succeeds, the JavaScript move leaves its tree without the overrides. |
| `JsInstall.ModpackStep2` | install_pack.js:186-202 | `modpackStep2` on the disk equals `Step2`. |
| `JsInstall.Update` | install_pack.js:236-245 | A successful update leaves nothing of the extracted pack. When the removed path is inside the install and the pack lies outside it, every entry of the pack is found at its place below the install, with its node. |
| `JsInstall.LandsInInstall` | install_pack.js:174-184 | Moving or copying a pack into a disjoint install puts every entry of the pack at its place below the install, with the same node, outside the pack. |
| `JsInstall.PrunedKeepsPack` | install_pack.js:10-19 | Removing a path inside the install keeps every entry of a pack that lies outside it. |
| `JsInstall.UpdateRenewsMods` | install_pack.js:237-244 | With the downloads directory cleared on a new version, every mod left in the install comes from the new pack. |
| `JsInstall.StaleModKept` | install_pack.js:239 | As written, a mod of the old version under `minecraft/mods` survives an update to a new version. |
| `JsInstall.Place` | install_pack.js:233-250 | The run goes on in `<home>/<pack name>`. When the pack name is the zip name, the tree is left as it was. Otherwise nothing of the extracted pack is left, and each of its entries is found at its place below the install, with its node. |
| `JsInstall.PlaceFrame` | install_pack.js:233-250 | No entry outside the extracted pack and the install is added, removed or changed. |
| `JsInstall.MkDirCalls` | install_pack.js:164-172 | `makeDir` reports an error exactly when it leaves the path missing. |
| `JsInstall.Prepare` | install_pack.js:263-264 | At most two `makeDir` errors are reported. In a fresh pack directory both directories are made, with no error. |
| `JsInstall.Fetch` | install_pack.js:266-287 | The last callback follows the `makeDir` ones. A success comes only after a non-empty list downloaded without error. |
| `JsInstall.FetchAborts` | install_pack.js:271-272 | The first failed download ends the run, whatever files come after it. |
| `JsInstall.OverridesName` | install_pack.js:259-261 | The overrides name is the manifest's when it has one and `overrides` otherwise, and is never `minecraft`. |
| `JsInstall.ModpackRun` | install_pack.js:218-287 | A missing manifest reports `no manifest`. Missing `files` is reported before any request. A success needs a non-empty file list. A new version clears `<name>/mods`, as written. |
| `JsInstall.UpdateOnDisk` | install_pack.js:236-245 | The update on the disk equals `Update`. |
| `JsInstall.PlaceOnDisk` | install_pack.js:233-250 | Placing on the disk equals `Place`. |
| `JsInstall.PrepareOnDisk` | install_pack.js:263-264 | The two `makeDir` calls on the disk equal `Prepare`. |
| `JsInstall.FetchOnDisk` | install_pack.js:266-287 | The downloads and step 2 on the disk equal `Fetch`. |
| `JsInstall.ModpackStep1` | install_pack.js:218-287 | `modpackStep1` on the disk equals `ModpackRun`. |
| `JsInstall.PackDirName` | install_pack.js:294-298 | A name is rejected exactly when `.zip` does not occur in it. An accepted one is the name with its first `.zip` cut out, four characters shorter. |
| `JsInstall.PackDirNameOfArchive` | install_pack.js:298 | `<stem>.zip`, with no other `.zip`, names the pack stem, as in install_pack.py. |
| `JsInstall.PackDirNameDiffersFromPython` | install_pack.js:298 | Only the first `.zip` goes: `a.zip.zip` names `a.zip` here and `a` in install_pack.py. |

## Left out

- HTTP itself is not modelled: connections, headers other than `location` and `content-length`, and the streaming of bodies in blocks. Each response is a value, and a broken stream is a flag on it.
- Relative redirect locations are not modelled. The JavaScript request path `parsed.path` is not modelled either, so the model does not capture query strings, fragments, or URLs made of a host only. A non-empty location is taken as absolute.
- UTF-8 decoding of multi-byte escapes is not modelled: each `%XX` decodes to the one character with that code.
- Parsing of `content-length` is not modelled; a header that `int()` rejects and one that is missing both raise.
- Zip extraction and the `.ccip` XML are not modelled. Neither is loading the manifests (`json.load`, `require`): the parsed manifests are parameters.
- Console output is not modelled: the progress text, the megabyte figures, the float arithmetic behind `toFixed` and `Math.floor`, `modpack_finish`, and the Forge advisories at install_pack.js:204-215. A JavaScript manifest without `minecraft` throws in those advisories after the success callback; that crash is not modelled.
- The module-level `currentPWD`, `overrides` and `manifest` of install_pack.js are parameters.
- The front half of `download_modpack` and `downloadModpackFile` is not modelled beyond the name check: the archive download, the `packs` directories, the extraction and the unlink.
- PyInstall.HitResult: a saved name containing '/' is written as a single entry directly inside the target, where `os.path.join` would reach a nested path or `open` would fail. `HitFrame`, `FetchFrame` and `ModpackFrame` assume names without '/'.
- JsInstall.HitResult: a decoded name containing '/' is written as a single entry, where `target + fname` names a nested path, which `existsSync` and `createWriteStream` look up through its directories.
- Names containing '/', and the names "", "." and "..", are not modelled as pack, install or overrides names. `OverridesNamed` and `NamesPlain` are preconditions that keep them out.
- An overrides directory named `minecraft` is not modelled either: `OverridesNamed` and the requires of `ModpackStep2` and `FetchOnDisk` exclude it. Both sources accept it. Python's `copytree` of `minecraft` onto itself recurses into every directory and raises `SameFileError` at the first file's `shutil.copy2`; with directories only it changes nothing. JavaScript unlinks the first file it meets and then throws on renaming the now-missing path; with directories only it goes on to remove `minecraft` altogether with `rmdir` and reports success.
- Text.StripIdPrefix: a digit is an ASCII '0'-'9'. That is what JavaScript's `\d` at install_pack.js:60 matches, but Python 3's `\d` at install_pack.py:31 also matches every other Unicode decimal digit, so a Python name starting with, say, Arabic-Indic digits and a '-' loses a prefix the model keeps.
- PyInstall.Overrides: every kind clash fails with `KindClash` before anything is copied. In the source, three things differ. A file of the overrides that meets a directory is copied into that directory by `shutil.copy2`, and the run succeeds. An empty directory of the overrides that meets a file lists nothing, so nothing raises. Any other clash raises part way through the copy, leaving what was already copied.
- JsInstall.Step2: a crash part way through the move is reported by the tree the step started from, not the partly moved tree.
- JsInstall.Update: a crash during the merge is reported by the tree before the update, not the tree `rmdir` left.
- JsInstall.Place: a crash keeps the tree before the placing; the source may have renamed or removed part of it before throwing.
- One network, shared by all requests, is consumed in request order. The concurrency of Node's callbacks is not modelled; `downloadNext` makes one request at a time anyway.

## Findings

| source | as written | input that shows it | evidently intended | confidence | as-written member | corrected member |
|---|---|---|---|---|---|---|
| install_pack.py:194-199 | `mppath.index('.ccip')` is used as a truth value, so an occurrence at index 0 counts as none | the argument `.ccip` is routed as the URL `.ccip/files/latest` | any occurrence of `.ccip` selects the project-file branch | medium, not executed | `PyInstall.RouteMissesLeadingCcip` | `PyInstall.RouteIntendedCcip` |
| install_pack.js:239 | on a new version, `<name>/mods` is removed | an existing install with `minecraft/mods/old.jar`, updated to a new version whose pack has no such file, keeps `old.jar` | the directory the mods were downloaded to, `<name>/minecraft/mods`, is removed | medium, not executed | `JsInstall.StaleModKept` | `JsInstall.UpdateRenewsMods` |
