# espsyncer core, modelled in Dafny

`espsyncer.py` keeps the files of a MicroPython board in sync with the host. It talks to the
board's REPL over a serial line and runs `uos` calls there. This project models the sequential
core of its `EspSyncer` class, and proves properties about that model.

The modules, one per file:

- **Transport** (`transport.dfy`): the framed transport and the command bridge.
  - `Port` is the serial line. A write accepts between one byte and the whole buffer; reads come from a queue of bytes the board has printed.
  - `Syncer` holds the receive buffer and the `uos_imported` flag.
  - Methods: `send`, `recv`, raw and paste mode, `__call__`, `eval`, and the text side of `ilistdir`.
  - The wall-clock timeout of `recv` is a read budget, fixed per syncer.
- **Device** (`device.dfy`): what the REPL's `uos` calls do on the board.
  - The flash is a map from absolute path to `File(bytes)` or `Dir`.
  - The globals `_fout`/`_fin` are modelled, and every change is logged in an operation trace.
  - A `uos` call gives back a value or the text of the traceback it raised.
- **RemoteFs** (`remotefs.dfy`): `StatResult`, `EspException.last_line`, `stat`, `rm`, `rmdir`, `mkdir`, `ls` and `lsl`.
- **Listing** and **Sorting** (`listing.dfy`, `sorting.dfy`): the `append` loops that split an `ilistdir` result into directories and files, and Python's `sorted` on names and on (name, size) pairs.
- **TreeOps** (`tree.dfy`): `makedirs`.
- **TreeRemoval** (`rmtree.dfy`): `rmtree`, proved equal to a recursive specification. That specification is proved to remove exactly the tree.
- **HostFs** (`host.dfy`): the host's filesystem, a second map, with `os.path.isdir`, `os.listdir`, `os.mkdir` and `open`.
- **Uploading** and **Downloading** (`upload.dfy`, `download.dfy`): the transfer engine.
  - The 64-byte write loop that moves on by the count the board accepted, and the 64-byte read loop.
  - The overwrite, type-conflict and quick-skip checks.
  - The recursive walks, which build each destination path as `/`+name under the root and dst+`/`+name elsewhere.
- **Paths** and **Seqs** (`paths.dfy`, `seqs.dfy`): path strings, and Python's `find`, `split` and `join` on sequences.
- **Errors** (`errors.dfy`): the failure outcomes.

Every Python exception the core raises becomes a `Failed(error)` or `Err(error)` outcome:

| source | error |
|---|---|
| a failing `assert` on a reply, including `assert self.eval(...) is True` in `rm`, `rmdir` and `mkdir` | `Desync` |
| the `IndexError` of `st[6]` on a stat tuple too short to hold a size | `Desync` |
| a failing `assert` on an argument | `Rejected` |
| the `TimeoutError` of `recv` | `Timeout` |
| a `UnicodeEncodeError` or `UnicodeDecodeError` on the text sent or received | `Encoding` |
| `StatResult`'s "Not a file and not a directory?" exception | `NotFileOrDir` |
| an `EspException` | `Fault` |
| the "already exists" and "wrong type" exceptions | `Conflict` |
| a bad host path | `LocalIo` |
| a `None` stat result used as a value | `NoSuchPath` |

## Model

| member | source | states |
|---|---|---|
| Transport.Ascii | espsyncer.py:253 | encoding ASCII text keeps its length and every character's code |
| Transport.Decode | espsyncer.py:263 | decoding succeeds exactly on ASCII bytes and is the inverse of encoding |
| Transport.DecodeAscii | espsyncer.py:253-263 | decoding the encoding of ASCII text gives the text back |
| Transport.Line | espsyncer.py:253-255 | the bytes sent for a command start with the command and end in CR LF, adding CR LF only when missing |
| Transport.Frame | espsyncer.py:256-258 | one command goes out as CTRL-E, the CR LF terminated line, CTRL-D |
| Transport.Interpret | espsyncer.py:259-266 | a result is the reply minus the echoed line (when expected), ASCII and free of the traceback marker; conversely, a missing echo is exactly a desync, a non-ASCII body exactly an encoding error, and an ASCII body is a fault carrying the text when it holds the marker and a result otherwise |
| Transport.InterpretEcho | espsyncer.py:259-266 | a reply that echoes the line and then prints marker-free ASCII text gives exactly that text |
| Transport.DrainsToStep | espsyncer.py:103-105 | each further write is given exactly the bytes not yet written |
| Transport.DrainsToAccepted | espsyncer.py:103-105 | the accepted slices, in order, make up the data, and there are at most as many writes as bytes |
| Transport.RecvCut | espsyncer.py:112-121 | where the buffer is cut is the first occurrence of the terminator in the whole stream, and the part before it holds no terminator |
| Transport.RecvOk | espsyncer.py:119-121 | the cut of the buffer, read back against the whole stream: chunk before the first terminator, everything after it kept |
| Transport.ItemLines | espsyncer.py:280-287 | a reply without the listing header is refused as a desync |
| Transport.ItemLinesSplit | espsyncer.py:280-287 | the item lines are CR LF free and, joined back after the empty first line, give exactly the text after the header |
| Transport.ItemLinesAgree | espsyncer.py:282-283 | wherever the header is found after the first byte, the header check as written and the intended one agree |
| Transport.HeaderMissingAccepted | espsyncer.py:282-287 | a short reply with no header passes `assert idx` and reads as an empty listing, where the intended check refuses it |
| Transport.Port.Write | espsyncer.py:105 | a write accepts between 1 and all of the bytes given, and those go out in order |
| Transport.Port.Read | espsyncer.py:113 | a read takes at most one byte from the front of the line, and only an empty line gives nothing |
| Transport.Syncer.constructor | espsyncer.py:83-88 | a new syncer has an empty buffer and has not imported `uos` |
| Transport.Syncer.Send | espsyncer.py:99-105 | everything is sent, in order; the write calls are each given the unwritten suffix and each accept at least one byte |
| Transport.Syncer.Recv | espsyncer.py:107-122 | returns the bytes before the first terminator of buffer + incoming, and keeps exactly what follows it; old buffer + bytes read = chunk + terminator + new buffer; the chunk holds no terminator; nothing is read when the buffer already holds one; on timeout no byte is lost |
| Transport.Syncer.Fill | espsyncer.py:112-117 | reads only from the front of the line into the buffer, losing nothing, until the buffer holds the terminator or the budget is spent; no read when it already holds one |
| Transport.Syncer.Cut | espsyncer.py:119-122 | the chunk is the stream up to the first terminator, the kept buffer and the unread line are everything after it, and the chunk holds no terminator |
| Transport.Syncer.EnterRawMode | espsyncer.py:134-137 | sends CTRL-A; on success everything after the first raw REPL banner of buffer + incoming stays to be read; a banner already buffered means success with nothing read; a timeout loses nothing |
| Transport.Syncer.ExitRawMode | espsyncer.py:139-141 | sends CTRL-B; on success everything after the first `OK` line of buffer + incoming stays to be read; an `OK` already buffered means success with nothing read; a timeout loses nothing |
| Transport.Syncer.EnterPasteMode | espsyncer.py:143-144 | sends exactly CTRL-E |
| Transport.Syncer.ExitPasteMode | espsyncer.py:146-147 | sends exactly CTRL-D |
| Transport.Syncer.SendFrame | espsyncer.py:254-258 | the line goes out between CTRL-E and CTRL-D and nothing is read |
| Transport.Syncer.Call | espsyncer.py:251-266 | non-ASCII commands send and read nothing; otherwise the frame is sent and the result is the interpretation of the reply up to the first terminator, the rest staying buffered, or a timeout |
| Transport.Syncer.Eval | espsyncer.py:268-273 | `import uos` is sent before the command only while the flag is unset; once set the flag stays set and the import is never re-sent; the flag is set only when the import's reply arrived and was not an error; the result is `__call__` of the command on the stream after the import's reply (or on the whole stream when the flag was set): the interpretation of the reply up to the first prompt, a timeout, or an encoding error with nothing sent for a non-ASCII command |
| Transport.Syncer.ImportUos | espsyncer.py:270-271 | the import goes out framed, and its result is the interpretation, without echo, of the reply up to the first prompt, or a timeout that loses nothing |
| Transport.Syncer.CallEcho | espsyncer.py:273 | the command's frame goes out when it is ASCII, and the result is what one `__call__` with the echo expected gives on the stream |
| Transport.Syncer.SendLoop | espsyncer.py:278-279 | the listing loop goes out, then CTRL-D |
| Transport.Syncer.Ilistdir | espsyncer.py:275-291 | sends the loop between CTRL-E and CTRL-D and returns the item lines of the reply up to the first prompt, cut with the header check as written, keeping the rest buffered, or a timeout that loses nothing; a non-ASCII path fails after CTRL-E has gone out |
| Device.StatTuple | espsyncer.py:54-64 | the stat tuple of a node has ten fields, with the type in field 0 and the size in field 6 |
| Device.RemoveOn | espsyncer.py:324 | `uos.remove` keeps the filesystem a tree |
| Device.RmdirOn | espsyncer.py:327 | `uos.rmdir` keeps the filesystem a tree |
| Device.MkdirOn | espsyncer.py:330 | `uos.mkdir` keeps the filesystem a tree |
| Device.CreateOn | espsyncer.py:420 | `open(dst, 'wb+')` keeps the filesystem a tree |
| Device.Device.Stat | espsyncer.py:348 | `uos.stat` gives the stat tuple of the node, or an ENOENT traceback |
| Device.Device.Ilistdir | espsyncer.py:275-291 | the items are exactly the children of the directory, in some order; a missing path or a file raises |
| Device.Device.Remove | espsyncer.py:324 | as `uos.remove`, logging the removal when it succeeds |
| Device.Device.Rmdir | espsyncer.py:327 | as `uos.rmdir`, logging the removal when it succeeds |
| Device.Device.Mkdir | espsyncer.py:330 | as `uos.mkdir`, logging the creation when it succeeds |
| Device.Device.OpenWrite | espsyncer.py:420 | binds `_fout` to the created, empty file, or raises and changes nothing |
| Device.Device.Write | espsyncer.py:425 | appends and returns the first min(len, window) bytes of the chunk to the open file; an unbound, closed or dangling handle raises and changes nothing |
| Device.Device.CloseWrite | espsyncer.py:433 | closes `_fout`, raising only when it is unbound |
| Device.Device.DelWrite | espsyncer.py:434 | unbinds `_fout`, raising only when it is unbound |
| Device.Device.OpenRead | espsyncer.py:499 | binds `_fin` at position 0 to a file; a missing path or a directory raises and changes nothing |
| Device.Device.Read | espsyncer.py:505 | returns the next at most n bytes from the position and advances it; empty at the end |
| Device.Device.CloseRead | espsyncer.py:515 | closes `_fin`, raising only when it is unbound |
| Device.Device.DelRead | espsyncer.py:516 | unbinds `_fin`, raising only when it is unbound |
| RemoteFs.MakeStat | espsyncer.py:54-64 | exactly one of isfile/isdir is set, isfile iff the mode is 32768 and isdir iff it is 16384, size is field 6; any other mode fails |
| RemoteFs.LastLine | espsyncer.py:71-76 | the last line is the text after the final newline (possibly empty): a suffix with no newline, preceded by a newline unless it is everything |
| RemoteFs.TracebackLastLine | espsyncer.py:71-74 | the last line of a one-line exception's traceback is the exception line |
| RemoteFs.AbsentOnlyForENOENT | espsyncer.py:350-355 | ENOENT tracebacks count as absent; EEXIST, ENOTDIR, EISDIR, ENOTEMPTY, EPERM and EBADF ones do not |
| RemoteFs.AbsentWhen | espsyncer.py:351-353 | a traceback whose exception line ends in `ENOENT` means absent |
| RemoteFs.NotAbsentWhen | espsyncer.py:351-355 | a traceback whose exception line does not end in `ENOENT` is re-raised |
| RemoteFs.StatReply | espsyncer.py:346-355 | `None` exactly when the fault's last line ends in `ENOENT`, the fault itself otherwise, and the classified stat tuple on a value |
| RemoteFs.Stat | espsyncer.py:346-355 | `None` exactly for a missing path, otherwise the classification of its node |
| RemoteFs.Expect | espsyncer.py:324 | the `... or True` check passes only on `True`, any other value is a desync, and a raised traceback becomes a fault |
| RemoteFs.Rm | espsyncer.py:323-324 | succeeds exactly on a file, which it alone removes; otherwise a fault and no change |
| RemoteFs.Rmdir | espsyncer.py:326-327 | succeeds exactly on an empty directory other than the root, which it alone removes; otherwise a fault and no change |
| RemoteFs.Mkdir | espsyncer.py:329-330 | succeeds exactly on a missing canonical path whose parent is a directory, which it alone adds; otherwise a fault and no change |
| RemoteFs.Ls | espsyncer.py:293-306 | a listing fault is passed on; otherwise the names in `ls` order |
| RemoteFs.Lsl | espsyncer.py:308-321 | a listing fault is passed on; otherwise the pairs in `lsl` order |
| Listing.WithSlash | espsyncer.py:303-304 | each directory name gets a trailing `/`, in order |
| Listing.Partition | espsyncer.py:296-302 | collects the names of the file items and of the directory items, in listing order |
| Listing.PartitionPairs | espsyncer.py:311-317 | collects (name + `/`, 0) for directories and (name, size) for files, in listing order |
| Listing.CollectMembers | espsyncer.py:297-302 | an item's image is collected exactly when the item has the wanted type |
| Listing.CollectPermutation | espsyncer.py:297-302 | permuting the items permutes what is collected |
| Listing.LsOrderPermutation | espsyncer.py:293-306 | `ls` output does not depend on the order `ilistdir` gives |
| Listing.LslOrderPermutation | espsyncer.py:308-321 | `lsl` output does not depend on the order `ilistdir` gives |
| Listing.SlashMembers | espsyncer.py:303-304 | `n/` is listed exactly when the directory name `n` was collected |
| Listing.CollectNames | espsyncer.py:297-302 | a name is collected exactly when an item of that type has it |
| Listing.LsOrderShape | espsyncer.py:293-306 | `ls` gives directories first, each suffixed `/`, exactly the directory items, sorted by the name without the `/`; then the files, sorted, exactly the file items; other types are dropped |
| Listing.LsDirNames | espsyncer.py:301-304 | `n/` is among the directory part exactly when a directory item is named `n` |
| Listing.LsFileNames | espsyncer.py:299-306 | `n` is among the file part exactly when a file item is named `n` |
| Listing.LslOrderShape | espsyncer.py:308-321 | `lsl` gives (name + `/`, 0) for exactly the directory items, sorted, then (name, size) for exactly the file items, sorted; other types are dropped |
| Sorting.SortNames | espsyncer.py:303-306 | `sorted` on names is a sorted permutation |
| Sorting.SortPairs | espsyncer.py:318-321 | `sorted` on (name, size) pairs is a sorted permutation |
| Sorting.SortBySorted | espsyncer.py:303 | insertion sort by a total order gives a sorted sequence |
| Sorting.SortedUnique | espsyncer.py:303 | two sorted permutations of the same elements are equal, so the sorted order is unique |
| Sorting.LexLeOrder | espsyncer.py:303 | string order is transitive and antisymmetric |
| Sorting.PairLeOrder | espsyncer.py:318 | tuple order is transitive and antisymmetric |
| Sorting.SortNamesPermutation | espsyncer.py:303-306 | `sorted` gives the same names whatever order they come in |
| Sorting.SortPairsPermutation | espsyncer.py:318-321 | `sorted` gives the same pairs whatever order they come in |
| Paths.Join | espsyncer.py:385-393 | a child path is `/`+name under the root and dir+`/`+name elsewhere |
| Paths.JoinIsChild | espsyncer.py:385-393 | the joined path is a direct child of the directory, and its name can be read back |
| Paths.Basename | espsyncer.py:438 | the final path component holds no `/` |
| Paths.BasenameLocalJoin | espsyncer.py:438-454 | the final component of a host path joined with a name is that name |
| Paths.BasenameSlashJoin | espsyncer.py:520-540 | the final component of src + `/` + name is that name |
| TreeOps.Prefixes | espsyncer.py:334-336 | there is one prefix per component, and the last one is the path itself |
| TreeOps.Makedirs | espsyncer.py:332-344 | a path without a leading `/` is refused with no change; otherwise the filesystem, the changes and the outcome are those of visiting the prefixes left to right |
| TreeOps.Visit | espsyncer.py:337-344 | a missing prefix is created with `mkdir`; a file is a conflict and stops the loop; a directory is passed over |
| TreeOps.MakedirsUnfold | espsyncer.py:335-344 | one step of the prefix walk, case by case |
| TreeOps.MakedirsOnlyAdds | espsyncer.py:335-339 | nothing present is changed; each new path is a directory among the prefixes; each logged change is the `mkdir` of a missing prefix |
| TreeOps.MakedirsDoneAllDirs | espsyncer.py:335-344 | after a successful walk every prefix is a directory |
| TreeOps.MakedirsNoChange | espsyncer.py:337-340 | when every prefix already is a directory, nothing changes and nothing is logged |
| TreeOps.MakedirsConflict | espsyncer.py:340-344 | a conflict names a visited prefix that is a file, and nothing after it was created |
| TreeOps.MakedirsChainDone | espsyncer.py:335-339 | on a tree, a chain of nested paths with no file among them is created without error |
| TreeOps.PrefixesChain | espsyncer.py:334-336 | the prefixes of a path with no empty component form such a chain from the root |
| TreeOps.MakedirsSucceeds | espsyncer.py:332-344 | on a tree with no file among the prefixes, `makedirs` succeeds and leaves the path a directory |
| TreeRemoval.Normalize | espsyncer.py:368-370 | one trailing `/` is stripped, unless the path is `/` |
| TreeRemoval.RmtreeAt | espsyncer.py:375-398 | removing a tree only takes paths away |
| TreeRemoval.Rmtree | espsyncer.py:357-401 | an empty or relative path is refused; a missing one ends in NoSuchPath with no change; otherwise the tree goes (the path too, unless it is `/`) and the changes are the depth-first removals, or a single removal for a file |
| TreeRemoval.RmtreeDir | espsyncer.py:375-398 | removing a directory tree does exactly what the specification says, change by change |
| TreeRemoval.RemoveRest | espsyncer.py:389-398 | after the subdirectories: the files, then the directory itself unless it is `/` |
| TreeRemoval.RemoveDirs | espsyncer.py:384-388 | the subdirectories are removed one tree at a time in sorted order, stopping at the first failure |
| TreeRemoval.RemoveFiles | espsyncer.py:389-395 | the files are removed one at a time in sorted order, stopping at the first failure |
| TreeRemoval.RmtreeAtListed | espsyncer.py:376-384 | the specification visits the sorted subdirectories, then the sorted files, of the listing |
| TreeRemoval.VisitAnyOrder | espsyncer.py:376-384 | the visiting order does not depend on the order `ilistdir` gives |
| TreeRemoval.VisitedChildren | espsyncer.py:376-384 | the names visited are exactly the children of the wanted type |
| TreeRemoval.VisitUnique | espsyncer.py:376-384 | each child is visited once |
| TreeRemoval.RmDirsDone | espsyncer.py:384-388 | on a tree, removing the listed subdirectories succeeds and takes away exactly their trees |
| TreeRemoval.RmFilesDone | espsyncer.py:389-395 | removing the listed files succeeds and takes away exactly those files |
| TreeRemoval.RmtreeAtDone | espsyncer.py:375-398 | on a tree, removing a directory succeeds and leaves exactly the rest: nothing under the path remains, and the path goes unless it is the root |
| TreeRemoval.PrunedTree | espsyncer.py:357-401 | what is left is still a tree |
| TreeRemoval.PrunedFile | espsyncer.py:399-401 | removing a file path removes exactly that file |
| TreeRemoval.PrunedRoot | espsyncer.py:396-398 | wiping `/` leaves only the root directory |
| TreeRemoval.AfterDirsDone | espsyncer.py:389-398 | once the subdirectories are gone, the files and the directory go without error |
| HostFs.FileData | espsyncer.py:410-411 | a host path can be read exactly when it is a regular file |
| HostFs.Names | espsyncer.py:452 | each listed name is a plain name whose join with the directory exists |
| HostFs.Host.IsDir | espsyncer.py:444 | true exactly for a host directory |
| HostFs.Host.IsFile | espsyncer.py:455 | true exactly for a host file |
| HostFs.Host.ReadFile | espsyncer.py:410-411 | the bytes of the file, or nothing when it is not one |
| HostFs.Host.FileSize | espsyncer.py:414 | the length of the file |
| HostFs.Host.Listdir | espsyncer.py:452 | exactly the names of the directory's children, each once, in some order |
| HostFs.Host.Mkdir | espsyncer.py:533 | adds exactly that directory |
| HostFs.Host.Create | espsyncer.py:501 | creates or truncates exactly that file |
| HostFs.Host.Append | espsyncer.py:508 | appends the bytes to exactly that file |
| Uploading.WriteOpsWriteAll | espsyncer.py:424-427 | the parts the writes accepted, put together, are the whole file, in order |
| Uploading.WriteOpsChunks | espsyncer.py:424-427 | each write is given at most 64 bytes and accepts at least one of them, so there are at most as many writes as bytes |
| Uploading.UploadFileShape | espsyncer.py:403-435 | an upload either changes nothing, or creates the file and leaves it holding the host bytes after the logged writes |
| Uploading.UploadFileWrites | espsyncer.py:420-433 | when it writes, the file is created first, the writes fill it with exactly the host bytes, and each write is at most 64 bytes and accepts at least one |
| Uploading.UploadFileKeeps | espsyncer.py:405-409 | only the destination changes; an existing destination without overwrite, or a directory, is a conflict with no change; the tree shape is kept |
| Uploading.UploadFileQuickSkips | espsyncer.py:413-417 | with quick and overwrite, a file of the same size is left as it is |
| Uploading.WriteChunks | espsyncer.py:423-427 | the loop writes every byte (total_written equals the length) and logs exactly the writes of the specification |
| Uploading.WriteStep | espsyncer.py:425-427 | one write accepts between 1 and all of the remaining bytes, appends those, and is the next write of the specification |
| Uploading.UploadFile | espsyncer.py:403-435 | the new filesystem, the changes and the outcome are those of the specification; the handle is unbound again whenever it was opened |
| Uploading.WriteFile | espsyncer.py:420-434 | open, the write loop, close and delete: a failing open changes nothing, otherwise the file holds exactly the data and the handle is unbound |
| Uploading.OrphanJoin | espsyncer.py:439-442 | a path built under a missing destination is missing and cannot be created |
| Uploading.UploadFileUnreachable | espsyncer.py:403-435 | uploading a file to a path that cannot be created changes nothing and is not a conflict |
| Uploading.UploadTree | espsyncer.py:437-458 | only the tree at dst/basename(src) changes; under a missing destination nothing changes |
| Uploading.UploadDir | espsyncer.py:444-454 | a file at the destination path is a conflict with no change; otherwise only the tree at that path changes |
| Uploading.UploadEach | espsyncer.py:452-454 | only the tree at the destination path changes; under a missing destination nothing changes |
| Uploading.Upload | espsyncer.py:460-481 | a file destination is a conflict with no change; contents of a non-directory source is a host error with no change; only the tree at dst (contents) or at dst/basename(src) changes; a missing destination is not refused, yet nothing changes |
| Downloading.DownloadFileFetches | espsyncer.py:483-517 | a download that changes the host succeeds and leaves at dst exactly the bytes of the device file |
| Downloading.DownloadFileKeeps | espsyncer.py:485-488 | only dst changes; a host directory at dst, or a host file without overwrite, is a conflict with no change |
| Downloading.UploadDownloadRoundTrip | espsyncer.py:403-517 | uploading bytes and downloading them back gives the same bytes |
| Downloading.DownloadFileQuickSkips | espsyncer.py:490-497 | with quick and overwrite, a host file of the same size is left as it is |
| Downloading.ReadChunks | espsyncer.py:501-513 | the read loop copies the whole device file into the host file (total_read equals its length) |
| Downloading.DownloadFile | espsyncer.py:483-517 | the new host filesystem and the outcome are those of the specification |
| Downloading.FetchFile | espsyncer.py:499-516 | a missing device file or a directory raises with no change on the host; a file is copied to dst byte for byte |
| Downloading.DownloadTree | espsyncer.py:519-546 | only the host tree at dst/basename(src) changes; a missing source ends in NoSuchPath with no change |
| Downloading.DownloadDir | espsyncer.py:530-544 | a host file at the destination path is a conflict with no change; otherwise only the tree at that path changes |
| Downloading.DownloadEach | espsyncer.py:537-544 | only the host tree at the destination path changes |
| Downloading.ContentsSource | espsyncer.py:565-567 | the source path of a listed name, without the `/` that `ls` puts after a directory |
| Downloading.TrailingSlashLost | espsyncer.py:565-567 | for a subdirectory, the path as written is not on the device and its basename is empty |
| Downloading.DirListedWithSlash | espsyncer.py:301-304 | a subdirectory is listed by `ls` with a trailing `/` |
| Downloading.ContentsSourceFound | espsyncer.py:565-567 | the corrected source of every listed name is an entry of the directory, and its basename is that name |
| Downloading.Download | espsyncer.py:548-569 | a destination that is not a host directory is a host error with no change; contents of a non-directory source fails with no change; only the host tree at dst (contents) or at dst/basename(src) changes |
| Downloading.DownloadContents | espsyncer.py:565-567 | only the host tree at dst changes |

## Left out

- `communicate`, `reset`, `dump` and the command-line entry point: terminal and serial-line plumbing, wall-clock polling and hardware line toggling. None of it is stateable logic.
- Python's `eval` of reply text is left out: it is a foreign evaluator.
  - `stat`, `rm`, `rmdir`, `mkdir`, `ls`, `lsl`, `rmtree`, `makedirs` and the transfer engine call the `Device` methods, which give the decoded values directly.
  - The text bridge (`__call__`, `eval`, the `ilistdir` reply) is modelled on its own.
  - `repr` of a path is taken as a given ASCII string.
- The `TimeoutError` of `recv` is a read budget: a receive gives up after a fixed number of reads instead of after elapsed seconds.
- Progress logging (`logger`, `lcnt`, the KB and percent floats) is left out. The device's changes are kept as an operation trace instead.
- Exception messages are not modelled, only their kinds (see the table above).
- The device looks paths up exactly as written, with no normalisation of `//` or a trailing `/`.
  - A real board resolves the `//name` paths that `_download` builds when downloading from `/`; the model reports those as missing.
  - The device has only files and directories, so other `st_mode` values appear only in `RemoteFs.MakeStat` and in listings.
- The host filesystem is a plain map. `os.mkdir` and `open` do not check parents, and `os.listdir`'s order is left open.
- `os.stat(src).st_size` in the quick check is the length of the bytes read from `src`.
- Uploading.UploadTree, Uploading.UploadDir, Uploading.UploadEach and Uploading.Upload: these state which device paths may change, and the conflict, host-error and missing-destination cases. They do not state the full list of changes a recursive upload makes.
- Downloading.DownloadTree, Downloading.DownloadDir, Downloading.DownloadEach, Downloading.DownloadContents and Downloading.Download: these state which host paths may change, and the conflict, host-error and missing-source cases. They do not state the full list of files a recursive download writes.
- Downloading.Download, Downloading.DownloadContents: a contents download fetches each listed name from the corrected path `ContentsSource(src, fname)`, the name without the `/` that `ls` appends. The source fetches `src + "/" + fname`, whose basename is empty for a subdirectory (see Findings); the model does not follow that path.
- Device.Device.Write, Device.Device.Read: a write or read on an open handle never fails; the flash never fills and there are no I/O errors. So the model does not capture a failure in the middle of the write or read loop, after which the source leaves `_fout` or `_fin` open and `dst` half written. The promises that `_upload_file` always unbinds `_fout` and `_download_file` closes `_fin` rest on this.
- RemoteFs.Ls, RemoteFs.Lsl: a directory listing that fails on the board is reported as `Fault` carrying the traceback. The source's `ilistdir` has no traceback check, so the traceback lines reach Python's `eval` on the host and fail there rather than as an `EspException`. The same holds for the listings inside `rmtree` and `_download`.
- Downloading.DownloadFile: the `_fin` handle is only stated to be unchanged or unbound afterwards, not which of the two.
- Downloading.Download: a contents download of a source that is not a directory is stated to fail, not with which error.

## Findings

| source | as written | input that shows it | evidently intended | confidence | as-written member | corrected member |
|---|---|---|---|---|---|---|
| espsyncer.py:565-567 | `download` with contents joins `src + "/" + fname` for each name of `ls(src)`, and `ls` suffixes directory names with `/` | a directory `/a` holding a directory `b`: the source becomes `/a/b/`, whose basename is empty, so `_download` aims at `dst/` rather than `dst/b` | download `/a/b` into `dst/b` | not executed | Downloading.ContentsSourceAsWritten, Downloading.TrailingSlashLost | Downloading.ContentsSource, Downloading.ContentsSourceFound |
| espsyncer.py:281-283 | `ilistdir` checks the header with `assert idx`, and `find` gives -1 when the header is missing, which passes | an empty reply: no header, yet it reads as an empty listing | refuse a reply whose header is missing | not executed | Transport.ItemLinesAsWritten, Transport.HeaderMissingAccepted, Transport.Syncer.Ilistdir | Transport.ItemLines, Transport.ItemLinesSplit |
