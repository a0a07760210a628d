# Honeypot core: a verified model

The repository bundles honeypot software. This project models the parts of it whose behaviour is
hardest to see from the code, as Dafny modules, and proves what those parts promise.

| files | what they model |
|---|---|
| `FsTree`, `Filesystem`, `FilesystemCases`, `Paths`, `PyStrings` | Cowrie's virtual filesystem: a tree of mutable nodes on the heap, two independent lookups, the operations that edit it in place with Python's `list.remove`, the path normaliser and the glob |
| `Shlex`, `ShellWords` | Cowrie's shell lexer with pushback, `split` and `quote`, and a printer of words and lines that it is proved against |
| `Pool`, `PoolRuns`, `PoolCases`, `Network` | the VM pool: guests as mutable objects, the producer's phases, clients that request, free and reuse guests, and the table of addresses |
| `Hpfeeds`, `TtyLog`, `PoolWire`, `Struct` | three framed formats over fixed-width integers |
| `P0f`, `NmapOptions`, `Numerals` | OSfooler: building a packet from a passive fingerprint and recognising it again, and the option strings of the nmap database |
| `AuthRandom`, `Tail` | the login policy with its shared cache, and the block-wise `tail` |

How the parts are modelled:

- The filesystem is a heap of `Inode` objects. The ghost field `at` maps each key (the list of names
  from the root) to the object there, and `Valid` says that this index is exact: sibling names differ,
  nothing is shared and there is no cycle. Every operation states the new index, which list changed
  and to what, and that all other nodes are untouched. `FsTree` proves the surgery on snapshots of the
  heap. Equality of nodes is Python's deep `==`, decided by two mutually recursive methods, and
  `list.remove` takes out the first equal entry; that this is the intended entry is proved.
- The lexer is one pure `Turn` function (one pass through the loop of `read_token`), and the class
  `Shlex` runs it on its fields. The laws are about what repeated calls return. `ShellWords` prints words
  and lines from their parts, independently of the lexer, and proves that they are read back.
- A guest of the pool has a `Row` of the fields that change. The ghost field `owed` counts, guest by
  guest, the requests that no free or reuse has answered yet, and `lastFreed` is the history of the times at
  which guests were last freed. Each producer phase and each client call
  is one atomic step.
- Random draws, clocks, the answers of the host and of the network are parameters, arbitrary within
  the range the code draws them from. `:|` stands for a draw whose value does not matter.

- The repository spans Python 2 and 3. `Hpfeeds` and `Tail` take the Python 2 meaning of `buffer` and of
  seeking in a text file, which Python 3 refuses; `P0f` and `NmapOptions` are Python 2 programs.
  `PoolWire` takes the Python 3 meaning of bytes, which the server needs. `AuthRandom` has both: on
  Python 2 a login is a `str`, on Python 3 the callers pass bytes, whose `str` is another text. The other
  modules mean the same in both.

Where the code does not do what one would expect, the code is kept, the exact condition is proved, and
a concrete case is given:

- The two lookups walk the same pieces exactly on paths without an empty inner piece (`LookupsAgree`);
  `//` is the root for one of them only (`LookupsDiffer`). On other paths `remove` may take out an equal
  entry elsewhere (`Remove`, `TwinIsNode`).
- `rename` takes the node out before it looks for the new parent, so the whole subtree is lost exactly
  when the new parent is missing or lies below the node itself (`Rename`, `RenameMeaning`), as by
  `rename("/a", "/a/b")` (`RenameIntoItself`). When `list.remove` takes out an equal entry elsewhere,
  the node is renamed where it is and listed twice (`Rename`, `MovesMeaning`).
- The glob looks directories up by their text, which skips empty names. It finds exactly the matching
  paths if and only if that makes no difference behind an empty name (`GlobAny`, `GlobExact`); after
  `rename("/a", "//")` the pattern `/*/*` finds `//`, which is not there, and not the file that is
  (`GlobThroughEmptyName`).
- `mkdir` does not check whether the name is taken; then, and only then, the parent ends up with two
  entries of one name (`Mkdir`), as after two calls with `/a` (`MkdirTwice`).
- `reuse_vm` does not forget the client it came from (`ReuseIsolation`): request, reuse and a request
  from elsewhere give a guest two clients although guests are not shared (`TwoClients`). It can also
  leave a guest in use by nobody (`LeftUsing`, `InUseByNobody`), and a release can bring a destroyed guest
  back, which is then given out (`Revived`, `GivenOutDead`).
- Guest ids repeat: two guests share one exactly when their numbers differ by a multiple of 252
  (`SharedId`), as in the first refill of a pool of 253 (`SharedIds`). A release changes the first listed
  guest with its id, which is a miscount exactly when that is not the guest meant (`Release`).
- A packet built from a fingerprint is recognised exactly when the texts of the fingerprint have no
  leading zeros (`LeadingZero`), no `T` meets a zero uptime (`ZeroUptime`), and the window is not shown in
  terms of the MSS although the fingerprint gives a number (`NumericWindow`; `OptionsRecognised`,
  `WindowRecognised`, `AllWindowsRecognised`). It can be sent exactly when its window fits the field
  (`FitsExactly`).
- An address that the cache let in at its first visit gets in at the next one with anything
  (`AnybodyAfterTheCache`); who else gets in again is stated in `Returns`. The login as passed is compared
  with the `str` on record, so that one passed as bytes never gets in again, outside the cache
  (`BytesNeverReturn`), not even with the same bytes at once (`SameBytesAgain`).
- Packing as many bytes of a text as it has characters cuts it off exactly if it is not ASCII
  (`FieldWhole`).
- `mkfile` refuses by the text of the directory, so `/system` counts as special (`SystemIsSpecial`).
- `tail` of zero lines returns lines (`TailOf`).

## Model

| member | source | states |
|---|---|---|
| `PyStrings.SplitJoin` | cowrie/src/cowrie/shell/fs.py:120-143 | splitting at a separator undoes joining separator-free pieces, which is what lets a path stand for its components |
| `PyStrings.PiecesDirBase` | cowrie/src/cowrie/shell/fs.py:278-284 | the non-empty pieces of any path are those of its dirname followed by its basename, if that is not empty |
| `PyStrings.DirnameOf` | cowrie/src/cowrie/shell/fs.py:278-284 | dirname and basename of a path whose name stands behind a directory, the root or nothing |
| `PyStrings.StripIs` | cowrie/src/cowrie/shell/fs.py:219-228 | stripping takes away exactly the characters at both ends |
| `FsTree.PruneTree` | cowrie/src/cowrie/shell/fs.py:473-478 | deleting a node's one entry from its parent's list leaves exactly the tree without that subtree |
| `FsTree.GraftTree` | cowrie/src/cowrie/shell/fs.py:500-501 | appending the root of a separate tree under a free name gives exactly the tree with that subtree added |
| `FsTree.MoveIndex` | cowrie/src/cowrie/shell/fs.py:491-502 | taking a subtree out and hanging it elsewhere moves every node below it and no other node |
| `FsTree.SameUp` | cowrie/src/cowrie/shell/fs.py:478 | two nodes whose own fields agree and whose entries agree name by name are equal all the way down |
| `FsTree.NotSameAsChild` | cowrie/src/cowrie/shell/fs.py:473-478 | no node is equal to one of its own entries, however much they look alike |
| `FsTree.OnlyItself` | cowrie/src/cowrie/shell/fs.py:473-478 | in its parent's list a node is equal to itself only, so removal by equality cannot hit another entry |
| `FsTree.FindIndexed` | cowrie/src/cowrie/shell/fs.py:173-192 | the first-match lookup, defined for any heap, gives in a tree what the index says |
| `Filesystem.PathKeys` | cowrie/src/cowrie/shell/fs.py:173-192 | on a path without empty inner pieces both lookups, dirname and basename speak of one entry |
| `Filesystem.LookupsAgree` | cowrie/src/cowrie/shell/fs.py:219-248 | the two lookups walk the same pieces exactly on paths without an empty one; in a tree without empty names `getfile` finds a node exactly when `get_path` does on such a path |
| `Filesystem.LookupsDiffer` | cowrie/src/cowrie/shell/fs.py:219-248 | the path `//` is found by `get_path` and not by `getfile` |
| `Filesystem.CanonicalKeys` | cowrie/src/cowrie/shell/fs.py:173-192 | on a normalised path all operations mean the same key |
| `Filesystem.FileKeyJoins` | cowrie/src/cowrie/shell/fs.py:219-228 | the pieces that `getfile` walks, joined again, are the path without the slashes at its ends |
| `Filesystem.HoneyPotFilesystem.FirstNamed` | cowrie/src/cowrie/shell/fs.py:182-189 | the first entry of the name, or none |
| `Filesystem.HoneyPotFilesystem.LastNamed` | cowrie/src/cowrie/shell/fs.py:228-246 | the last entry of the name, or none |
| `Filesystem.HoneyPotFilesystem.LookUp` | cowrie/src/cowrie/shell/fs.py:173-192 | in any heap, tree or not, the loop over the non-empty pieces follows the first entry of each name |
| `Filesystem.HoneyPotFilesystem.GetPath` | cowrie/src/cowrie/shell/fs.py:173-192 | in a tree the lookup gives the node indexed at the non-empty pieces, and fails exactly when there is none |
| `Filesystem.HoneyPotFilesystem.GetFile` | cowrie/src/cowrie/shell/fs.py:219-248 | the loop gives the node indexed at all pieces of the stripped path, empty ones included, and fails exactly when there is none |
| `Filesystem.HoneyPotFilesystem.Equal` | cowrie/src/cowrie/shell/fs.py:478 | Python's == on two nodes holds exactly when the two subtrees have the same keys, fields and order of entries |
| `Filesystem.HoneyPotFilesystem.ListRemove` | cowrie/src/cowrie/shell/fs.py:478 | `list.remove` deletes the first equal entry and fails, changing nothing, when there is none |
| `Filesystem.HoneyPotFilesystem.RemoveTwin` | cowrie/src/cowrie/shell/fs.py:478 | on any two nodes: deletes the one entry that has the name of the other node, if the two are equal, and fails with nothing changed otherwise |
| `Filesystem.HoneyPotFilesystem.RemoveEntry` | cowrie/src/cowrie/shell/fs.py:286 | removing a listed node by equality deletes that node and no other, and leaves a tree without its subtree |
| `Filesystem.HoneyPotFilesystem.TwinIsNode` | cowrie/src/cowrie/shell/fs.py:473-478 | on a path without empty pieces the entry that `remove` and `rename` take out is the node that `getfile` found; there is none exactly for a path that ends in a slash |
| `Filesystem.HoneyPotFilesystem.Append` | cowrie/src/cowrie/shell/fs.py:287 | appending a tree's root keeps an exact index exactly when the name was free, and otherwise leaves two entries of one name |
| `Filesystem.HoneyPotFilesystem.Replace` | cowrie/src/cowrie/shell/fs.py:285-287 | the entry of that name, whatever it is, goes with everything below it, and a new file takes the name |
| `Filesystem.HoneyPotFilesystem.Mkfile` | cowrie/src/cowrie/shell/fs.py:273-289 | the outcome for every input, the new node, the one list that changed, and an exact index afterwards |
| `Filesystem.SpecialMeaning` | cowrie/src/cowrie/shell/fs.py:278-280 | the directories that are refused are those whose text starts with one of three texts |
| `Filesystem.SystemIsSpecial` | cowrie/src/cowrie/shell/fs.py:278-280 | a file in `/system` is refused, and one in `/home` is not |
| `Filesystem.HoneyPotFilesystem.Mkdir` | cowrie/src/cowrie/shell/fs.py:291-304 | the outcome for every input; the tree keeps its index exactly when the name was free |
| `Filesystem.HoneyPotFilesystem.MkdirMeans` | cowrie/src/cowrie/shell/fs.py:291-304 | the new entry is the one that the path means elsewhere, except that behind a slash at the end of the path it has the empty name |
| `Filesystem.HoneyPotFilesystem.Mkdir2` | cowrie/src/cowrie/shell/fs.py:425-432 | as `mkdir`, but a path that `getfile` finds is refused with nothing changed |
| `Filesystem.HoneyPotFilesystem.Remove` | cowrie/src/cowrie/shell/fs.py:473-478 | the outcome for every path and tree, error by error; what goes is the entry of the node's name in the directory that `get_path` finds, if it is equal to the node, with its subtree, and nothing else; without empty pieces that is the node itself |
| `Filesystem.HoneyPotFilesystem.Rmdir` | cowrie/src/cowrie/shell/fs.py:434-450 | the outcome for every path and tree, error by error; what goes is exactly one key, that of the empty node that `get_path` finds; the search of the parent's list never comes up empty |
| `Filesystem.HoneyPotFilesystem.Rename` | cowrie/src/cowrie/shell/fs.py:491-502 | for every tree and every two paths: the outcome, error by error, and every list and name afterwards; the new parent is what the lookup finds in the heap between removal and append; if the entry taken out is the node itself, which it is on an old path without empty pieces, the subtree moves as a whole or is lost |
| `Filesystem.HoneyPotFilesystem.MovesMeaning` | cowrie/src/cowrie/shell/fs.py:499-501 | node by node: one list has lost the entry taken out, one node has the new name, the list of the new parent ends in that node, and nothing else has changed |
| `Filesystem.RenameMeaning` | cowrie/src/cowrie/shell/fs.py:491-502 | given both parents, the subtree is lost exactly when the new key lies below the old one; else the same nodes sit below the new key, none below the old one, and every other key is as before |
| `Filesystem.HoneyPotFilesystem.Listdir` | cowrie/src/cowrie/shell/fs.py:504-506 | the names in order, or the error exactly when the path is not found |
| `Filesystem.Run` | cowrie/src/cowrie/shell/fs.py:273-502 | any run of mkfile, mkdir2, rmdir, remove and rename on normalised paths, the root included and failing calls included, keeps sibling names different, the index exact and the names free of slashes; and free of empty names unless a file is made at the root |
| `FilesystemCases.RenameIntoItself` | cowrie/src/cowrie/shell/fs.py:491-502 | on a new filesystem with the directory `/a`, `rename` of `/a` to `/a/b` raises and leaves the root alone |
| `FilesystemCases.MkdirTwice` | cowrie/src/cowrie/shell/fs.py:291-304 | two `mkdir` calls on `/a` leave two different entries of that name; the first-match scan finds one and the last-match scan the other |
| `FilesystemCases.GlobThroughEmptyName` | cowrie/src/cowrie/shell/fs.py:145-171 | after a directory with a file has got the empty name, the glob of two levels answers with a path that is not there instead of the file |
| `Paths.ResolvePath` | cowrie/src/cowrie/shell/fs.py:120-143 | the stack loop computes the walk over the pieces, whose answer for every path is fixed by the next four rows; the empty path raises |
| `Paths.ResolveByPiece` | cowrie/src/cowrie/shell/fs.py:133-141 | one more piece behind any path: a name goes behind the components, `..` takes the last one away if there is one, `.` and the empty piece change nothing |
| `Paths.ResolveStart` | cowrie/src/cowrie/shell/fs.py:126-131 | one piece alone starts from the working directory, and an absolute path from the root |
| `Paths.ResolveUps` | cowrie/src/cowrie/shell/fs.py:133-141 | clean names and then `n` times `..` give the components of the start and the names without the last `n`, or nothing if there are not so many |
| `Paths.ResolvedClean` | cowrie/src/cowrie/shell/fs.py:120-143 | the result is absolute without empty, `.` or `..` components, and has exactly the components walked to |
| `Paths.ResolveIdempotent` | cowrie/src/cowrie/shell/fs.py:120-143 | resolving a result again, from anywhere, changes nothing |
| `Paths.ResolveComposes` | cowrie/src/cowrie/shell/fs.py:120-143 | resolving `p/q` is resolving `q` from where `p` leads |
| `Paths.GlobAny` | cowrie/src/cowrie/shell/fs.py:157-169 | in every tree, without dot pieces, the glob finds exactly the keys that match piece by piece and are listed where the text of the names before leads, each once |
| `Paths.GlobDots` | cowrie/src/cowrie/shell/fs.py:157-163 | `.` in front of a pattern changes nothing, and with `..` in front the rest finds what it finds from the directory above, which for the root is the root |
| `Paths.GlobThereAndBack` | cowrie/src/cowrie/shell/fs.py:157-169 | a name piece followed by `..` finds what the rest finds from the same directory, once for every entry that the piece takes |
| `Paths.GlobExact` | cowrie/src/cowrie/shell/fs.py:157-169 | without dot pieces the glob finds exactly the existing keys that match piece by piece, each once, if and only if directories with an empty name on the way are harmless |
| `Paths.SteadyHarmless` | cowrie/src/cowrie/shell/fs.py:157-169 | they are in a tree without empty names, and where no piece but the last matches the empty name |
| `Paths.GlobTexts` | cowrie/src/cowrie/shell/fs.py:145-171 | the returned path texts are exactly the paths of the existing nodes that match piece by piece, under the same condition, and never twice |
| `Paths.Foo` | cowrie/src/cowrie/shell/fs.py:157-169 | the recursive search, which resolves every level from the root again by its text, appends exactly the expansion of its pattern, in any tree whose names hold no slash; what the expansion is, is stated by `GlobAny`, `GlobDots` and `GlobThereAndBack` |
| `Paths.ResolvePathWc` | cowrie/src/cowrie/shell/fs.py:145-171 | the texts of the expansion, from the root for an absolute pattern and from the working directory otherwise |
| `Paths.GlobStartMeaning` | cowrie/src/cowrie/shell/fs.py:145-155 | which pieces are searched and from where: an absolute pattern from the root, a relative one from the working directory, slashes at the end ignored |
| `Shlex.TurnLighter` | cowrie/src/cowrie/shell/shlex.py:141-270 | every turn of the loop that goes on leaves less to read, although characters are pushed back |
| `Shlex.ReadProgress` | cowrie/src/cowrie/shell/shlex.py:141-280 | a call never leaves more than it found, strictly less when it returns a token, at most one character pushed back, and state and token reset |
| `Shlex.QuotedRun` | cowrie/src/cowrie/shell/shlex.py:192-210 | inside single quotes everything that `quote` wrote comes back literally, the quotes it had to break out of included |
| `Shlex.ReadQuoted` | cowrie/src/cowrie/shell/shlex.py:324-335 | a quoted string followed by a blank or the end is read as one token, and nothing else is consumed |
| `Shlex.SplitUndoesQuote` | cowrie/src/cowrie/shell/shlex.py:312-335 | splitting the quoted strings joined by blanks gives the list of strings back, for every list, with comments on or off |
| `Shlex.LexerRefinesRuns` | cowrie/src/cowrie/shell/shlex.py:141-280 | in punctuation mode the lexer equals a reference tokeniser of longest runs, on input without quotes, escapes and comments; also when a character is both of words and of punctuation, where a word goes on and a run does not start |
| `Shlex.RunsConserve` | cowrie/src/cowrie/shell/shlex.py:141-280 | the runs in order are the text without its blanks, and each is of one character class |
| `Shlex.PunctuationModeConserves` | cowrie/src/cowrie/shell/shlex.py:28-73 | with `punctuation_chars=True` the tokens are the longest runs and, in order, the text without its blanks: no character is lost, invented or reordered |
| `Shlex.ShellConserves` | cowrie/src/cowrie/shell/honeypot.py:38-42 | the same with the lexer of the shell, whose word characters include the parentheses that are punctuation, too |
| `Shlex.ShellClasses` | cowrie/src/cowrie/shell/honeypot.py:38-42 | the three classes of that lexer, character by character |
| `Shlex.SpecialCharacters` | cowrie/src/cowrie/shell/shlex.py:28-73 | blanks, quotes and the escape character by their codes |
| `Shlex.QuoteMeaning` | cowrie/src/cowrie/shell/shlex.py:324-335 | a text of safe characters stays, the empty text becomes two quotes, any other goes in single quotes |
| `ShellWords.ReadInner` | cowrie/src/cowrie/shell/shlex.py:192-222 | inside double quotes a backslash goes before `"` and before a backslash and stays before everything else, up to the closing quote |
| `ShellWords.ReadWord` | cowrie/src/cowrie/shell/shlex.py:192-270 | a word printed as any sequence of bare text, single-quoted text, double-quoted text with backslashes, and escaped characters is read up to its end as the concatenation of what its parts mean |
| `ShellWords.ReadItem` | cowrie/src/cowrie/shell/shlex.py:141-280 | a word, a run of punctuation with a word behind it, or a character that stands alone, each followed by something that ends it, is read as one token, from any place between two calls, and nothing behind it is lost |
| `ShellWords.LineIsRead` | cowrie/src/cowrie/shell/shlex.py:299-306 | a line put together from such tokens, blanks and comments gives exactly the tokens, in order; a comment runs to the end of its line and no further |
| `ShellWords.ShellLineIsRead` | cowrie/src/cowrie/shell/honeypot.py:38-42 | so it does for the lexer of the shell |
| `ShellWords.SplitLineIsRead` | cowrie/src/cowrie/shell/shlex.py:312-317 | and for `split`, with comments on or off |
| `ShellWords.DoubleQuotedIsRead` | cowrie/src/cowrie/shell/shlex.py:192-222 | one double-quoted text is one token, whatever it holds |
| `ShellWords.BackslashStays` | cowrie/src/cowrie/shell/shlex.py:211-222 | `"\x41"` is read with its backslash |
| `ShellWords.SkipPiece` | cowrie/src/cowrie/shell/shlex.py:156-170 | a blank or a comment between two tokens is passed over, and what follows is read as from the start |
| `ShellWords.BreaksOff` | cowrie/src/cowrie/shell/shlex.py:192-215 | a word that breaks off inside quotes or behind a backslash raises, with the error that belongs to it |
| `ShellWords.WordThenOdd` | cowrie/src/cowrie/shell/shlex.py:240-270 | without punctuation characters, a character that belongs to no class ends the word and is the next token |
| `Shlex.Shlex.ReadToken` | cowrie/src/cowrie/shell/shlex.py:141-280 | the loop over the fields returns and leaves exactly what `Read` says, on an error as well |
| `Shlex.Shlex.GetToken` | cowrie/src/cowrie/shell/shlex.py:107-139 | a pushed-back token comes first; otherwise one call of `read_token`; from any state, also one left by an error |
| `Shlex.Shlex.ToList` | cowrie/src/cowrie/shell/shlex.py:299-306 | iteration ends and collects all tokens, or ends at the first error; on every lexer object, also one that an error has left inside quotes |
| `Shlex.Split` | cowrie/src/cowrie/shell/shlex.py:312-317 | `split` on a fresh lexer object, so that the round trip holds of it |
| `Pool.RequestedOk` | cowrie/src/backend_pool/pool_service.py:343-368 | a request keeps a guest's invariant with one more unanswered request, and isolation if the guest was new or served the client |
| `Pool.FreedOk` | cowrie/src/backend_pool/pool_service.py:370-382 | answering a request through `free_vm` keeps a guest's invariant and its isolation, also when the guest was marked unavailable meanwhile |
| `Pool.ReusedOk` | cowrie/src/backend_pool/pool_service.py:384-397 | answering a request through `reuse_vm` keeps a guest's invariant; there is always a state to go back to, and it is never destroyed |
| `Pool.ReuseUndoes` | cowrie/src/backend_pool/pool_service.py:363-397 | `reuse_vm` undoes a request, except that the client is remembered: its only client leaves the guest as it was found, and otherwise one connection is given back |
| `Pool.Revived` | cowrie/src/backend_pool/pool_service.py:370-397 | when a guest was destroyed while clients were connected, the last of them to leave brings it back to life, as used or as what it was before, and no other does |
| `Pool.LeftUsing` | cowrie/src/backend_pool/pool_service.py:384-397 | `reuse_vm` leaves a guest in state using without a client exactly when the last request found it in that state and nobody else is connected |
| `Pool.ReuseIsolation` | cowrie/src/backend_pool/pool_service.py:384-397 | `reuse_vm` breaks isolation exactly when a guest that served a client becomes available again |
| `Pool.LeftOneMore` | cowrie/src/backend_pool/pool_service.py:219-226 | deleting the next destroyed guest at its position gives the list without it |
| `Pool.PoolService.RequestVm` | cowrie/src/backend_pool/pool_service.py:343-368 | who gets which guest: the first that served the client, else the first available, else if shared the first of the least busy; fails exactly when there is none, and stops the pool if one had been up; no other guest changes |
| `Pool.PoolService.PreferredOrder` | cowrie/src/backend_pool/pool_service.py:343-352 | a client with a guest goes back to one, anybody else gets an available one while there is one, and only then, with sharing, one of the least busy |
| `Pool.PoolService.AnyGuest` | cowrie/src/backend_pool/pool_service.py:327-341 | the first of the guests with the fewest clients |
| `Pool.PoolService.FreeVm` | cowrie/src/backend_pool/pool_service.py:370-382 | for every id: the first listed guest with it is freed, nobody if there is none, and no other guest changes; the history of releases gets the time of the call for that guest |
| `Pool.PoolService.ReuseVm` | cowrie/src/backend_pool/pool_service.py:384-397 | for every id: the first listed guest with it goes back to the state it was requested in when its last client leaves; no other guest changes |
| `Pool.PoolService.Release` | cowrie/src/backend_pool/pool_server.py:89-119 | for every id and every client or none: the account of connections stays right, and the whole invariant, exactly if the first listed guest with the id is the one meant, or nobody has the id; the history of releases changes for a `free_vm` only |
| `Pool.PoolService.SharedId` | cowrie/src/backend_pool/pool_service.py:272-276 | two listed guests share an id exactly when their serial numbers differ by a multiple of 252 |
| `Pool.PoolService.ExistingPoolSize` | cowrie/src/backend_pool/pool_service.py:139-140 | the number of guests that are not destroyed |
| `Pool.LiveCountIs` | cowrie/src/backend_pool/pool_service.py:139-140 | that number counts the places in the list whose guest is not destroyed |
| `Pool.PoolService.MarkTimedOut` | cowrie/src/backend_pool/pool_service.py:163-185 | marks exactly the used guests whose last release, by the history of the calls, was more than the timeout ago; none of them has a client or an unanswered request |
| `Pool.PoolService.DestroyTimedOut` | cowrie/src/backend_pool/pool_service.py:207-217 | destroys exactly the unavailable guests whose destruction does not fail |
| `Pool.PoolService.CheckHealth` | cowrie/src/backend_pool/pool_service.py:187-205 | marks exactly the usable guests that do not answer |
| `Pool.PoolService.RemoveDestroyed` | cowrie/src/backend_pool/pool_service.py:219-226 | removal by dict equality leaves exactly the guests that are not destroyed, in order |
| `Pool.PoolService.GetMacIp` | cowrie/src/backend_pool/libvirt/backend_service.py:69-83 | the first of 500 picks with a free address; fails exactly when all of them are taken |
| `Pool.PoolService.CreateGuest` | cowrie/src/backend_pool/pool_service.py:255-276 | one more guest with a free address of the table, the next serial number and its id, in state created; fails exactly when the host gets no guest up or all picks are taken |
| `Pool.PoolService.CreateGuests` | cowrie/src/backend_pool/pool_service.py:249-276 | fills the pool up to its limit with new guests behind the old ones, or stops at the first failure of the host |
| `Pool.PoolService.MarkAvailable` | cowrie/src/backend_pool/pool_service.py:228-247 | makes exactly the booted guests available |
| `PoolRuns.Advance` | cowrie/src/backend_pool/pool_service.py:278-300 | each phase keeps the invariant and is followed by the next one, with the timeout sweep skipped for a pool of at most one; only the refill can fail |
| `PoolRuns.Disconnect` | cowrie/src/backend_pool/pool_server.py:89-119 | a client's release keeps the invariant and its one request is answered, unless the first listed guest with the id is another |
| `PoolRuns.Run` | cowrie/src/backend_pool/pool_service.py:128-397 | after any interleaving of phases, requests, releases and changes of configuration, up to a release that would be a wrong one: each guest counts its open connections; created, available and used guests have none; the list is within the limit; addresses differ and are of the table; a used guest shows the time of its last release; without sharing and reuse no guest serves two clients |
| `PoolCases.TwoClients` | cowrie/src/backend_pool/pool_service.py:343-397 | an unshared guest that was requested, reused and requested from elsewhere has served two clients |
| `PoolCases.KeptForAWhile` | cowrie/src/backend_pool/pool_service.py:163-185 | a guest freed at 1000 with a timeout of 600 is kept at every time up to 1600 and marked after that |
| `PoolCases.InUseByNobody` | cowrie/src/backend_pool/pool_service.py:343-397 | two requests from one address and two releases through `reuse_vm` leave the guest in state using without a client |
| `PoolCases.GivenOutDead` | cowrie/src/backend_pool/pool_service.py:163-382 | a guest that fails its check and is destroyed while its client is there is used again when the client leaves, and given out at the next request |
| `PoolCases.SharedIds` | cowrie/src/backend_pool/pool_service.py:249-276 | the first refill of a pool of 253 succeeds with any full table, and its first and last guest share an id, so that a release of the last one is a wrong one |
| `Network.DrawMacs` | cowrie/src/backend_pool/util.py:42-44 | 253 different MACs, all of them drawn, or nothing when the draws hold fewer than 253 |
| `Network.GenerateNetworkTable` | cowrie/src/backend_pool/util.py:31-53 | each MAC drawn gets the next address, from 2 on |
| `Network.TableIsBijection` | cowrie/src/backend_pool/util.py:46-53 | the table pairs its MACs one to one with the addresses 2 to 254 |
| `Network.MacInjective` | cowrie/src/backend_pool/util.py:27-44 | different pairs of bytes give different MACs |
| `Network.TableExample` | cowrie/src/backend_pool/util.py:27-51 | two MACs and an address as they are spelled |
| `Hpfeeds.FeedUnpack.Unpack` | cowrie/src/cowrie/output/hpfeeds.py:106-119 | one message off the front of the buffer, or the buffer unchanged and the reason |
| `Hpfeeds.FeedUnpack.Drain` | cowrie/src/cowrie/output/hpfeeds.py:94-119 | iterating gives all complete messages and leaves the rest |
| `Hpfeeds.FeedUnpack.Receive` | cowrie/src/cowrie/output/hpfeeds.py:103-119 | feeding chunk by chunk gives what the whole stream gives |
| `Hpfeeds.Limits` | cowrie/src/cowrie/output/hpfeeds.py:34-41 | the limit of every op code in bytes |
| `Hpfeeds.PublishedExample` | cowrie/src/cowrie/output/hpfeeds.py:56-76 | one publication, byte by byte |
| `Hpfeeds.ParseMore` | cowrie/src/cowrie/output/hpfeeds.py:106-119 | parsing is incremental, and final once the stream is bad |
| `Hpfeeds.ParseEncode` | cowrie/src/cowrie/output/hpfeeds.py:71-119 | the unpacker undoes `msghdr` on every list of messages within their limits |
| `Hpfeeds.Transmit` | cowrie/src/cowrie/output/hpfeeds.py:71-119 | for every way to cut the stream into chunks exactly the messages sent arrive, in order, with an empty buffer |
| `Hpfeeds.OversizeStops` | cowrie/src/cowrie/output/hpfeeds.py:111-112 | a message beyond its limit is never delivered and ends the stream, after all earlier messages |
| `Hpfeeds.PublishSplits` | cowrie/src/cowrie/output/hpfeeds.py:56-76 | a publish body can be built exactly when ident and channel have at most 255 bytes, and splits back into its three parts |
| `Hpfeeds.PublishableExactly` | cowrie/src/cowrie/output/hpfeeds.py:34-76 | what can be built and keeps the receiver's limit: ident and channel of at most 255 bytes, and a body within 1 MB |
| `Hpfeeds.Deliver` | cowrie/src/cowrie/output/hpfeeds.py:56-119 | for every list of publications and every way to cut the stream, exactly their idents, channels and payloads arrive, in order |
| `TtyLog.LogFile.Append` | cowrie/src/cowrie/core/ttylog.py:19-56 | each call appends one record and its data |
| `TtyLog.RecordBytes` | cowrie/src/cowrie/core/ttylog.py:19-56 | what each call writes, with the numbers of its op code in place |
| `TtyLog.HeaderFields` | cowrie/src/cowrie/core/ttylog.py:19-56 | the six fields of a header at their offsets, in little-endian order |
| `TtyLog.LittleEndian` | cowrie/src/cowrie/core/ttylog.py:16-28 | the bytes of a number, the least significant first, modulo 2 to the 32 |
| `TtyLog.InputBytes` | cowrie/src/cowrie/core/ttylog.py:59-79 | the reading loop over any file collects what `Collect` says, truncated and malformed files included |
| `TtyLog.CollectWritten` | cowrie/src/cowrie/core/ttylog.py:68-79 | one record in front adds exactly its data if it is not output, and the rest is read from its end |
| `TtyLog.ReadBackInputs` | cowrie/src/cowrie/core/ttylog.py:19-82 | reading a log back gives the data of the non-output writes in order, whatever bytes it holds |
| `TtyLog.OnlyOutputLeftOut` | cowrie/src/cowrie/core/ttylog.py:68-79 | of what is written only direction 2, the output, is left out |
| `TtyLog.BrokenRecord` | cowrie/src/cowrie/core/ttylog.py:68-79 | of a record whose data is broken off what is there is kept, and a length of -1 takes all the rest |
| `TtyLog.NegativeLength` | cowrie/src/cowrie/core/ttylog.py:73 | any other negative length raises |
| `TtyLog.Session` | cowrie/src/cowrie/core/ttylog.py:19-82 | what is read back after open, any writes and close is exactly the data of the non-output writes |
| `PoolWire.FieldWhole` | cowrie/src/cowrie/pool_interface/client.py:40-41 | a text packed into as many bytes as it has characters is whole exactly if it is ASCII |
| `PoolWire.CharBytesMeaning` | cowrie/src/cowrie/pool_interface/client.py:40-41 | the UTF-8 bytes of a character decode to its code point, the first byte tells how many there are, and the others are continuation bytes |
| `PoolWire.AsciiBytes` | cowrie/src/cowrie/pool_interface/client.py:40-41 | an ASCII text is sent as the codes of its characters |
| `PoolWire.Encodable` | cowrie/src/cowrie/pool_interface/client.py:28-50 | what can be sent: numbers of 32 and 16 bits and texts of at most 65535 characters |
| `Struct.NetworkOrder16` | cowrie/src/cowrie/pool_interface/client.py:85-94 | numbers of 16 bits in network order compare like their bytes |
| `Struct.NetworkOrder32` | cowrie/src/cowrie/pool_interface/client.py:36-58 | numbers of 32 bits in network order compare like their bytes |
| `PoolWire.ServerTakes` | cowrie/src/backend_pool/pool_server.py:41-119 | the layouts that the server takes, byte by byte, for all data; everything else is ignored or raises |
| `PoolWire.ClientTakes` | cowrie/src/cowrie/pool_interface/client.py:52-108 | what the client does with the op code and the status code, for all data; the guest id is remembered exactly when its four bytes have arrived |
| `PoolWire.CutShort` | cowrie/src/cowrie/pool_interface/client.py:52-108 | an answer cut short anywhere fails |
| `PoolWire.RequestRoundTrip` | cowrie/src/cowrie/pool_interface/client.py:28-50 | every request that can be packed is decoded by the server to the same request, with the bytes of its text cut to the number of its characters, which is the whole text exactly if it is ASCII |
| `PoolWire.ReplyRoundTrip` | cowrie/src/backend_pool/pool_server.py:41-87 | every reply that can be packed is decoded by the client to the same fields, texts cut likewise, with nothing left over |
| `PoolWire.ReplyExample` | cowrie/src/backend_pool/pool_server.py:41-87 | one answer, byte by byte |
| `PoolWire.PoolClient.DataReceived` | cowrie/src/cowrie/pool_interface/client.py:52-108 | the shifting buffer computes the decoder, and the guest id is set as soon as it has been read |
| `PoolWire.ReleaseNamesTheGuest` | cowrie/src/cowrie/pool_interface/client.py:45-50 | the release that a client sends is decoded by the server to the guest it was given |
| `P0f.Render` | OSfooler/osfooler_ng/module_p0f.py:136-185 | the loop over the options gives their joined texts, the window in terms of the last MSS, and the two quirks: an echoed timestamp, and bytes behind the end of options |
| `P0f.ShownExample` | OSfooler/osfooler_ng/module_p0f.py:136-177 | a packet with every kind of option, as it is shown |
| `P0f.LastMssIs` | OSfooler/osfooler_ng/module_p0f.py:136-185 | the window is shown in terms of the MSS option behind which there is no other |
| `P0f.TakenExample` | OSfooler/osfooler_ng/module_p0f.py:136-177 | the bytes that the options of each kind take up |
| `P0f.WindowExample` | OSfooler/osfooler_ng/module_p0f.py:179-185 | windows in terms of the MSS, of the MTU, and as numbers |
| `P0f.OptionPoints` | OSfooler/osfooler_ng/module_p0f.py:250-264 | all option points when the lists have one length and fit pair by pair, otherwise none, or an exception; which lists those are is stated by `PointsExactly` |
| `P0f.FitsExactlyMatches` | OSfooler/osfooler_ng/module_p0f.py:250-264 | an option of any packet fits a known text exactly when it is of its kind and its number is the one given, a multiple of the one given, or any |
| `P0f.FitsRaises` | OSfooler/osfooler_ng/module_p0f.py:250-264 | the comparison raises exactly for `%` before something that is no divisor, on an option of the same letter |
| `P0f.PointsExactly` | OSfooler/osfooler_ng/module_p0f.py:250-264 | the options of any packet earn all points exactly when they match the texts of the signature one for one, and none otherwise |
| `P0f.MatchesBuilds` | OSfooler/osfooler_ng/module_p0f.py:250-264 | an option that matches a text is shown like one that the text builds, for some uptime and range of the draw, but for numbers that are never drawn |
| `P0f.WindowPointExactly` | OSfooler/osfooler_ng/module_p0f.py:241-243 | the window of any packet earns its point exactly for `*`, its own numeral, a divisor, or its number of units, as it is shown |
| `P0f.WindowRaises` | OSfooler/osfooler_ng/module_p0f.py:241-243 | the comparison raises exactly for an empty text, and for `%` before something that is no divisor when the packet shows a number |
| `P0f.BuildOptions` | OSfooler/osfooler_ng/module_p0f.py:381-444 | raises exactly when some text cannot be read or drawn; otherwise one option per known text, numbered ones included, within the MSS bound of the window; a timestamp is echoed exactly if the signature has the quirk `T` and the option `T` |
| `P0f.BuildWindow` | OSfooler/osfooler_ng/module_p0f.py:446-463 | raises exactly for unhandled windows and `S` without an MSS; otherwise a window that the text allows |
| `P0f.OptionRecognised` | OSfooler/osfooler_ng/module_p0f.py:253-260 | an option built from a text fits that text exactly when the text is clear |
| `P0f.OptionsRecognised` | OSfooler/osfooler_ng/module_p0f.py:250-264 | an impersonating packet earns every option point exactly when all texts are known and clear, and none otherwise |
| `P0f.WindowRecognised` | OSfooler/osfooler_ng/module_p0f.py:241-243 | whether the window built from a text earns its point, from the text, the MTU and the MSS options alone; for `%n` from the number drawn |
| `P0f.FirstMssIs` | OSfooler/osfooler_ng/module_p0f.py:446-463 | the MSS that a window is built from is that of the first MSS option |
| `P0f.AllWindowsRecognised` | OSfooler/osfooler_ng/module_p0f.py:446-463 | every window that may be built from a text is recognised exactly when the text is clear; for `%n` that is when no multiple of n up to 65535 is shown in terms of the MSS |
| `P0f.UnitsRecognised` | OSfooler/osfooler_ng/module_p0f.py:386-402 | for `Sk` and one MSS the window is recognised exactly when the MSS is not zero; a drawn MSS keeps it within 16 bits, and a fixed one exactly if their product is |
| `P0f.FitsExactly` | OSfooler/osfooler_ng/module_p0f.py:446-463 | whether a built window fits its field, from the text, the MTU and the MSS |
| `P0f.LeadingZero` | OSfooler/osfooler_ng/module_p0f.py:386-402 | the signature `M01460` builds an MSS of 1460, which earns no option point |
| `P0f.ZeroUptime` | OSfooler/osfooler_ng/module_p0f.py:153-159 | the signature `T` at uptime zero builds a timestamp that earns no option point |
| `P0f.NumericWindow` | OSfooler/osfooler_ng/module_p0f.py:179-185 | the window text `5840` with an MSS of 1460 earns no window point |
| `NmapOptions.OptionsToScapy` | OSfooler/osfooler_ng/osfooler_ng.py:557-593 | the nested loops compute the scan from every position, errors included |
| `NmapOptions.NumberRead` | OSfooler/osfooler_ng/osfooler_ng.py:557-593 | a window scale or MSS is the hexadecimal number in front of the next option letter, and raises if there is none |
| `NmapOptions.TimestampFlags` | OSfooler/osfooler_ng/osfooler_ng.py:557-593 | the two characters behind a `T` are flags and are scanned again; with fewer it raises |
| `NmapOptions.OtherCharacters` | OSfooler/osfooler_ng/osfooler_ng.py:557-593 | a character that is no option letter is passed over |
| `NmapOptions.ScanExample` | OSfooler/osfooler_ng/osfooler_ng.py:557-593 | an option string of the database with every kind of option |
| `NmapOptions.ScanDigits` | OSfooler/osfooler_ng/osfooler_ng.py:559-567 | rescanning an operand finds nothing, since hexadecimal digits are no option letters |
| `NmapOptions.ScanUndoesPrint` | OSfooler/osfooler_ng/osfooler_ng.py:557-593 | parsing the concatenated texts of an option list gives the list, for every spelling of its numbers |
| `NmapOptions.ScanUndoesPrintAll` | OSfooler/osfooler_ng/osfooler_ng.py:557-593 | parsing what the canonical printer writes returns the list |
| `AuthRandom.AuthRandom.CheckLogin` | cowrie/src/cowrie/core/auth.py:157-244 | the updates in place compute the next state and the answer of `Check`, for logins and passwords passed as `str` or as bytes; what they are over whole runs is stated below, for the cache by `CacheHolds` and `LetsOthersIn`; a source address spelled `cache` raises and changes nothing |
| `AuthRandom.Bounds` | cowrie/src/cowrie/core/auth.py:117-132 | the bounds are never empty: the defaults without parameters, else the configured ones, with the maximum set to one above the minimum when they are out of order |
| `AuthRandom.TextsOnRecord` | cowrie/src/cowrie/core/auth.py:157-175 | texts as they are recorded, bytes with their prefix, and login and password joined by a colon |
| `AuthRandom.Attempt` | cowrie/src/cowrie/core/auth.py:204-232 | an attempt not in the cache is let in exactly when it is new and makes the number of different attempts the number needed |
| `AuthRandom.WaitingThroughout` | cowrie/src/cowrie/core/auth.py:175-225 | whatever other addresses do, an address not let in yet has exactly its different attempts on record, without duplicates and below its limit, which is the number drawn at its first visit |
| `AuthRandom.FirstSuccess` | cowrie/src/cowrie/core/auth.py:157-244 | in any run the first success comes exactly at the attempt that makes the different attempts as many as drawn at the first visit, between the bounds |
| `AuthRandom.CacheBoundedThroughout` | cowrie/src/cowrie/core/auth.py:226-232 | no run makes the cache longer than its bound |
| `AuthRandom.CacheStep` | cowrie/src/cowrie/core/auth.py:226-232 | exactly the attempt that reaches the needed number goes behind the others, and then the oldest goes if there is no room |
| `AuthRandom.CacheHolds` | cowrie/src/cowrie/core/auth.py:226-232 | in any run from an empty cache on, it holds in order exactly the last combinations that let an address in by its own attempts, as many as it has room for |
| `AuthRandom.LetsOthersIn` | cowrie/src/cowrie/core/auth.py:176-187 | a combination that let one address in is answered by the cache for every address, exactly until as many later ones have followed as there is room for; after that a new address that needs two attempts is refused |
| `AuthRandom.Returns` | cowrie/src/cowrie/core/auth.py:175-242 | who gets in after a success, when the cache does not answer: a login that is the `str` of the earlier one, with the same password, unless the combination failed before; and anybody if the cache had let in an address without tries |
| `AuthRandom.ComparedCounts` | cowrie/src/cowrie/core/auth.py:218-242 | a login compared with the one on record counts as a try and leaves the rest of the record alone |
| `AuthRandom.LostRecord` | cowrie/src/cowrie/core/auth.py:233-238 | an address whose record has lost its login or password starts again, with the visit as its first attempt |
| `AuthRandom.AnybodyAfterTheCache` | cowrie/src/cowrie/core/auth.py:176-187 | a new address with a cached combination gets in, and then gets in with any other |
| `AuthRandom.ComesBack` | cowrie/src/cowrie/core/auth.py:233-242 | from the first success on, such a repetition and, outside the cache, nothing else lets the address in again, until the cache lets it in with another combination |
| `AuthRandom.PastOnceIn` | cowrie/src/cowrie/core/auth.py:175-242 | whoever got in has used up the attempts needed, except an address without tries that the cache let in |
| `AuthRandom.BytesNeverReturn` | cowrie/src/cowrie/core/auth.py:233-242 | in any run, an address past its first success that logs in with bytes never gets in again unless the cache answers |
| `AuthRandom.SameBytesAgain` | cowrie/src/cowrie/core/auth.py:226-242 | with one attempt needed and no cache, the same bytes twice from a new address get in once |
| `Tail.LinesMeaning` | cowrie/src/cowrie/core/utils.py:57 | the lines make up the text, and a newline is exactly the end of a line |
| `Tail.FrontDoesNotMatter` | cowrie/src/cowrie/core/utils.py:51-58 | text in front of a suffix with more than `n` lines does not change the last `n` lines |
| `Tail.TailOf` | cowrie/src/cowrie/core/utils.py:44-58 | the backward block scan gives the last `n` lines of the whole file for every `n >= 1` |
| `Tail.LastOfIs` | cowrie/src/cowrie/core/utils.py:57 | the last `n` lines are `n` of them, or all if there are fewer, and stand at the end |

## Left out

- HoneyPotFilesystem: symbolic links (following them may not end), real-file backing, open, write, close, chmod, chown, utime and the pickle; the model starts from an empty root and any tree with an exact index.
- Run: the run of the filesystem is over normalised paths and over `mkdir2`, not `mkdir`, which can break the index; the run of the pool ends at a wrong release.
- Mkfile: the time that a missing `ctime` stands for is a parameter.
- ResolvePathWc: `fnmatch` is a parameter, an arbitrary predicate on a name and a pattern; names hold no slash, which `Run` keeps.
- Foo: names hold no slash, which `Run` keeps.
- GlobAny: for patterns without dot pieces; what a dot piece does is stated one piece at a time (`GlobDots`, `GlobThereAndBack`).
- Quote: what `\w` takes beyond ASCII is a parameter.
- Shlex: non-posix mode, source stacking, line numbers and debug output; characters are one to one with what the stream's `read(1)` gives.
- LexerRefinesRuns: for input without quote, escape and comment characters; lines with these are the subject of `LineIsRead`.
- Release: the clock is not negative.
- RequestVm: what stopping does beyond ending the producer between two rounds; restart, shutdown and the NAT tables are not modelled.
- CreateGuest: a host that is not ready and one that fails to start a domain are the same failure.
- PoolRuns: each phase and each client call is one step; threads that interleave within a phase, and calls on a list that is being refilled, are not modelled.
- GenerateNetworkTable: the order in which Python iterates over the set of MACs is arbitrary; the random generator and its seed are a list of drawn pairs.
- Unpack: a header that announces fewer than its own five bytes is answered with Short; what the original does with it depends on the Python version.
- Hpfeeds: the socket client, authentication and subscription.
- InputBytes: the SHA-256 sum is not computed; the result is the bytes it is taken of. The record is taken with four-byte longs and no padding, as the format prefix says, and stamps are whole seconds and microseconds.
- PoolWire: the server's decoding of an address back to text; each message arrives in one piece, as the original assumes.
- Parse: signs, blanks, underscores and the `0x` prefix that Python's `int` also takes.
- BuildOptions: numbered options `?n` whose number is that of an option with a letter; what Scapy's option table does with other numbers that it names (Scapy is not part of this model); and the other fields of the packet; quirks only where they decide on the timestamp echo.
- Render: of the quirks only those that the options decide on.
- OptionPoints: the points for the other four fields of a signature.
- WindowPoint: `isdigit` is taken to mean decimal digits.
- OptionsToScapy: as Parse.
- CheckLogin: the JSON file.
- TailOf: a file is a text of one-byte characters.
- Everything else of the repository, such as the fake commands, output plugins, transports and other honeypots, is left out because it is plumbing or fixed text.
