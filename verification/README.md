# Verified model of MacPorts base

MacPorts base is a package manager written in Tcl with C helpers. This project models the C helpers that hold
algorithms and state of their own, and proves what they promise. Every file is Dafny 4.11; `dafny verify dfyconfig.toml`
checks the whole project.

Where the C code updates things in place, the model does too: entries, hash map buckets and memory slots are objects and
arrays, and loops carry invariants. Each such method is proved against a specification on values, and the laws are proved
about the specification.

- **filemap** (`CaseFold`, `FileTree`, `FileTreeMap`, `FileTreeCanon`, `FileTreeList`, `FileTreeSpelling`,
  `FileTreeStore`, `FileTreeCursor`, `FileTreeLimit`, `FileMap`, `FileMapRuns`). A tree of case-insensitively sorted
  children, keyed by path. The tree refines a finite map over every run of Set and Delete; it is canonical, so equal
  maps mean equal trees; List is exact; saving and loading are inverse in both directions, and a saved file of any size
  loads exactly under a stated condition. `FileMap.Entry` is the linked structure that the C functions update.
- **setmode** (`ModeCommands`, `ModeCompiler`, `ModeMeaning`, `ModeBits`, `ModeOctal`, `ModeParser`). Symbolic modes are
  compiled to bit commands, optimized in place and interpreted. A reference meaning of the syntax is given
  independently; compiling, optimizing and interpreting is proved equal to it, and the meaning is stated bit by bit. The
  accepted language is characterized, octal modes included.
- **SHA-256 and RIPEMD-160 streaming** (`BlockHash`, `Sha256`, `Sha256Transform`, `Sha256Stream`, `Sha256Vector`,
  `Rmd160`). Both SHA-256 transforms, with their schedule rolling through the context's own buffer, compute section
  6.2.2 of FIPS 180-4, and the digest does not depend on how a message is cut into updates. The constants are proved to
  be roots of primes, and the digest of "abc" to be the one of the standard.
- **hash map** (`HashCode`, `HashMapOwnership`, `HashMapTable`, `HashMap`). Chains of entries, relinked in place when
  the table doubles, refine a finite map; every value is accounted for.
- **strsed memory slots** (`SlotStore`, `SlotSafety`, `MemSlots`). Seven recycled slots: no leak, no double free, no
  sharing, over every sequence of calls.
- **version comparison** (`Vercmp`, `VercmpOrder`, `VercmpNumbers`, `VercmpSegments`). The pointer walk terminates;
  versions compare as their lists of numbers and runs of letters; swapping the arguments swaps the sign exactly for
  versions without trailing separators, and the order is transitive through a version exactly if it has no letter.
- **base32hex** (`Base32Group`, `Base32`, `Base32Laws`, `Base32RoundTrip`, `Base32Inverse`, `Base32Order`,
  `Base32Vectors`, `Base32Codec`). Round trips in both directions, exactly the accepted texts, the errors, order, and
  the test vectors of RFC 4648.
- **trace rule table** (`PathCleanup`, `TraceTable`, `TraceWriter`, `TraceRules`). What the writer puts into its buffer,
  the scanner decides as the list of rules does; exactly when the buffer cuts a target, and when that shows, is stated,
  for every list and for the rules that the writer appends, and so is what those rules decide.
- **file ownership** (`FilesTable`, `FileEffects`, `FileOwnership`, `RegistryRuns`, `Registry`). The files table of the
  registry, row by row for each operation, and under every run of its operations and transactions.

`CTypes` holds the types that the components share.

Ten findings about the code came out of properties that do not hold as they stand. Each has inputs on which the
property fails and the exact condition under which it holds:

- `FileTreeCanon.SlashKeepsTreeExactly`: a failing Set of a path with a trailing slash leaves empty directories behind,
  unless the path is empty, runs into a file, is mapped or lies above something mapped
  (`FileTreeCanon.TrailingSlashLeavesEmptyDirectory` is the smallest case).
- `FileTreeStore.LoadsExactly` and `FileTreeLimit.HugeFileIsRefused`: the loader cuts its byte count to 32 bits at every
  string, so a file map of 4 GiB and more can be refused; `FileTreeLimit.RunBuildsHuge` is a run of Sets that builds one.
- `VercmpOrder.AntisymmetricExactly`: versions that end in a separator are not compared symmetrically.
- `VercmpSegments.TransitiveThroughExactly`: a run of letters equals each of its prefixes, so every version with a letter
  ties with two versions that differ (`VercmpOrder.LettersAreNotTransitive` is an instance).
- `TraceWriter.WriteRules` and `TraceRules.SentExactly`: a redirection that fills the rule buffer as its last rule loses
  the last character of its target, since the limit of its copy does not count the byte it overwrites.
  `TraceRules.FullTableLosesACharacter` is a setup on which the root is then redirected elsewhere.
- `FileOwnership.DeactivationWithoutOwnerExactly` and `FileOwnership.DeactivationDoesNothingExactly`: the comment at
  `src/cregistry/entry.c:1024-1033` asks that the entry's files be active. The code asks only that the entry showed the
  paths at some time; it succeeds and changes nothing if the entry owns none of them
  (`RegistryRuns.StaleDeactivationIsReached` is a run that leads there).
- `FileOwnership.SharingExactly` and `FileOwnership.MappingTwiceShares`: nothing in the files table keeps a caller from
  mapping a path twice to one entry, and then two active rows share a path.
- `PathCleanup.CleaningIsIdempotentExactly`: on Apple systems a doubled resource fork suffix takes two cleanings.
- `Rmd160.CountedExactly`: RIPEMD-160's bit count is multiplied in 32 bits, so it is wrong once the updates of 2^29 bytes
  and more lose anything but a multiple of 2^64 bits; one such update is enough (`Rmd160.LongUpdateIsMiscounted`).
- `ModeOctal.OctalModeIsNotTerminated`: the command list of an octal mode has no terminator, so what an octal mode means
  depends on what lies behind it. A leading 8 or 9 is accepted and counts as zero (`ModeOctal.EightIsAccepted`).

Also of note: `hashMapClear` keeps the size (`HashMap.HashMap.Clear`, `HashMap.NothingLostExactly`). In symbolic modes,
X adds search permission under every operator (`ModeMeaning.SearchUnderMinus`), and t with no class named confines its
action to the sticky bit (`ModeMeaning.StickyAloneConfines`). The comment at
`src/pextlib1.0/filemap.c:311-318` calls the counter of the reader the bytes remaining in the buffer; the code does not
charge the terminators of the strings, and the model follows the code.

## Model

| member | source | states |
|---|---|---|
| `CaseFold.StrCaseCmp` | src/pextlib1.0/strcasecmp.c:42-63 | the sign of the result is the lexicographic order of the two strings in lower case |
| `CaseFold.StrNCaseCmp` | src/pextlib1.0/strcasecmp.c:69-95 | the same for the first max characters of both strings, for every max > 0 |
| `CaseFold.LessTotal` | src/pextlib1.0/strcasecmp.c:42-63 | the order of sibling names is total, so search and sorted insertion are well defined |
| `CaseFold.LessTransitive` | src/pextlib1.0/strcasecmp.c:42-63 | the order of sibling names is transitive |
| `CaseFold.LettersFold` | src/pextlib1.0/strcasecmp.c:42-63 | the 26 capital letters fold to the small ones, and every other character is itself |
| `FileMap.Entry.constructor` | src/pextlib1.0/filemap.c:300-312 | a new directory or file entry stands for the empty directory or the empty file of that name |
| `FileMap.SkipToElement` | src/pextlib1.0/filemap.c:685-691 | the scan behind leading slashes ends where the first component starts |
| `FileMap.ElementEnd` | src/pextlib1.0/filemap.c:700-710 | the second scan ends behind the first component |
| `FileMap.CompareName` | src/pextlib1.0/filemap.c:716-723 | comparing a child name with a component of a longer path orders them as whole case-folded names, although the code compares prefixes and lengths |
| `FileMap.Entry.FindKid` | src/pextlib1.0/filemap.c:712-735 | the search through the children returns the position at which the case-folded name is, or belongs, and whether it is there |
| `FileMap.Entry.AddKid` | src/pextlib1.0/filemap.c:737-775 | a missing child is inserted at its sorted position, the later ones move up, and the entry stays valid |
| `FileMap.Entry.Locate` | src/pextlib1.0/filemap.c:712-775 | after the lookup step of Set the child of the component exists at its sorted position; nothing else changed |
| `FileMap.Entry.Set` | src/pextlib1.0/filemap.c:669-800 | on linked entries: status and new tree are those of the value-level Set for every path and value, and the structure stays a valid tree |
| `FileMap.Entry.Get` | src/pextlib1.0/filemap.c:811-900 | returns what the value-level Get returns, for every path including repeated and trailing slashes |
| `FileMap.Entry.DropKid` | src/pextlib1.0/filemap.c:1089-1113 | removing a child closes the gap in the array and keeps the entry valid |
| `FileMap.Entry.Delete` | src/pextlib1.0/filemap.c:1008-1117 | status and new tree are those of the value-level Delete, including the pruning of emptied directories |
| `FileMap.Entry.ListSubtree` | src/pextlib1.0/filemap.c:935-995 | collects exactly the value-level list of matching paths, in order |
| `FileTreeMap.GetIsLookup` | src/pextlib1.0/filemap.c:811-900 | Get of a path is the lookup of its case-folded component list in the finite map the tree stands for; a trailing slash finds nothing |
| `FileTreeMap.SetKeepsSorted` | src/pextlib1.0/filemap.c:737-775 | siblings stay strictly sorted by case-folded name under every Set, successful or not |
| `FileTreeMap.SetUpdatesOneKey` | src/pextlib1.0/filemap.c:669-800 | a successful Set updates exactly one key of the map, to the value as given or its first 255 characters, a failing one none |
| `FileTreeMap.DeleteKeepsSorted` | src/pextlib1.0/filemap.c:1083-1113 | siblings stay strictly sorted under every Delete |
| `FileTreeMap.DeleteRemovesSubtree` | src/pextlib1.0/filemap.c:1008-1117 | a successful Delete removes exactly the keys at and below the path, a failing one none |
| `FileTreeMap.KeysArePrefixFree` | src/pextlib1.0/filemap.c:753-797 | no mapped path lies below another mapped path |
| `FileTreeMap.DeleteOfMappedPath` | src/pextlib1.0/filemap.c:1008-1117 | Delete of a mapped path succeeds and removes exactly that key |
| `FileTreeCanon.SetStatusIsDecidedByMap` | src/pextlib1.0/filemap.c:669-800 | which error code Set returns is decided by the finite map alone |
| `FileTreeCanon.DeleteStatusIsDecidedByMap` | src/pextlib1.0/filemap.c:1008-1117 | which error code Delete returns is decided by the finite map alone |
| `FileTreeCanon.SetKeepsPruned` | src/pextlib1.0/filemap.c:737-797 | Set without a trailing slash leaves no directory but the root empty |
| `FileTreeCanon.DeleteKeepsPruned` | src/pextlib1.0/filemap.c:1083-1113 | Delete prunes every directory it empties |
| `FileTreeCanon.MapDeterminesTree` | src/pextlib1.0/filemap.c:737-775 | canonicity: two sorted, pruned trees with the same map are the same tree up to the case of names |
| `FileTreeCanon.FailedSetChangesNothing` | src/pextlib1.0/filemap.c:669-800 | a failing Set of a path without a trailing slash leaves the tree itself identical |
| `FileTreeCanon.SlashKeepsTreeExactly` | src/pextlib1.0/filemap.c:669-800 | a Set of a path with a trailing slash always fails, and keeps the tree as it was exactly when the path is empty, runs into a file, is mapped, or lies above something mapped; otherwise it leaves empty directories behind |
| `FileTreeCanon.TrailingSlashLeavesEmptyDirectory` | src/pextlib1.0/filemap.c:753-797 | the smallest other case: a Set of "a/" fails but leaves an empty directory behind that blocks a later Set of "a" |
| `FileTreeCanon.SetsCommute` | src/pextlib1.0/filemap.c:669-800 | two successful Sets of different paths can be swapped: both succeed again and give the same tree up to the case of names |
| `FileTreeCanon.DeleteUndoesSet` | src/pextlib1.0/filemap.c:1008-1117 | Delete right after a Set of a fresh path restores the identical tree, names included |
| `FileTreeCanon.NoFileOnTheWayIsDecidedByMap` | src/pextlib1.0/filemap.c:1083-1087 | when a Delete path runs through a file is decided by the map: exactly when some mapped path is a proper prefix of it, or is the path itself and a slash follows |
| `FileTreeCanon.AdmissibleExactly` | src/pextlib1.0/filemap.c:669-1117 | the operations that the map decides to be steps are exactly the Deletes that no file is in the way of, and the Sets without a trailing slash or with one that leaves the tree as it is |
| `FileTreeCanon.StepRefinesMap` | src/pextlib1.0/filemap.c:669-1117 | every step of the tree refines the step of the finite map: same status, same contents, and the tree stays sorted and pruned; a Set with a trailing slash is a step unless it leaves empty directories behind |
| `FileTreeCanon.GetAfterRun` | src/pextlib1.0/filemap.c:811-900 | after every run of Set and Delete, Get answers as the finite map of the run does |
| `FileTreeCanon.GetAfterSet` | src/pextlib1.0/filemap.c:788-797 | Get of a path after a successful Set of it returns the value as it was given, up to 255 characters of it |
| `FileTreeCanon.RunsWithSameMapBuildSameTree` | src/pextlib1.0/filemap.c:669-1117 | two runs that leave the same map leave the same tree up to the case of names |
| `FileTreeCanon.CreateIsEmpty` | src/pextlib1.0/filemap.c:300-312 | a created file map is canonical and maps nothing |
| `FileMapRuns.PerformAll` | src/pextlib1.0/filemap.c:669-1113 | on linked entries, every run of Set and Delete answers with the codes of the run on the tree, and ends with its tree |
| `FileMapRuns.RunThenGet` | src/pextlib1.0/filemap.c:669-1113 | from a new file map, Get after any run on linked entries answers as the finite map of the run does |
| `FileMapRuns.RunThenList` | src/pextlib1.0/filemap.c:669-1113 | and List answers with each path the finite map of the run maps to the value, once |
| `FileTreeList.ListIsExact` | src/pextlib1.0/filemap.c:913-995 | List yields each path whose value equals the argument without regard to case exactly once, and nothing else |
| `FileTreeList.ListAfterRun` | src/pextlib1.0/filemap.c:913-995 | the same after every run from the empty file map, in terms of the finite map of the run |
| `FileTreeList.PartsOfContinued` | src/pextlib1.0/filemap.c:974-990 | the path text that List builds by appending names and slashes splits into the right components |
| `FileTreeList.PartsOfName` | src/pextlib1.0/filemap.c:676-683 | a name without slashes is one component, with or without a slash behind it |
| `FileTreeList.PartsOfSlashes` | src/pextlib1.0/filemap.c:676-683 | slashes alone are no component |
| `FileTreeSpelling.ListSpells` | src/pextlib1.0/filemap.c:913-995 | every listed path is spelled with the names as they are stored, with a single slash in front of each |
| `FileTreeSpelling.SetSpells` | src/pextlib1.0/filemap.c:737-797 | a successful Set keeps the spelling of the names that are there and adds the others as given |
| `FileTreeStore.LoadUndoesSave` | src/pextlib1.0/filemap.c:319-464 | loading a saved tree followed by any bytes returns the tree and stops exactly at those bytes, although the byte accounting is looser than the text read |
| `FileTreeStore.CountedIsLoose` | src/pextlib1.0/filemap.c:355-399 | the bytes charged for a tree are always fewer than the bytes it occupies |
| `FileTreeStore.SavedFileLoads` | src/pextlib1.0/filemap.c:319-464 | a saved tree that fits the 32-bit byte count loads from a buffer that holds at least it |
| `FileTreeStore.LoadsExactly` | src/pextlib1.0/filemap.c:319-464 | whatever byte count is left, a saved tree followed by any bytes loads exactly if every name and value is no longer than the count left at it, cut to 32 bits, and is refused with the end-of-file error otherwise |
| `FileTreeCursor.SavedFileReadsBackExactly` | src/pextlib1.0/filemap.c:199-464 | a saved file map of any size reads back exactly under that condition |
| `FileTreeLimit.HugeIsProper` | src/pextlib1.0/filemap.c:669-797 | a tree of 2^24 different files of 256 bytes each below the root is sorted and pruned, and within the limits of every field |
| `FileTreeLimit.RunBuildsHuge` | src/pextlib1.0/filemap.c:669-797 | 2^24 Sets from a new file map build it |
| `FileTreeLimit.BuildHuge` | src/pextlib1.0/filemap.c:669-797 | the same run on linked entries ends with an entry that stands for it |
| `FileTreeLimit.HugeFileIsRefused` | src/pextlib1.0/filemap.c:199-464 | its saved file, a little over 4 GiB, is refused at the first name, since the byte count is cut to 32 bits |
| `FileTreeStore.SaveUndoesLoad` | src/pextlib1.0/filemap.c:319-464 | whatever LoadNode accepts is the saved form of the tree it returns: the format has one text per tree |
| `FileTreeStore.CountReadsBack` | src/pextlib1.0/filemap.c:420-424 | the four count bytes are read back as the count |
| `FileTreeStore.BadNodesAreRefused` | src/pextlib1.0/filemap.c:330-360 | what is refused at the start of a node: nothing left to count, an unknown kind, a name that is too long |
| `FileTreeCursor.Save` | src/pextlib1.0/filemap.c:549-620 | the recursive writer appends the saved form of the tree |
| `FileTreeCursor.Length` | src/pextlib1.0/filemap.c:348-354 | the terminated string under the cursor is measured without reading past the buffer |
| `FileTreeCursor.LoadText` | src/pextlib1.0/filemap.c:348-378 | one string field moves the cursor behind its terminator and lowers the byte count |
| `FileTreeCursor.Load` | src/pextlib1.0/filemap.c:319-464 | the recursive reader with a moving cursor computes the value-level load and leaves the cursor at the remaining bytes |
| `FileTreeCursor.SaveFile` | src/pextlib1.0/filemap.c:498-516 | a file is signature, version and the saved root |
| `FileTreeCursor.HeaderBytes` | src/pextlib1.0/filemap.c:131-134 | the 28 bytes a file begins with, and what is made of a file without them |
| `FileTreeCursor.SavedExample` | src/pextlib1.0/filemap.c:549-620 | the saved bytes of a tree with a directory, a file in it and an empty directory |
| `FileTreeCursor.LoadFile` | src/pextlib1.0/filemap.c:227-277 | signature and version are checked before the tree is read |
| `FileTreeCursor.SavedFileReadsBack` | src/pextlib1.0/filemap.c:199-292 | a saved file map reads back as the same tree |
| `ModeCommands.GetMode` | src/pextlib1.0/setmode.c:99-165 | the interpreter loop computes the meaning of the command list up to its terminator |
| `ModeCommands.ApplyCopy` | src/pextlib1.0/setmode.c:125-142 | the shared code of the three copy commands clears and sets the copied bits class by class |
| `ModeCommands.CompressPreservesMeaning` | src/pextlib1.0/setmode.c:433-481 | for every command list and every original mode the optimized list gives the same new mode |
| `ModeCommands.CompressedShape` | src/pextlib1.0/setmode.c:433-481 | each run of '+', '-' and 'X' becomes at most three commands, and all other commands are kept in order |
| `ModeCommands.CompressIsIdempotent` | src/pextlib1.0/setmode.c:433-481 | optimizing twice is optimizing once |
| `ModeCommands.SumRun` | src/pextlib1.0/setmode.c:448-461 | the three masks collected over one run stand for the run, and take no more commands than it had |
| `ModeCommands.CompressMode` | src/pextlib1.0/setmode.c:433-481 | in place: the array then begins with the optimized list, its rest is untouched, and the write index never passes the read index |
| `ModeCommands.CompressedArrayMeansTheSame` | src/pextlib1.0/setmode.c:433-481 | what is left behind the optimized list in the array does not change its meaning |
| `ModeMeaning.CompileProperMode` | src/pextlib1.0/setmode.c:240-362 | every proper comma list of clauses compiles to the commands of its actions, left to right |
| `ModeMeaning.AddRemoveMeans` | src/pextlib1.0/setmode.c:273-341 | running the commands of an action with '+' or '-' is the reference meaning of the action, for every text of permission letters, t and X included |
| `ModeMeaning.AssignMeans` | src/pextlib1.0/setmode.c:265-341 | running the commands of an action with '=' is the reference meaning: clear the named classes, then set the asked bits, and add search permission for X |
| `ModeMeaning.StickyAloneConfines` | src/pextlib1.0/setmode.c:286-295 | with no class named, an action with the letter t changes the sticky bit and nothing else, whatever other letters it has |
| `ModeMeaning.SearchUnderMinus` | src/pextlib1.0/setmode.c:334-338 | X adds search permission under '-' too: it changes nothing exactly if the original mode is not searchable or the bits are there |
| `ModeMeaning.CopyMeans` | src/pextlib1.0/setmode.c:386-406 | running a copy command is the reference meaning: the bits of one class are added to, removed from or assigned to the named classes |
| `ModeMeaning.ModeMeans` | src/pextlib1.0/setmode.c:240-362 | running the commands of a mode is folding the meanings of its actions left to right |
| `ModeMeaning.CompiledModeMeans` | src/pextlib1.0/setmode.c:186-362 | compiling, optimizing and interpreting a proper mode is its reference meaning, for every original mode and umask |
| `ModeBits.LettersBit` | src/pextlib1.0/setmode.c:273-341 | each permission and set-id bit after an action on letters, in terms of the class and the letter it stands for: set if the class may change and the letter is asked for, cleared, or as it was |
| `ModeBits.StickyBit` | src/pextlib1.0/setmode.c:286-295 | the sticky bit after an action on letters |
| `ModeBits.FileTypeStays` | src/pextlib1.0/setmode.c:364-409 | the bits of the file type stay |
| `ModeBits.CopyBit` | src/pextlib1.0/setmode.c:111-142 | each bit of a class after a copy is added, removed or replaced by the same permission of the class copied from; the bits outside the nine permissions stay |
| `ModeMeaning.AcceptedLanguage` | src/pextlib1.0/setmode.c:240-362 | the symbolic part of setmode, which takes every text that does not start with a digit, returns NULL exactly for the strings outside the stated language |
| `ModeParser.Grow` | src/pextlib1.0/setmode.c:167-182 | after the growth check there is room for the two commands of '=' and one more |
| `ModeParser.PushBits` | src/pextlib1.0/setmode.c:364-409 | addcmd for permission bits appends one or two commands inside the buffer |
| `ModeParser.PushCopy` | src/pextlib1.0/setmode.c:364-409 | addcmd for a copy letter appends one command inside the buffer |
| `ModeParser.ReadPerms` | src/pextlib1.0/setmode.c:272-343 | the loop over permission letters appends what the action compiles to and stops at its end, for strings of any length |
| `ModeParser.ReadActions` | src/pextlib1.0/setmode.c:265-349 | the loop over the actions of a clause appends their commands and stops at the next clause, the end or an error |
| `ModeParser.ReadMode` | src/pextlib1.0/setmode.c:244-351 | the parser accepts exactly what the compiler accepts and leaves its commands, with room for the terminator |
| `ModeParser.SetMode` | src/pextlib1.0/setmode.c:186-362 | for every string: NULL exactly outside the symbolic and the octal language; a symbolic mode gives a terminated list with the reference meaning, an octal one its two commands |
| `ModeParser.SetThenGet` | src/pextlib1.0/setmode.c:99-362 | getmode of setmode of a proper mode is the reference meaning |
| `ModeParser.SetOctal` | src/pextlib1.0/setmode.c:220-238 | NULL exactly outside the octal language, otherwise the two commands of the number |
| `ModeOctal.OctalModeMeans` | src/pextlib1.0/setmode.c:236-237 | running the two commands sets the twelve mode bits to the number, whatever the original mode, and then runs what lies behind them |
| `ModeOctal.OctalModeIsNotTerminated` | src/pextlib1.0/setmode.c:236-237 | no terminator is written: for every number and original mode some command behind the two changes the result |
| `ModeOctal.EightIsAccepted` | src/pextlib1.0/setmode.c:224-235 | a text that starts with 8 or 9 is accepted exactly if octal digits follow, and counts as zero |
| `ModeBits.OctalDigits` | src/pextlib1.0/setmode.c:224-236 | the last three octal digits are the permissions of user, group and other, and the fourth the set-id and sticky bits |
| `BlockHash.FoldContinues` | src/pextlib1.0/sha2.c:396-402 | hashing a message block by block may stop at any block boundary and go on |
| `BlockHash.BufferedFromCount` | src/pextlib1.0/sha2.c:375-375 | the bit count modulo 2^64 still tells how many bytes are buffered |
| `BlockHash.PaddingFillsBlocks` | src/pextlib1.0/sha2.c:425-450 | the padded message is a whole number of blocks, and the padding is the shortest that achieves it (section 5.1.1 of FIPS 180-4) |
| `BlockHash.CountBytesSpell` | src/pextlib1.0/sha2.c:417-420 | the eight bytes of the bit count are its numeral, most significant byte first |
| `Sha256Stream.PaddedShape` | src/pextlib1.0/sha2.c:425-450 | section 5.1.1 of FIPS 180-4: the message, a one bit, the fewest zeros that fill the last block, and the number of bits |
| `Sha256.HostWordReadsBack` | src/pextlib1.0/sha2.c:295-310 | a word stored in the byte buffer in the host's byte order is read back unchanged |
| `Sha256Vector.CubeRoots` | src/pextlib1.0/sha2.c:158-175 | each round constant is the first 32 bits of the fractional part of the cube root of a prime, section 4.2.2 of FIPS 180-4 |
| `Sha256Vector.SquareRoots` | src/pextlib1.0/sha2.c:178-187 | the initial state is the first 32 bits of the fractional parts of the square roots of the first eight primes, section 5.3.3 of FIPS 180-4 |
| `Sha256Vector.HashOfAbc` | src/pextlib1.0/sha2.c:228-472 | the digest of abc is the one FIPS 180-4 gives |
| `Sha256Stream.Reverse32Stores` | src/pextlib1.0/sha2.c:95-99 | REVERSE32 turns little-endian storage into big-endian bytes |
| `Sha256Stream.Reverse64Reverses` | src/pextlib1.0/sha2.c:100-107 | REVERSE64 reverses the eight bytes of the bit count |
| `Sha256Transform.FirstWord` | src/pextlib1.0/sha2.c:308-313 | rounds 0 to 15 load the message words big-endian while they fill the buffer, also when the input is that buffer |
| `Sha256Transform.NextWord` | src/pextlib1.0/sha2.c:328-336 | from round 16 on, the word that replaces the oldest of sixteen is the next word of the 64-word schedule |
| `Sha256Transform.RoundMacro` | src/pextlib1.0/sha2.c:206-226 | the unrolled macro with its renamed registers performs one round |
| `Sha256Transform.TransformRolled` | src/pextlib1.0/sha2.c:288-362 | the loop version computes section 6.2.2 of FIPS 180-4 with the full schedule, on both byte orders, also when the input is the context buffer it overwrites |
| `Sha256Transform.TransformUnrolled` | src/pextlib1.0/sha2.c:228-284 | the unrolled version computes the same state |
| `Sha256Stream.Context.constructor` | src/pextlib1.0/sha2.c:192-200 | a new context holds the initial state and the empty message |
| `Sha256Stream.Context.TopUp` | src/pextlib1.0/sha2.c:375-395 | a partly filled buffer is completed first; the buffer is empty whenever more data is left to transform directly |
| `Sha256Stream.Context.ProcessBlocks` | src/pextlib1.0/sha2.c:396-402 | whole blocks are transformed directly from the caller's data |
| `Sha256Stream.Context.Update` | src/pextlib1.0/sha2.c:366-410 | Update appends its data to the message, whatever was buffered |
| `Sha256Stream.Context.Pad` | src/pextlib1.0/sha2.c:425-448 | the padding in one or two blocks is that of section 5.1.1 of FIPS 180-4 |
| `Sha256Stream.Context.Final` | src/pextlib1.0/sha2.c:412-472 | Final returns the hash of the whole message and clears state, bit count and buffer |
| `Sha256Stream.HashInChunks` | src/pextlib1.0/sha2.c:366-472 | the digest does not depend on how the message is split into Update calls, on the byte order or on the unrolling |
| `Rmd160.CountIsRightBelowLimit` | src/pextlib1.0/rmd160.c:106-108 | the bit count is advanced correctly exactly for updates of fewer than 2^29 bytes, since the length is multiplied in 32 bits |
| `Rmd160.PaddingPieces` | src/pextlib1.0/rmd160.c:141-145 | the two pieces that Final feeds to Update are the padding with the little-endian bit count |
| `Rmd160.PaddedShape` | src/pextlib1.0/rmd160.c:125-142 | the padded message: the message, a one bit, the fewest zeros, and the count as a numeral, least significant byte first |
| `Rmd160.InitialBytes` | src/pextlib1.0/rmd160.c:49-53 | the twenty bytes of the initial state |
| `Rmd160.Context.Update` | src/pextlib1.0/rmd160.c:101-126 | Update appends its data to the message, whatever was buffered and whatever the bit count has lost, and counts what the 32-bit product gives |
| `Rmd160.Context.Final` | src/pextlib1.0/rmd160.c:128-152 | Final returns the hash of the whole message with the bits that were counted, over any block transform, and clears the context |
| `Rmd160.CountedExactly` | src/pextlib1.0/rmd160.c:106-108 | over any sequence of updates the bit count is right exactly if what the updates lost is a multiple of 2^64 bits, in particular if all are below 2^29 bytes |
| `Rmd160.LongUpdateIsMiscounted` | src/pextlib1.0/rmd160.c:106-108 | a single update of 2^29 bytes or more already makes the count wrong |
| `Rmd160.HashInChunks` | src/pextlib1.0/rmd160.c:101-152 | the digest depends on how the message is split into Update calls only through the bit count, and is the hash if the count is right |
| `HashCode.DoHash` | src/machista1.0/hashmap.c:71-83 | the loop computes the 32-bit polynomial of the signed characters and mixes it; the result is a 32-bit word |
| `HashCode.PolynomialExample` | src/machista1.0/hashmap.c:77-79 | the polynomial of a key with a character above 127 |
| `HashCode.CharIsSigned` | src/machista1.0/hashmap.c:77-79 | a character above 127 counts as negative |
| `HashCode.MixBits` | src/machista1.0/hashmap.c:80-82 | each bit of a mixed hash is the exclusive or of the bits that the shifts bring together |
| `HashCode.IndexFor` | src/machista1.0/hashmap.c:86-88 | the bucket index is inside the table |
| `HashCode.MaskIsRemainder` | src/machista1.0/hashmap.c:86-88 | for capacities that are powers of two, masking is the remainder |
| `HashCode.DoublingSplitsBucket` | src/machista1.0/hashmap.c:186-195 | doubling leaves an entry in its bucket or moves it up by the old capacity |
| `HashMapTable.PushFront` | src/machista1.0/hashmap.c:169-172 | linking an entry at the head of the bucket of its hash keeps every bucket a null-terminated list of distinct entries |
| `HashMapTable.FindInBucket` | src/machista1.0/hashmap.c:144-148 | the walk finds the entry with the hash and the key, or there is none |
| `HashMapTable.MoveBucket` | src/machista1.0/hashmap.c:187-195 | relinking one old bucket moves each of its entries into the new table exactly once |
| `HashMapTable.Rehash` | src/machista1.0/hashmap.c:186-199 | after the relinking the new table holds exactly the entries of the old one, each in the bucket of its hash |
| `HashMapTable.FindWithPrevious` | src/machista1.0/hashmap.c:232-248 | the removal walk keeps the entry before the hit, which is the hit itself at the head |
| `HashMapTable.Unlink` | src/machista1.0/hashmap.c:238-245 | the hit leaves its bucket, at the head through the table and further on through the entry before it |
| `HashMap.HashMap.constructor` | src/machista1.0/hashmap.c:115-129 | a new map is empty, with capacity 16 |
| `HashMap.HashMap.SizeCountsKeys` | src/machista1.0/hashmap.c:133-256 | size is the number of keys (plus what clears dropped), and at most three quarters of the capacity below its maximum |
| `HashMap.HashMap.Limits` | src/machista1.0/hashmap.c:43-68 | the capacity is a power of two from 16 to 2^31, and the threshold three quarters of it |
| `HashMap.HashMap.Get` | src/machista1.0/hashmap.c:205-214 | Get is the lookup in the finite map, NULL for a missing key |
| `HashMap.HashMap.ContainsKey` | src/machista1.0/hashmap.c:218-227 | true exactly for the keys of the finite map |
| `HashMap.HashMap.Put` | src/machista1.0/hashmap.c:133-201 | Put updates one key of the finite map; the old value, NULL for a new key, is handed back or freed; all invariants survive the doubling |
| `HashMap.HashMap.Grow` | src/machista1.0/hashmap.c:176-200 | doubling keeps contents and invariants, and at the maximum capacity lifts the threshold |
| `HashMap.HashMap.Remove` | src/machista1.0/hashmap.c:231-256 | Remove deletes one key of the finite map; its value, NULL for a missing key, is handed back or freed |
| `HashMap.HashMap.Clear` | src/machista1.0/hashmap.c:272-285 | Clear frees every stored value as often as it is stored and empties the map, but does not lower the size |
| `HashMap.PerformAll` | src/machista1.0/hashmap.c:133-285 | every sequence of put, get, remove and clear refines the account of the finite map, across rehashes; from a new map, the size is the number of keys at the end exactly if every clear met an empty map |
| `HashMap.NothingLostExactly` | src/machista1.0/hashmap.c:272-285 | what the size counts beyond the keys is zero exactly if every clear of the run met an empty map |
| `HashMapOwnership.StepAccounts` | src/machista1.0/hashmap.c:97-111 | one call accounts for one more value exactly when it puts it |
| `HashMapOwnership.PutAccounts` | src/machista1.0/hashmap.c:97-201 | put stores the value, and the old one, NULL for a new key, is handed back or freed |
| `HashMapOwnership.RemoveAccounts` | src/machista1.0/hashmap.c:231-256 | remove deletes the key and no other, and its value, NULL for a missing key, is handed back or freed |
| `HashMapOwnership.RunConserves` | src/machista1.0/hashmap.c:97-285 | over every run a value is stored, freed and handed back, together, as often as it was put |
| `HashMapOwnership.ValuesHaveOneOwner` | src/machista1.0/hashmap.c:97-285 | a value put once is at any time in exactly one of the three places and there once |
| `SlotStore.FirstFit` | src/pextlib1.0/strsed.c:1429-1446 | mem_find chooses the first unused allocation that is large enough |
| `SlotStore.FirstEmpty` | src/pextlib1.0/strsed.c:1465-1476 | mem_save first looks for the first unused slot without an allocation |
| `SlotStore.Smallest` | src/pextlib1.0/strsed.c:1478-1491 | otherwise it chooses the smallest unused slot that is smaller than the block (and below 32767), the first of several |
| `SlotSafety.SaveKeeps` | src/pextlib1.0/strsed.c:1448-1508 | mem_save moves the block or frees something unused; slots in use are left alone |
| `SlotSafety.SavePuts` | src/pextlib1.0/strsed.c:1448-1508 | where mem_save puts a block: into the first vacant slot, over the first of the smallest smaller ones, or nowhere |
| `SlotSafety.MemKeeps` | src/pextlib1.0/strsed.c:1355-1427 | mem leaves its slot in use with a live block of its own of at least the asked size, and no other slot in use is touched |
| `SlotSafety.MemReturns` | src/pextlib1.0/strsed.c:1355-1427 | which block mem returns: the own one, the first unused one that is large enough, or a new one of the asked size |
| `SlotSafety.MallocsExactly` | src/pextlib1.0/strsed.c:1355-1427 | mem calls malloc exactly when neither the allocation of its slot nor, for an empty slot, an unused one elsewhere is large enough |
| `SlotSafety.SaveFreesSmallest` | src/pextlib1.0/strsed.c:1448-1508 | mem_save frees something exactly when every unused slot holds an allocation, and then a smallest block |
| `SlotSafety.ReleaseKeeps` | src/pextlib1.0/strsed.c:1525-1551 | mem_free frees nothing, marks every slot unused and takes the returned block out of the slots' reach |
| `SlotSafety.ReleaseSlot` | src/pextlib1.0/strsed.c:1525-1551 | mem_free slot by slot |
| `SlotSafety.MoreSpaceKeeps` | src/pextlib1.0/strsed.c:192-207 | growing the new string keeps all slots sound, whether or not realloc moves the block |
| `SlotSafety.RunKeeps` | src/pextlib1.0/strsed.c:1355-1551 | over every sequence of calls the slots hold distinct live blocks, nothing leaks and nothing is freed twice |
| `SlotSafety.EveryBlockHasOneFate` | src/pextlib1.0/strsed.c:1355-1551 | over every run each block from malloc is in one slot, handed to the caller or freed once: exactly one of the three |
| `MemSlots.MemSlots.constructor` | src/pextlib1.0/strsed.c:1510-1523 | the cleared slots are the initial store |
| `MemSlots.MemSlots.MemFind` | src/pextlib1.0/strsed.c:1429-1446 | the loop returns the first fitting slot or -1 |
| `MemSlots.MemSlots.MemSave` | src/pextlib1.0/strsed.c:1448-1508 | the loops over the slot array perform the value-level save; every free is of a live block that the caller does not own |
| `MemSlots.MemSlots.Mem` | src/pextlib1.0/strsed.c:1355-1427 | on the slot array: the new state is that of the specification, and the returned block is live and large enough; NULL for a slot number out of range |
| `MemSlots.MemSlots.MemFree` | src/pextlib1.0/strsed.c:1525-1551 | on the slot array: the new state is that of the specification |
| `MemSlots.MemSlots.MoreSpace` | src/pextlib1.0/strsed.c:192-207 | on the slot array: the new state is that of the specification |
| `Vercmp.VersionCompare` | src/pextlib1.0/vercomp.c:54-156 | the nested pointer loops terminate on all inputs and compute the specified comparison |
| `Vercmp.CompareRound` | src/pextlib1.0/vercomp.c:65-139 | one round of the outer loop decides, or moves both pointers behind the segments it compared |
| `Vercmp.ClassesExactly` | src/pextlib1.0/vercomp.c:71-95 | the characters that count as digits and as letters |
| `VercmpOrder.CompareMirrors` | src/pextlib1.0/vercomp.c:54-156 | for versions that do not end in a separator, swapping the arguments swaps the sign |
| `VercmpOrder.TrailBreaks` | src/pextlib1.0/vercomp.c:82-91 | a version that ends in a separator is below its extension by a letter, which in turn compares equal to it |
| `VercmpOrder.AntisymmetricExactly` | src/pextlib1.0/vercomp.c:54-156 | swapping swaps the sign against every well-formed version exactly for versions that do not end in a separator |
| `VercmpOrder.LettersTieWithPrefixes` | src/pextlib1.0/vercomp.c:95-137 | versions of letters only tie exactly when one is a prefix of the other |
| `VercmpOrder.LettersAreNotTransitive` | src/pextlib1.0/vercomp.c:131-137 | an instance: three versions of letters on which the comparison is not transitive |
| `VercmpSegments.VersionsCompareAsSegments` | src/pextlib1.0/vercomp.c:54-156 | what the comparison means on all versions without trailing separators: the order of their lists of numbers and runs of letters, where letters that run out tie |
| `VercmpSegments.LetterBreaksTransitivity` | src/pextlib1.0/vercomp.c:131-137 | every version with a letter ties with two versions that differ from each other |
| `VercmpSegments.TransitiveThroughExactly` | src/pextlib1.0/vercomp.c:54-156 | the comparison is transitive through a version, whatever the other two, exactly when the version has no letter |
| `VercmpNumbers.LeadingZeros` | src/pextlib1.0/vercomp.c:112-120 | stripping leading zeros keeps the number |
| `VercmpNumbers.ValueIsDecimal` | src/pextlib1.0/vercomp.c:112-136 | the number of a run of digits is the decimal one |
| `VercmpNumbers.LongerIsLarger` | src/pextlib1.0/vercomp.c:122-128 | without leading zeros the longer number is the larger one |
| `VercmpNumbers.FirstDifference` | src/pextlib1.0/vercomp.c:130-136 | for equally long numbers the first different digit decides their order |
| `VercmpNumbers.NumericVersionsCompareAsLists` | src/pextlib1.0/vercomp.c:54-156 | on numeric versions the comparison is the lexicographic order of their lists of numbers |
| `VercmpNumbers.NumericVersionsAreOrdered` | src/pextlib1.0/vercomp.c:54-156 | on numeric versions the comparison is total and transitive, and ties exactly when the numbers agree |
| `Base32Group.JoinSplit` | src/pextlib1.0/base32cmd.c:123-130 | the decoder's shifts undo the encoder's on every five bytes |
| `Base32Group.SplitJoin` | src/pextlib1.0/base32cmd.c:307-311 | the encoder's shifts undo the decoder's on every eight five-bit values |
| `Base32Group.SplitKeepsOrder` | src/pextlib1.0/base32cmd.c:123-130 | splitting five bytes into eight values keeps the lexicographic order |
| `Base32Laws.AcceptedExactly` | src/pextlib1.0/base32cmd.c:266-330 | the decoder accepts exactly multiples of eight over the alphabet in either case with one closing run of 0, 1, 3, 4 or 6 pads |
| `Base32RoundTrip.DecodeUndoesEncode` | src/pextlib1.0/base32cmd.c:97-211 | every even-length hex string encodes, and its encoding decodes to the string in lower case |
| `Base32Vectors.SymbolsAre` | src/pextlib1.0/base32cmd.c:82-82 | the symbols are the 32 of the base32hex alphabet of section 7 of RFC 4648 |
| `Base32Vectors.EncodeAcceptsExactly` | src/pextlib1.0/base32cmd.c:97-115 | the encoder accepts exactly hex strings of even length |
| `Base32Vectors.FirstOffence` | src/pextlib1.0/base32cmd.c:280-305 | the first character that offends is reported with its place in its group |
| `Base32Vectors.OtherErrors` | src/pextlib1.0/base32cmd.c:266-330 | without one, a wrong length and a wrong number of pads are reported |
| `Base32Vectors.Vector6` | src/pextlib1.0/base32cmd.c:97-206 | foobar encodes as section 10 of RFC 4648 gives it; Vector0 to Vector5 are its prefixes |
| `Base32Inverse.EncodeUndoesDecodeExactly` | src/pextlib1.0/base32cmd.c:266-345 | encoding a decoded text gives it back in upper case exactly when the unused bits of its last symbol are zero |
| `Base32Order.EncodingKeepsOrder` | src/pextlib1.0/base32cmd.c:119-206 | equally long data and their encodings are ordered alike, the purpose stated in section 7 of RFC 4648 |
| `Base32Codec.HexToBytes` | src/pextlib1.0/base32cmd.c:110-115 | each pair of hex digits becomes one byte |
| `Base32Codec.PutPartialGroup` | src/pextlib1.0/base32cmd.c:132-206 | each case of the switch writes the group completed with zeros and the padding |
| `Base32Codec.EncodeBuffer` | src/pextlib1.0/base32cmd.c:119-206 | the loop over the buffer writes the encoding of all bytes |
| `Base32Codec.EncodeCommand` | src/pextlib1.0/base32cmd.c:97-211 | odd length is refused first, then a character that is no hex digit; otherwise the encoding is returned |
| `Base32Codec.ScanGroup` | src/pextlib1.0/base32cmd.c:280-305 | eight characters become values; an offending character ends the scan with its error and index |
| `Base32Codec.BytesToHex` | src/pextlib1.0/base32cmd.c:332-340 | every byte becomes two lower-case digits |
| `Base32Codec.DecodeCommand` | src/pextlib1.0/base32cmd.c:266-345 | the loops compute the specified decoding with all its error cases |
| `PathCleanup.CollapseLeavesNoRuns` | src/darwintracelib1.0/darwintrace.c:460-475 | the cleaned path has no two slashes in a row |
| `PathCleanup.CollapseKeepsNames` | src/darwintracelib1.0/darwintrace.c:460-475 | the cleaned path has the same names in the same order |
| `PathCleanup.CollapseKeepsCharacters` | src/darwintracelib1.0/darwintrace.c:460-475 | only slashes disappear |
| `PathCleanup.CollapseKeepsEnds` | src/darwintracelib1.0/darwintrace.c:460-475 | the path starts and ends with the same characters as before, so an absolute path stays absolute |
| `PathCleanup.CollapseFixesExactly` | src/darwintracelib1.0/darwintrace.c:460-475 | collapsing changes nothing exactly for paths without slash runs |
| `PathCleanup.CollapseIsIdempotent` | src/darwintracelib1.0/darwintrace.c:460-475 | collapsing twice is collapsing once |
| `PathCleanup.CleaningIsIdempotentExactly` | src/darwintracelib1.0/darwintrace.c:434-478 | the whole cleaning is final, except on Apple systems when the path without its fork suffix still names a resource fork |
| `PathCleanup.DoubledForkIsCleanedTwice` | src/darwintracelib1.0/darwintrace.c:447-452 | a path with a doubled fork suffix on which cleaning twice differs from cleaning once |
| `PathCleanup.CleanupPath` | src/darwintracelib1.0/darwintrace.c:434-478 | in place: the buffer then holds the cleaned path as a terminated string |
| `TraceTable.StrBeginsWith` | src/darwintracelib1.0/darwintrace.c:223-231 | true exactly when the string in the table is a prefix |
| `TraceTable.FirstPrefixDecides` | src/darwintracelib1.0/darwintrace.c:593-632 | the first rule that is a prefix of the path decides; without one the access is a violation |
| `TraceTable.RedirectionKeepsNames` | src/darwintracelib1.0/darwintrace.c:609-613 | a redirected path names the same file below the target |
| `TraceTable.AbsoluteKeepsNames` | src/darwintracelib1.0/darwintrace.c:577-590 | a relative path names the same file below the current directory, an absolute one is taken as it is |
| `TraceTable.ActionAt` | src/darwintracelib1.0/darwintrace.c:597-619 | the byte behind the path selects the action; a redirection copies target, slash and path |
| `TraceTable.NextEntry` | src/darwintracelib1.0/darwintrace.c:623-627 | the pointer moves exactly behind the entry, redirection targets included |
| `TraceTable.TableBytes` | src/darwintracelib1.0/darwintrace.c:593-632 | the bytes of a table with one rule of each kind |
| `TraceTable.FirstRule` | src/darwintracelib1.0/darwintrace.c:593-633 | scanning a received table terminates and decides as the list of rules does |
| `TraceTable.IsInSandbox` | src/darwintracelib1.0/darwintrace.c:566-637 | the path is completed, cleaned and decided by the first matching rule; without a table every access is allowed |
| `TraceWriter.TableWriter.AppendAllow` | src/pextlib1.0/tracelib.c:258-266 | an entry that fits is appended as path, terminator, action and terminator, and remaining goes down by its length |
| `TraceWriter.TableWriter.AppendRedirect` | src/pextlib1.0/tracelib.c:289-291 | a redirection overwrites the last terminator with as much of its target as the limit of the copy allows, for a target of any length; the whole target exactly if the counter exceeds the entry |
| `TraceWriter.WriteRules` | src/pextlib1.0/tracelib.c:246-303 | for every list of rules, with a last target of any length: the buffer holds the table but for the end of the last target; it holds the whole table exactly if that is shorter than the buffer, or does not end in a redirection, or fills the buffer and has an earlier redirection |
| `TraceWriter.WriteThenScan` | src/pextlib1.0/tracelib.c:244-310 | what is written, sent and scanned decides as the list of rules does, with as much of the last target as was copied |
| `TraceWriter.CutShowsExactly` | src/pextlib1.0/tracelib.c:289-291 | a cut target changes a decision exactly for the paths that the last rule decides, unless just a single closing slash is lost |
| `TraceRules.RulesAreProper` | src/pextlib1.0/tracelib.c:267-301 | the rules of every setup are non-empty strings |
| `TraceRules.HeldTarget` | src/pextlib1.0/tracelib.c:276-291 | for every setup with an SDK, what the buffer holds: all rules before the redirection, and as much of the target as there is room for |
| `TraceRules.SentExactly` | src/pextlib1.0/tracelib.c:276-291 | for every setup with an SDK, the rules arrive as they are exactly if their table is shorter than the buffer |
| `TraceRules.SendThenScan` | src/pextlib1.0/tracelib.c:244-309 | for every setup, sending and scanning decides as its rules do, with as much of the target as there is room for |
| `TraceRules.DecidedAs` | src/pextlib1.0/tracelib.c:267-301 | for every setup, who is allowed, asked for, redirected or refused |
| `TraceRules.LossShowsAtRootExactly` | src/pextlib1.0/tracelib.c:276-291 | a cut target changes what the root is redirected to, unless a sandbox path or the prefix is the root, or just a single closing slash is lost |
| `TraceRules.FullTableLosesACharacter` | src/pextlib1.0/tracelib.c:276-291 | a setup, with ten sandbox paths and an SDK below /Developer, whose table fills the buffer: the target arrives one character short, and the root is redirected elsewhere |
| `FileOwnership.MapKeeps` | src/cregistry/entry.c:682-723 | mapping paths that the entry does not map yet keeps every path mapped once and no active path shared |
| `FileOwnership.UnmapKeeps` | src/cregistry/entry.c:735-781 | unmapping keeps both invariants, also when it stops partway |
| `FileOwnership.ActivateKeeps` | src/cregistry/entry.c:932-1022 | activation keeps both invariants, also when it stops partway |
| `FileOwnership.DeactivateKeeps` | src/cregistry/entry.c:1034-1080 | deactivation keeps both invariants, also when it stops partway |
| `FileOwnership.DeleteEntryKeeps` | src/cregistry/entry.c:243-319 | deleting an entry removes all its files and keeps both invariants |
| `FileEffects.DeleteEntryRows` | src/cregistry/entry.c:250-250 | deleting an entry removes the rows of the entry and no other |
| `FileEffects.DeleteEntryKeepsOthers` | src/cregistry/entry.c:243-319 | afterwards exactly the other entries own what they owned |
| `FileEffects.MapRows` | src/cregistry/entry.c:682-723 | mapping adds one inactive row for each listed file, in order, and every other row stays |
| `FileEffects.UnmapRows` | src/cregistry/entry.c:735-781 | unmapping removes exactly the rows of the entry for the files it got through, and every other row stays |
| `FileEffects.UnmapSucceedsExactly` | src/cregistry/entry.c:735-781 | unmapping succeeds exactly if every listed file is mapped and none is listed twice |
| `FileEffects.ActivateRows` | src/cregistry/entry.c:932-1022 | a successful activation makes the listed files active as listed, and every other row stays |
| `FileEffects.ActivationFails` | src/cregistry/entry.c:932-1022 | one that fails names the first file whose target is used or that is not mapped, when its turn comes |
| `FileEffects.SetActiveRows` | src/cregistry/entry.c:941-942 | the UPDATE of an activation, row by row |
| `FileEffects.ClearActiveRows` | src/cregistry/entry.c:1040-1040 | the UPDATE of a deactivation, row by row |
| `FileEffects.OwnsExactly` | src/cregistry/entry.c:493-528 | which rows make an owner, a mapped, a shown and a used path |
| `FileOwnership.OwnerIsUnique` | src/cregistry/entry.c:493-528 | a path has at most one owner |
| `FileOwnership.SharingExactly` | src/cregistry/entry.c:941-942 | an activation of any list of files makes two active rows share a path exactly when its entry maps one of the files it got through twice |
| `FileOwnership.MappingTwiceShares` | src/cregistry/entry.c:682-723 | mapping one path twice to an entry and activating it gives two active rows for one path: nothing in the table prevents it |
| `FileOwnership.ActivationOwns` | src/cregistry/entry.c:932-1022 | after a successful activation of different files the entry owns every target |
| `FileOwnership.ActivationSucceedsExactly` | src/cregistry/entry.c:932-1022 | for files that are not active yet, activation succeeds exactly when all are mapped and no target is used or repeated |
| `FileOwnership.DeactivateRow` | src/cregistry/entry.c:1027-1067 | a successful deactivation clears the flag of the rows that the entry shows as a listed file, and every other row stays |
| `FileOwnership.DeactivationReleases` | src/cregistry/entry.c:1034-1080 | after a successful deactivation a listed path is owned exactly by another entry that owned it before |
| `FileOwnership.DeactivationSucceedsExactly` | src/cregistry/entry.c:1034-1080 | deactivation succeeds exactly when the entry showed every listed path at some time, and otherwise names the first it did not |
| `FileOwnership.DeactivationWithoutOwnerExactly` | src/cregistry/entry.c:1024-1080 | exactly when it succeeds although the entry does not own all the paths, which its documentation asks for: some listed path was shown and is not owned |
| `FileOwnership.DeactivationDoesNothingExactly` | src/cregistry/entry.c:1034-1080 | a deactivation that succeeds leaves the table as it was exactly when the entry owns none of the listed paths |
| `FileOwnership.StaleDeactivationSucceeds` | src/cregistry/entry.c:1040-1040 | deactivating a path the entry once showed and another entry owns by now succeeds and changes nothing |
| `RegistryRuns.StaleDeactivationIsReached` | src/cregistry/entry.c:682-1080 | a run that leads there: two entries map a path, the first activates and deactivates it, the second activates it; then the deactivation by the first succeeds and changes nothing |
| `RegistryRuns.RunKeeps` | src/cregistry/entry.c:243-1080 | over every run of create, delete, map of fresh paths, unmap, activate, deactivate, begin, commit and rollback both invariants hold |
| `RegistryRuns.NoPathHasTwoOwners` | src/cregistry/entry.c:493-528 | over every such run from the empty registry no path has two owners |
| `RegistryRuns.CreateIsFresh` | src/cregistry/entry.c:118-175 | over every run, the number of a new entry is no entry's |
| `RegistryRuns.DeleteTakesOne` | src/cregistry/entry.c:243-319 | deleting an entry takes it, and no other, out of the registry |
| `RegistryRuns.RollbackRestores` | src/cregistry/registry.c:423-430 | rolling a transaction back restores the entries and files of its beginning, whatever it did |
| `RegistryRuns.CommitKeeps` | src/cregistry/registry.c:406-413 | committing keeps what the operations did, as if there had been no transaction |
| `FilesTable.NoMatchNoChange` | src/cregistry/entry.c:735-781 | a statement that reports no changed row changed nothing |
| `Registry.Registry.EntryMap` | src/cregistry/entry.c:682-723 | the loop performs the specified step |
| `Registry.Registry.EntryUnmap` | src/cregistry/entry.c:735-781 | the loop performs the specified step and stops at the first file that is not mapped |
| `Registry.Registry.EntryActivate` | src/cregistry/entry.c:932-1022 | the loop performs the specified step and stops at the first target in use or file not provided |
| `Registry.Registry.EntryDeactivate` | src/cregistry/entry.c:1034-1080 | the loop performs the specified step and stops at the first file that is not shown by the entry |
| `Registry.Registry.EntryDelete` | src/cregistry/entry.c:243-319 | an unknown entry is refused and nothing changes; otherwise the entry and its files go |
| `Registry.Registry.EntryOwner` | src/cregistry/entry.c:493-528 | returns the owner of a path; in a sound table exactly the one owner |
| `Registry.Registry.Start` | src/cregistry/registry.c:323-340 | a second transaction is refused; otherwise the state to restore is remembered |
| `Registry.Registry.CommitTransaction` | src/cregistry/registry.c:406-413 | without a transaction it is refused; otherwise the changes stay |
| `Registry.Registry.RollbackTransaction` | src/cregistry/registry.c:423-430 | without a transaction it is refused; otherwise the remembered state returns |

## Left out

Of filemap:

- FileMap.Entry.Set: components longer than NAME_MAX, which the name field of an entry does not hold, are excluded.
- FileMap.Entry.Delete: paths that run through a file are excluded, where the code takes a file for a directory; exactly when that happens is `FileTreeCanon.NoFileOnTheWayIsDecidedByMap`.
- FileTreeMap.DeleteKeepsSorted: excludes the same paths, as every statement about Delete does.
- FileTreeMap.DeleteRemovesSubtree: excludes the same paths.
- FileTreeCanon.DeleteStatusIsDecidedByMap: excludes the same paths.
- FileTreeCanon.DeleteKeepsPruned: excludes the same paths.
- FileTreeCanon.StepRefinesMap: a Set that leaves empty directories behind is no step of a run, since the finite map does not see them; exactly when that happens is `FileTreeCanon.SlashKeepsTreeExactly`.
- FileTreeCanon.GetAfterRun: runs of these steps, as every statement about runs.
- FileMapRuns.PerformAll: runs of these steps, of names and values that an entry can hold.
- FileTreeStore.LoadUndoesSave: names and values up to NAME_MAX; text without a terminator before the end of the buffer is an outcome of its own, where the code reads on.
- Characters above 127, which the C comparison folds and subtracts as signed numbers.
- The address of the root that realloc may change, and freed entries: an entry that left the tree is unreachable.
- FileTreeLimit.HugeFileIsRefused: the result is about LoadNode on a whole buffer; that one allocation and one read deliver a file of 4 GiB is taken for granted.
- Loading builds the tree as a value, not as linked entries; Load's file locking and Save's temporary file and rename.
- A value of NAME_MAX characters or more is truncated by Set; the model stores the truncation.

Of setmode:

- ModeParser.SetMode: for an octal mode the two commands are stated, and getmode is not run on them, since what lies behind them is whatever the allocation holds.
- ModeMeaning.CompiledModeMeans: copy letters mixed with other letters in one action are compiled and accepted as in the code but given no independent meaning.
- The contents of cells that realloc leaves uninitialized; no command of the list lies there.

Of the hashes:

- Sha256Stream.Context.Final: a NULL digest pointer, with which only the state is cleared.
- Rmd160.Context.Update: updates of 2^32 - 64 bytes and more, for which the end of the next block does not fit the 32-bit offset.
- Rmd160.HashInChunks: pieces of that size.
- Rmd160.Context.Final: a NULL digest pointer, with which only the clearing remains.
- RMD160Transform: the model is over any block transform.

Of the hash map:

- HashMap.HashMap.Put: NULL keys and failing allocations.
- HashMapTable.HashMapEntry: key and hash are constants, since they are written once, and freed entries stay allocated but unlinked.
- The pointer comparison that short-cuts equal keys: keys are compared by their bytes.

Of the memory slots:

- SlotStore.Malloc: block numbers are never reused, so they name allocations rather than addresses; malloc succeeds.
- nextch and build_map, the range expansion, and the matching loop of strsed, which depends on the regular expression library.

Of the version comparison:

- Letters above 127; isalnum, isalpha and isdigit are those of the C locale.
- VercmpSegments.TransitiveThroughExactly: versions without trailing separators; with them the comparison is not even antisymmetric, see `VercmpOrder.AntisymmetricExactly`.

Of base32:

- The plain base32 alphabet, which is compiled out.
- The texts of the error messages; their indices and characters are kept.

Of the trace table:

- TraceWriter.WriteRules: a table without room for a path, and a target that is too long behind an earlier redirection; the code then measures strings it did not write.
- TraceWriter.TableWriter.AppendRedirect: the same entries.
- TraceWriter.WriteThenScan: a last target of which nothing is copied, behind which the code measures a byte it did not write.
- TraceRules.SendThenScan: the same, for the rules that the code appends.
- The socket, and the answer to a dependency question: the outcome Asked stands for it.
- TraceTable.IsInSandbox: paths are not limited to MAXPATHLEN.

Of the registry:

- RegistryRuns.RunKeeps: Map lists paths that the entry does not map yet, as its documentation asks; `FileOwnership.SharingExactly` says what happens otherwise.
- SQLite errors and busy retries, the columns without a part in ownership, dependencies, and the cache of open entries.
- Read and write transactions are not told apart; the operations do not check the difference.

Of the repository: the Tcl commands and glue, curl, system, xinstall, flock, fs-traverse, the open and stat interposers,
libmachista, CFLib, readline, uid, tty, graph.c and item.c, and the copy of vercmp in the registry.
