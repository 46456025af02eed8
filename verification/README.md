# GeckoOS: a verified model of its hard parts

GeckoOS is a bare-metal kernel. This project models five of its parts and proves what they promise:

- **The FAT32 volume** (`kernel/fs/fat32.c`, `readfile` in `kernel/fs/fs.c`). `FatVolume.Volume` holds the drive as an
  array of 512-byte sectors and reads and edits it as the driver does. A ghost `State` abstracts it twice: FAT sectors
  to 28-bit entries and cluster contents (`FatDisk.DiskRep`), then chains and directory slots to a map from 11-byte
  name to bytes (`FatChains.Good`). Every operation is proved against both; `FatBlank.Blank` gives an empty volume that
  meets them. The layout is that of the sections "FAT Data Structure" and "FAT Directory Structure" of Microsoft's
  FAT32 File System Specification, version 1.03. `FatLayout` is an independent reader of the raw sectors that knows
  nothing of those abstractions; the files the operations speak of are shown to be exactly those it finds.
  `FatConditions` says in the same terms when the operations have room.
- **The GK language** (`kernel/gk`). `GkLexer`, `GkParser` and `GkInterp` are the three stages as imperative classes
  over a token array, a node pool and a flat variable stack. Each is proved equal, failures included, to a functional
  reading: tokens of a text (`GkText`), a grammar (`GkGrammar`), an evaluator on trees with a stack of maps
  (`GkMeaning`). Those functions are then tied to statements that do not mention them: which characters spell which
  tokens (`GkLexemes`, `GkComments`), which tokens are an expression, a statement, a program (`GkPhrases`,
  `GkStatements`, together `GkReading`), and laws of operators, loops, calls and errors (`GkOperators`, `GkControl`,
  `GkRefusals`, `GkEquations`, `GkLaws`, `GkReturns`). `GkPrograms` puts the three stages together.
- **Paging over the physical allocator** (`kernel/mem`). `PhysMem.Allocator` is the bitmap, `Paging.Space` the
  four-level tables of section 4.5 of the Intel SDM, Volume 3A, kept in pages the allocator hands out; the table tree
  is shown equal to a flat map from virtual page to entry (`Space.Entry`). `Mmu.Walk` is the processor's own walk over
  raw entries; what the operations do is stated as what that walk then sees. `PhysBlocks` restates the allocator's
  promises on the words of its bitmap.
- **Checksums, UDP, IP and DNS** (`kernel/net`). One's-complement sums, the datagrams and packets that are built and
  taken apart, the binding table and the request capture (`UdpHost.Host`), and the DNS encoder and walker. `UdpWire` and
  `DnsWire` give every byte that is sent or accepted.
- **The file pull** (`kernel/commands.c` against `server/app.py`). A client and a server over a channel that loses,
  delays, repeats and reorders replies, ending in FAT appends. `PullWire` gives the replies byte by byte.

`Bytes`, `Bits` and `Places` hold the byte type, 32-bit words bit by bit and "this sequence stands at that place";
`Options` holds the optional value all of them use.

How to read the names: a method that models a C function is proved against a function or a state; lemmas then say what
those mean. `Valid`, `Good`, `Rep` are the invariants. Ghost results (`freed`, `orphaned`, `saved`, …) name what the
caller cannot see but the theorem needs.

## Where the code is not what one would expect

The member that proves a line is named with it.

- Creating a name that is there already makes a second live slot of that name (`FatVolume.Volume.Create`,
  `FatSteps.CreateDouble`); a name that starts with byte 0xE5 is written as a deleted entry (`FatSteps.Hidden`).
- `fat32_write_file` on an existing file frees the old chain first; when the disk is then full the entry still points at
  freed clusters (`FatVolume.Volume.Write`). A create that fails on a full disk leaves the clusters it claimed allocated:
  all that were free (`FatVolume.Volume.Create`).
- `fat32_append_file` follows the clusters the size needs, not the chain to its end. When it grows a file whose chain is
  longer than that, the spare clusters are orphaned: exactly those (`FatVolume.Volume.Append`, `FatAppend.Orphans`).
- A GK function without `return` yields the value of its last statement, although `custom_language/syntax_guide.md:376`
  says None. Which bodies always and which never yield None is read off the tree (`GkReturns.WithoutReturn`); the rest
  depends on variables, calls and how often a loop runs. `GkExamples.NotNone` has a program that prints 5.
- `print` takes several arguments, which the guide denies at line 425 (`GkMeaning.EvalPrint`); a dedent to a level that
  was never opened is accepted (`GkText.Levels`). `break` in a function outside any loop breaks the caller's loop
  (`GkExamples.BreakEscapes`).
- GK ints have 32 bits and nothing checks for overflow; here a run in which one overflows ends as `Stopped(Overflow)`, as
  does the text of the least int (`GkMeaning.HasText`). The depth of the indent stack, the size of literals and the number
  of parameters are not checked either; texts within those limits are `GkPrograms.Runnable`.
- The allocator refuses a request that would use up the last free block (`PhysMem.Allocator.Allocate`).
  `initialize_memory_region` miscounts exactly when the region holds block 0 or was free in part;
  `deinitialize_memory_region` miscounts exactly when some of the region was used.
- `vmm_get_phys` answers 0 both for an unmapped page and for frame 0, and drops the offset in the page. A failed
  `vmm_map` can leave new empty tables behind; it changes no translation.
- The UDP capture keeps the last datagram, not the first as its comment says. `udp_unbind(0)` stops at the first free
  slot, since free slots carry port 0, and so misses a handler bound to port 0 behind one. A request from port 0 never sees
  its reply, and its capture stays bound (`UdpHost.Host.RequestWait`). A packet is handled with as many bytes as its header
  claims, whatever lies behind it (`UdpHost.Host.IpHandle`).
- `dns_parse_reply` adds the record length to a 16-bit position: an overlong length can wrap and be accepted
  (`Dns.OverlongAccepted`); exactly when is stated by `DnsAccepts.OverlongStep`. Without a wrap the accepted messages are
  the well-formed ones (`DnsAccepts.AcceptedExactly`).
- The pull's stage array holds 16384 bytes and is flushed after copying, so a pull of a longer file writes past it, and
  only such a pull (`PullRun.PullHostFile`, ghost `peak`). A GET reply left over from an earlier pull is taken for the
  answer to SIZE, its offset for the size: the pull can then report "Saved" on an empty copy (`PullRun.LeftoverEmpties`).
  A size beyond the file makes the client take the last reply for one of over two billion bytes (`PullRun.Fetch`).

## Model

| member | source | states |
|---|---|---|
| FatFormat.SetEntryEffect | kernel/fs/fat32.c:129-132 | storing a FAT entry changes the 28 bits of that entry, no other entry of the sector, and no reserved bit of any |
| FatFormat.NewEntry | kernel/fs/fat32.c:487-498 | a new entry carries the name, size and first cluster asked for, split over two fields, and is live unless the name's first byte is one of the two markers |
| FatFormat.Restamp | kernel/fs/fat32.c:529-535 | rewriting an entry's cluster and size leaves its name, attributes, creation stamps and liveness as they were |
| FatFormat.Deleted | kernel/fs/fat32.c:560-563 | a deleted entry is no longer live and differs from the old one in its first byte only |
| FatDisk.LbaInjective | kernel/fs/fat32.c:101-103 | different sectors of different clusters lie at different addresses |
| FatDisk.FatWriteRep | kernel/fs/fat32.c:119-142 | writing one entry to the FAT sectors, mirror included, is the update of one element of the entry sequence; data clusters and the agreement of both FATs are kept |
| FatDisk.DataWriteRep | kernel/fs/fat32.c:456-466 | writing a sector of a data cluster changes that part of that cluster and no FAT entry |
| FatLayout.FilesOnDisk | kernel/fs/fat32.c:95-117 | the files the operations speak of are exactly those a reader of the raw sectors finds: byte o of cluster c is byte o % 512 of sector FAT start + FATs * FAT size + (c - 2) * cluster size + o / 512, entries are the low 28 bits of four little-endian bytes of the first FAT, a file's bytes stand along its chain and its slot along the root's |
| FatLayout.ClustersAdjoin | kernel/fs/fat32.c:101-103 | cluster 2 lies directly behind the last FAT, cluster c + 1 directly behind cluster c |
| FatLayout.ClusterByteIs | kernel/fs/fat32.c:101-103 | what the operations take for byte o of cluster c is the byte at that plain sum of products |
| FatLayout.FatWordIs | kernel/fs/fat32.c:105-142 | every FAT's entry, read byte by byte, is the one the operations work with |
| FatLayout.LinkedIs | kernel/fs/fat32.c:105-117 | clusters form a chain for the operations exactly when the raw entries link them and the last one ends it |
| FatLayout.NewEntryBytes | kernel/fs/fat32.c:487-498 | all 32 bytes of a new directory entry |
| FatLayout.RestampBytes | kernel/fs/fat32.c:529-535 | the last twelve bytes of a rewritten entry, the first twenty as before |
| FatLayout.NameBytes | kernel/fs/fat32.c:195-220 | each of the 11 bytes of a name with base and extension: small letters as capitals, spaces behind what is short |
| FatChains.ChainAcyclic | kernel/fs/fat32.c:352-389 | a chain that ends in an end mark visits no cluster twice |
| FatChains.ChainUnique | kernel/fs/fat32.c:105-117 | the chain from a cluster is determined by the FAT |
| FatChains.OwnedAllocated | kernel/fs/fat32.c:144-171 | no cluster of the root directory or of a file is marked free, so none can be handed out again |
| FatChains.GatherRead | kernel/fs/fat32.c:266-298 | bytes read inside the k-th cluster of a chain are the file's bytes at that distance from its start |
| FatChains.GatherWrite | kernel/fs/fat32.c:323-348 | bytes written inside the k-th cluster change the file's bytes there and nowhere else |
| FatChains.SlotWrite | kernel/fs/fat32.c:456-466 | writing 32 bytes at a slot's sector and index replaces that slot of the directory and no other |
| FatChains.SlotStepGood | kernel/fs/fat32.c:455-466 | the volume invariant (chains closed, pairwise disjoint, long enough, directory terminated, names unique, map of files exact) survives replacing one slot's occupant by any that fits |
| FatNames.Encode83 | kernel/fs/fat32.c:195-220 | the loop computes base and extension split at the last dot, cut to 8 and 3, padded with spaces, in upper case |
| FatNames.Format83 | kernel/fs/fat32.c:173-193 | the loop rebuilds base, dot and extension up to their padding, with a dot only if the extension has a character |
| FatNames.FormatEncoded | kernel/fs/fat32.c:173-220 | encoding and formatting a name that fits gives the name in upper case |
| FatNames.EncodedUpper | kernel/fs/fat32.c:206-218 | the 11-byte form of a name does not depend on letter case |
| FatNames.EncodedEqual | kernel/fs/fat32.c:437-442 | names that fit have the same 11-byte form exactly when they agree up to letter case |
| FatWalk.InRangeSafe | kernel/fs/fat32.c:391-399 | freeing by links ends on every FAT with in-range links, cyclic ones included |
| FatWalk.FreedClears | kernel/fs/fat32.c:391-399 | on any such FAT the walk changes entries to free only, and frees the one it starts at |
| FatWalk.FreedChain | kernel/fs/fat32.c:391-399 | on a closed chain it frees exactly that chain |
| FatWalk.GrowChain | kernel/fs/fat32.c:369-371 | a claimed cluster hooked behind a chain closes a chain one longer and touches no other entry |
| FatSteps.WriteThenFree | kernel/fs/fat32.c:352-399 | writing a chain for any content and freeing it gives back the very same FAT |
| FatSteps.FreedCount | kernel/fs/fat32.c:391-399 | freeing a chain raises the number of free clusters by its length |
| FatSteps.LostStep | kernel/fs/fat32.c:517-537 | which clusters are leaked (allocated, in no chain) after one slot's chain is replaced, for any replacement |
| FatSteps.CreateDone | kernel/fs/fat32.c:487-500 | installing a fresh name keeps the invariant, adds exactly that file and leaks nothing |
| FatSteps.CreateDouble | kernel/fs/fat32.c:468-501 | installing a name that is there leaves two live slots with it |
| FatSteps.RewriteDone | kernel/fs/fat32.c:520-537 | free, write anew, restamp: the invariant holds, exactly that file is replaced, nothing is leaked |
| FatSteps.DeleteDone | kernel/fs/fat32.c:555-563 | free, mark deleted: the invariant holds, exactly that file is gone, nothing is leaked |
| FatSteps.CreateDeleteFree | kernel/fs/fat32.c:468-564 | after a create and a delete of the same fresh name the free clusters are those of before |
| FatSteps.KeptOthers | kernel/fs/fat32.c:503-527 | when only free clusters and those of one file are written, the directory on the disk, the chains and the bytes of all other files stay |
| FatSteps.ClaimedLost | kernel/fs/fat32.c:352-389 | clusters claimed to the last free one and put in no chain are exactly what leaks |
| FatAppend.AppendStep | kernel/fs/fat32.c:646-667 | each round of the growing loop stores the next cluster's worth behind the old bytes, touching only clusters that were free |
| FatAppend.AppendDone | kernel/fs/fat32.c:601-676 | in all three layouts (empty with a spare cluster, tail partly filled, tail full) the file ends as old bytes followed by the new, all other files the same, the invariant kept |
| FatAppend.AppendFailed | kernel/fs/fat32.c:646-648 | an append stopped by a full disk keeps the invariant and changes no file |
| FatAppend.OutcomeDone | kernel/fs/fat32.c:590-667 | a finished append had room in the clusters in use and the free ones, and orphans clusters only if it had to grow |
| FatAppend.OutcomeFailed | kernel/fs/fat32.c:646-648 | a refused append would not have fitted into all free clusters |
| FatAppend.LostDone | kernel/fs/fat32.c:590-599 | the leaked clusters after an append are those of before and the orphaned ones |
| FatAppend.Orphans | kernel/fs/fat32.c:590-599 | the orphaned clusters are the part of the old chain behind the last one the old size needed |
| FatVolume.Volume.NextCluster | kernel/fs/fat32.c:105-117 | reading the FAT sector gives the cluster's 28-bit entry |
| FatVolume.Volume.WriteFat | kernel/fs/fat32.c:119-142 | both FATs hold the new entry afterwards, everything else as before |
| FatVolume.Volume.AllocCluster | kernel/fs/fat32.c:144-171 | the lowest free cluster is claimed and closed; 0 exactly when none is free, and then nothing changes |
| FatVolume.Volume.FreeClusterChain | kernel/fs/fat32.c:391-399 | the sectors end as the walk over the links leaves them |
| FatVolume.Volume.WriteClusterChain | kernel/fs/fat32.c:352-389 | succeeds exactly when enough clusters are free, with one cluster even for no content; the new chain holds the content and then zeros, built from clusters that were free; a failure has used up all of them |
| FatVolume.Volume.DirFind | kernel/fs/fat32.c:225-244 | the walk stops at the first slot of the directory where the search stops and reports its place; nothing wanted is missed, the end marker notwithstanding |
| FatVolume.Volume.WriteDirEntry | kernel/fs/fat32.c:456-466 | the 32 bytes at the slot's place are replaced, the rest of the cluster and the FAT as before |
| FatVolume.Volume.Create | kernel/fs/fat32.c:468-501 | succeeds exactly when a slot is left and the content fits; a fresh name is inserted with its content, nothing leaked, all else unchanged. A failure changes no file: without a slot it changes nothing at all, else it has claimed every free cluster, and exactly those are leaked |
| FatConditions.SlotLeftOnDisk | kernel/fs/fat32.c:415-432 | there is room in the directory exactly when some slot of it on the disk starts with 0x00 or 0xE5 |
| FatConditions.FreeOnDisk | kernel/fs/fat32.c:144-171 | the free clusters are exactly those from 2 on whose raw FAT entry is zero |
| FatConditions.ClustersForLeast | kernel/fs/fat32.c:352-358 | the clusters a file needs are at most n exactly when n clusters hold it |
| FatConditions.HiddenNames | kernel/fs/fat32.c:487-498 | the only names that are never found again are those whose first byte is 0xE5 |
| FatVolume.Volume.Write | kernel/fs/fat32.c:503-538 | succeeds exactly when the content fits into the free clusters and the chain of the file overwritten, which is freed; then exactly that file is replaced or inserted and nothing is leaked. After a failed overwrite no cluster is free, the sectors still hold the same directory, and every other file has its chain and content; a failed creation changes no file |
| FatVolume.Volume.Delete | kernel/fs/fat32.c:540-564 | succeeds exactly when the file is there, removes exactly it, frees exactly the chain it had; otherwise nothing changes |
| FatVolume.Volume.LastUsed | kernel/fs/fat32.c:590-599 | the walk ends at the last cluster the file's size reaches |
| FatVolume.Volume.FillTail | kernel/fs/fat32.c:601-643 | what goes behind the old bytes without a new cluster is the front of the content, in the empty and the partly filled layout, and nothing in the full one |
| FatVolume.Volume.AppendGrow | kernel/fs/fat32.c:645-667 | ends with all content stored behind the old bytes, or with a full disk, the files unchanged and too little room for the content |
| FatVolume.Volume.Append | kernel/fs/fat32.c:567-677 | a success makes the file's bytes old ++ new (or creates it) and leaves every other file alone; it succeeds exactly when clusters in use and free ones hold the result; the leaked clusters grow by exactly the orphaned ones |
| FatConditions.AppendRoom | kernel/fs/fat32.c:590-667 | an append to a file has room exactly when old and new bytes fit into as many clusters as hold the file now and all free ones |
| FatFileIO.FileRead | kernel/fs/fat32.c:246-300 | gives content[offset .. min(offset + len, size)], empty from the end on, for files of any size as long as fewer than 2^31 bytes are copied |
| FatConditions.ExcerptBytes | kernel/fs/fat32.c:266-298 | a read returns the file's bytes from the offset on, as many as were asked for or are left |
| FatFileIO.FileWrite | kernel/fs/fat32.c:302-350 | overwrites the file's bytes from offset on, cut at its size, in place; FAT, directory and every other file unchanged |
| FatFileIO.LiveEntriesAre | kernel/fs/fat32.c:731-743 | the listed entries are exactly the live ones: no deleted, volume or long-name entry |
| FatFileIO.NoMoreEntries | kernel/fs/fat32.c:737 | stopping at the end marker loses no entry |
| FatFileIO.RootEntries | kernel/fs/fat32.c:779-809 | the walk returns the live entries in directory order |
| FatFileIO.SameName | kernel/fs/fs.c:42-54 | the comparing loop says yes exactly when the strings, up to their first zero byte, agree up to letter case |
| FatConditions.MatchIs | kernel/fs/fs.c:36-57 | an entry is taken for the file asked for exactly when bit 4 of its attributes is clear and the name it shows has the same length and, letter by letter, the same characters but for case |
| FatFileIO.SameNameSameFile | kernel/fs/fs.c:42-54 | for names that fit, this comparison with a formatted entry agrees with the search by 11-byte name |
| FatFileIO.ReadChunks | kernel/fs/fs.c:59-70 | the 128-byte chunks put together are the whole file |
| FatFileIO.ReadFile | kernel/fs/fs.c:36-71 | on any volume, the content of the first file, in directory order, whose shown name is the one asked for up to letter case; nothing exactly when no such entry is a file |
| FatFileIO.ReadFinds | kernel/fs/fs.c:36-71 | the file that create, write, append and delete mean by a name that fits is the one found, provided that no earlier file with a name no encoder gives is shown alike |
| GkText.LevelsIncrease | kernel/gk/gk_lexer.c:94-102 | the indent stack stays strictly increasing from 0 |
| GkText.LinesClose | kernel/gk/gk_lexer.c:94-102 | from any line start the remaining tokens close exactly the open blocks, never more |
| GkText.TokensBalance | kernel/gk/gk_lexer.c:72-209 | in every token sequence INDENTs and DEDENTs are equal in number, no prefix has more DEDENTs, and the only EOF is the last token |
| GkLexemes.LexemeExactly | kernel/gk/gk_lexer.c:104-195 | one step reads a token exactly when its spelling stands there, as far as it goes: digits and their decimal value; a word of at most 63 characters, given by their codes, which is one of the fifteen keywords or a name; a text between two equal quotes with its escapes, of at most 255 characters; a sign, two characters before one |
| GkLexemes.LineExactly | kernel/gk/gk_lexer.c:104-196 | a line is read as some tokens exactly when it consists of their spellings, spaces and tabs, and perhaps a comment up to its end |
| GkLexemes.TokensExactly | kernel/gk/gk_lexer.c:72-209 | a text has some tokens exactly when its lines have them: blank and comment lines count for nothing, a deeper line opens a block, a shallower one closes those indented further, each line ends with NEWLINE, and the end closes what is open |
| GkComments.CommentIgnored | custom_language/syntax_guide.md:63-67 | a comment, from a `#` outside of any text literal up to the end of the line, inline or alone, changes no token of any source |
| GkComments.EmptyLineIgnored | kernel/gk/gk_lexer.c:88-92 | neither does a line of blanks, with a comment or without, between any two lines |
| GkComments.TabIsFourSpaces | custom_language/syntax_guide.md:45 | tabs behind the spaces of an indentation give the tokens that four spaces each would |
| GkLexer.Lexer.Emit | kernel/gk/gk_lexer.c:47-58 | a token is stored and reported, or the array is full and the failure is remembered |
| GkLexer.Lexer.LexPiece | kernel/gk/gk_lexer.c:104-200 | one step over a line yields the token the text has there, the failures of inner emits showing up as an array too short for the wanted tokens |
| GkLexer.Lexer.LexLine | kernel/gk/gk_lexer.c:104-200 | a line yields its tokens in order, or a character starts no token, or the array is full |
| GkLexer.Lexer.LexLevel | kernel/gk/gk_lexer.c:94-102 | one INDENT for a deeper line, a DEDENT for each level left, and the stack increasing again |
| GkLexer.Lexer.Lex | kernel/gk/gk_lexer.c:72-209 | true exactly when every character starts a token and all tokens fit; the array then holds all of them, none dropped by an ignored emit; the indent stack stays within its 64 levels on texts within the limits |
| GkLexer.LexNumber | kernel/gk/gk_lexer.c:114-122 | the decimal value of the run of digits, up to its end, never beyond 32 bits on the way |
| GkLexer.LexText | kernel/gk/gk_lexer.c:124-148 | the characters up to the closing quote with escapes resolved, or up to the size of the buffer |
| GkLexer.LexWord | kernel/gk/gk_lexer.c:150-168 | the letters, digits and underscores from here on, at most as many as the buffer holds |
| GkSource.DigitsValue | kernel/gk/gk_lexer.c:114-122 | reading a number written in decimal gives the number |
| GkSource.ReadText | kernel/gk/gk_lexer.c:124-148 | a text written with escapes is read back as that text |
| GkSource.ReadWord | kernel/gk/gk_lexer.c:104-195 | every token, written and followed by a space, is read as itself: no keyword or operator is mistaken for another |
| GkSource.SourceRoundTrip | custom_language/syntax_guide.md:45-48 | lexing a program laid out as the guide asks, four spaces per block, gives the program's tokens, for every program |
| GkGrammar.ParseLevel | kernel/gk/gk_parser.c:55-269 | each rung of the ladder takes at least one token and never passes EOF, so parsing ends |
| GkGrammar.ParseStmt | kernel/gk/gk_parser.c:297-467 | a statement takes at least one token and never passes EOF |
| GkGrammar.ParseStmts | kernel/gk/gk_parser.c:275-295 | the statement loop ends in front of the block's end or EOF |
| GkPhrases.ExpressionExactly | kernel/gk/gk_parser.c:55-269 | tokens are read as an expression of a tree exactly when they are a phrase of that tree by the guide's precedence table, binary operators to the left, with at most 64 arguments to a call, and no longer phrase starts there |
| GkStatements.StatementExactly | kernel/gk/gk_parser.c:297-467 | tokens are read as a statement exactly when they have the form of one, with the tree that goes with the form |
| GkStatements.ProgramExactly | kernel/gk/gk_parser.c:469-488 | tokens are read as a program exactly when they are up to 64 statements with newlines around them, each of its documented form: lines, blocks of INDENT to DEDENT, if chains, loops, definitions |
| GkStatements.Unambiguous | kernel/gk/gk_parser.c:469-488 | no token sequence is a program of two trees |
| GkReading.ReadExactly | kernel/gk/gk_interp.c:436-461 | a source text is the program of a tree exactly when its characters spell at most 2048 tokens that are a program of that tree, which has at most 2048 nodes |
| GkPrint.ReadBack | custom_language/syntax_guide.md:200-207 | an expression printed with the documented precedence and left associativity, where a level's operand is wanted, is read by that level's function as the expression's tree |
| GkPrint.ExprRoundTrip | kernel/gk/gk_parser.c:55-269 | printing any expression and parsing it, between any tokens that cannot continue it, gives its tree and takes exactly its tokens |
| GkPrintStmt.ReadStmt | kernel/gk/gk_parser.c:297-467 | the same for every statement: definitions, if chains, loops, assignments, jumps and calls |
| GkPrintStmt.ReadStmts | kernel/gk/gk_parser.c:275-295 | the same for every sequence of statements up to its end token |
| GkPrintStmt.ProgramRoundTrip | kernel/gk/gk_parser.c:469-488 | printing any program within the child limits and parsing it gives the program |
| GkParser.Parser.NewNode | kernel/gk/gk_parser.c:9-23 | a node is added at the end, or the pool is full and nothing is allocated |
| GkParser.Parser.Advance | kernel/gk/gk_parser.c:25-31 | the position moves on unless it is at EOF |
| GkParser.Parser.Primary | kernel/gk/gk_parser.c:55-142 | builds the grammar's tree in fresh slots behind the old ones and stops where the grammar does, or fails with the grammar or for want of slots |
| GkParser.Parser.CallExpr | kernel/gk/gk_parser.c:80-126 | the same for calls, whose node comes before its arguments |
| GkParser.Parser.Unary | kernel/gk/gk_parser.c:144-169 | the same for prefix operators, whose node comes behind its operand |
| GkParser.Parser.Binary | kernel/gk/gk_parser.c:171-269 | the same for each binary level: the loop builds the left-associated tree |
| GkParser.Parser.Block | kernel/gk/gk_parser.c:275-295 | the same for an indented block |
| GkParser.Parser.Stmt | kernel/gk/gk_parser.c:297-467 | the same for any statement |
| GkParser.Parser.Def | kernel/gk/gk_parser.c:327-362 | the same for a definition, parameters first and body last, the children within the node's array |
| GkParser.Parser.If | kernel/gk/gk_parser.c:364-397 | the same for an if with its elif and else |
| GkParser.Parser.Loop | kernel/gk/gk_parser.c:399-442 | the same for a loop's condition or range and its body |
| GkParser.Parser.Parse | kernel/gk/gk_parser.c:469-488 | succeeds exactly when the tokens are a program whose nodes fit; the pool is then that program's tree from node 0, without a node to spare, and the position is at EOF |
| GkTree.PoolIsTree | kernel/gk/gk_parser.c:9-23 | a pool filled by one tree is a tree: from the root every node is reached by exactly one path, though some parents lie before and some behind their children |
| GkTree.UniqueParent | kernel/gk/gk_parser.c:114-123 | every child index is allocated, none is the root, and no node has two parents |
| GkTree.NoCycle | kernel/gk/gk_parser.c:9-23 | no node is below itself |
| GkVars.FindIsLookup | kernel/gk/gk_interp.c:63-68 | the backwards search finds what the innermost scope with the name holds, callers' scopes included |
| GkVars.UpdateIsAssigned | kernel/gk/gk_interp.c:70-77 | changing a variable of the innermost scope is the update of the innermost map, the array staying sorted by scope without a doubled name |
| GkVars.AppendIsAssigned | kernel/gk/gk_interp.c:79-88 | a new variable is an insertion into the innermost map, refused exactly when the array is full |
| GkVars.CountIs | kernel/gk/gk_interp.c:79 | the array's length is the number of variables in all scopes |
| GkVars.Popped | kernel/gk/gk_interp.c:90-95 | dropping the variables of the innermost depth drops the innermost map and no other |
| GkInterp.Interp.FindVar | kernel/gk/gk_interp.c:63-68 | the loop returns the innermost scope's value for the name |
| GkInterp.Interp.SetVar | kernel/gk/gk_interp.c:70-88 | the loop assigns in the innermost map, or fails exactly when the variables are full |
| GkInterp.Interp.PopScope | kernel/gk/gk_interp.c:90-95 | cuts exactly the variables of the current depth and deeper off the end |
| GkInterp.Interp.FindDef | kernel/gk/gk_interp.c:98-103 | the first definition of the name, or -1 exactly when there is none |
| GkInterp.Interp.RunCall | kernel/gk/gk_interp.c:356-395 | a call on the array with its depth counter does what it does on the stack of maps, the depth restored however it ends |
| GkInterp.Interp.RunWhile | kernel/gk/gk_interp.c:300-311 | the loop means the recursive evaluation of condition and body, with return, break and continue |
| GkInterp.Interp.RunFor | kernel/gk/gk_interp.c:313-338 | the same for a counted loop, over range() or an integer |
| GkInterp.Interp.RunDef | kernel/gk/gk_interp.c:340-354 | records name, at most eight parameters and body, or fails when the table is full |
| GkInterp.Interp.Run | kernel/gk/gk_interp.c:107-415 | evaluating a node of the pool gives the value and the state the tree means, and stops exactly when the tree does and for the same reason: an error, an int beyond 32 bits or no fuel; the call depth is restored either way |
| GkMeaning.FindFunc | kernel/gk/gk_interp.c:98-103 | finds nothing exactly when no function has the name, else the one with that name before which there is none |
| GkOperators.ZeroPlusOne | kernel/gk/gk_interp.c:192-196 | `0 + 1` evaluates to 1: the laws below are not met by a scaled arithmetic |
| GkOperators.SubtractAdd | kernel/gk/gk_interp.c:192-196 | `a - b + b` evaluates to a, for all ints that stay within 32 bits |
| GkOperators.AddCommutes | kernel/gk/gk_interp.c:192-196 | `a + b` and `b + a` mean the same on ints, overflow included |
| GkOperators.AddNext | kernel/gk/gk_interp.c:192-196 | `a + (b + 1)` means `a + b + 1` |
| GkOperators.AddOne | kernel/gk/gk_interp.c:192-196 | `a + 1` is the next int, and overflows at 0x7FFFFFFF only |
| GkOperators.TimesNext | kernel/gk/gk_interp.c:192-196 | `a * (b + 1)` means `a * b + a`; with TimesZero that is multiplication |
| GkOperators.TimesZero | kernel/gk/gk_interp.c:192-196 | `a * 0` is 0 |
| GkOperators.DivideMultiply | kernel/gk/gk_interp.c:197-202 | `a / b * b + a % b` is a, the remainder is smaller than b and on the side of a; a zero divisor is an error for both |
| GkOperators.Negated | kernel/gk/gk_interp.c:138-144 | `-a` means `0 - a` |
| GkOperators.Compared | kernel/gk/gk_interp.c:175-206 | the six comparisons of ints say what they look like |
| GkOperators.Trichotomy | kernel/gk/gk_interp.c:175-206 | exactly one of `<`, `==` and `>` holds of two ints, and `<=`, `>=`, `!=` are the negations of `>`, `<`, `==` |
| GkOperators.LessIsNegative | kernel/gk/gk_interp.c:203 | `a < b` means `a - b < 0` |
| GkOperators.Equality | kernel/gk/gk_interp.c:175-186 | values of any kind are `==` exactly when they are the same and not None, which equals nothing, and `!=` is the negation |
| GkOperators.IntsOnly | kernel/gk/gk_interp.c:188-191 | every other operator fails on anything but two ints, but for a text with `+` |
| GkOperators.Not | kernel/gk/gk_interp.c:48-53 | `not` is true exactly of False, 0, the empty text and None |
| GkOperators.AndOr | kernel/gk/gk_interp.c:150-159 | `and` and `or` give the truth of what decides them, and do not evaluate the right side when the left one does |
| GkOperators.Append | kernel/gk/gk_interp.c:166-173 | a text plus any value is the text followed by that value's, cut at 255 characters |
| GkOperators.Texts | kernel/gk/gk_interp.c:29-61 | an int's text is its decimal form, with a sign and without leading zeros; True, False, None and texts are themselves |
| GkOperators.IntOfDecimal | kernel/gk/gk_interp.c:258-275 | int() of a decimal form is its number |
| GkOperators.IntRefuses | kernel/gk/gk_interp.c:258-275 | int() of a text fails when nothing stands behind its sign, or something that is no digit behind the digits of an int |
| GkControl.AssignThenRead | kernel/gk/gk_interp.c:128-133 | after `x = e` the variable x is the value of e and every other variable is what it was |
| GkControl.IfTakes | kernel/gk/gk_interp.c:289-298 | an if takes its body unless the condition is false, then the other branch, or does nothing |
| GkControl.BlockGoesOn | kernel/gk/gk_interp.c:279-287 | a block goes on behind a statement that leaves nothing pending, and ends with one that does |
| GkControl.WhileTurns | kernel/gk/gk_interp.c:300-311 | a while loop whose condition holds runs its body once and starts again, unless the body returned or broke out |
| GkControl.WhileStops | kernel/gk/gk_interp.c:300-311 | and does nothing when it does not hold |
| GkControl.ForTurns | kernel/gk/gk_interp.c:329-338 | a for loop over n runs its body n times, the variable being 0 to n - 1 in order |
| GkControl.ForEnds | kernel/gk/gk_interp.c:329-338 | a return or break in the k-th turn ends it there, the break being over |
| GkControl.ForNone | kernel/gk/gk_interp.c:329-338 | over 0 or a negative number it does nothing, on every body |
| GkControl.CountsUp | kernel/gk/gk_interp.c:213-338 | `for x in range(n): print(x)` prints 0 to n - 1, a line each |
| GkControl.PrintShows | kernel/gk/gk_interp.c:213-224 | print shows its arguments' texts in order with spaces between them and ends the line |
| GkControl.InputTakes | kernel/gk/gk_interp.c:226-244 | input() takes the next line of the input |
| GkControl.ReturnPends | kernel/gk/gk_interp.c:397-406 | `return e` leaves the value of e pending |
| GkControl.DefRemembers | kernel/gk/gk_interp.c:340-354 | a definition is remembered with its name, its first eight parameters in order and its body |
| GkControl.CallRuns | kernel/gk/gk_interp.c:356-395 | a call runs the body of the first function of the name where the i-th parameter is the value of the i-th argument and other names are the caller's; then those are gone and what was returned is the value |
| GkControl.CallGivesArgument | kernel/gk/gk_interp.c:356-395 | a function that returns its i-th parameter gives the i-th argument |
| GkRefusals.UnknownName | kernel/gk/gk_interp.c:118-126 | reading a name is an error exactly when no running call has a variable of that name |
| GkRefusals.NoMoreVariables | kernel/gk/gk_interp.c:79-82 | an assignment fails exactly when the name is new in its call and there are 128 variables |
| GkRefusals.CallRefused | kernel/gk/gk_interp.c:356-370 | a call fails before its arguments are evaluated when there is no such function, the number of arguments is wrong, or 32 calls are running |
| GkRefusals.NoMoreFunctions | kernel/gk/gk_interp.c:341-344 | a definition fails exactly behind 64 others |
| GkRefusals.ForRefused | kernel/gk/gk_interp.c:313-327 | a loop over anything but an int, or over range() without an argument, fails |
| GkRefusals.BuiltinsRefused | kernel/gk/gk_interp.c:246-250 | int() takes one argument; range() outside a loop's head fails |
| GkRefusals.InputAsks | kernel/gk/gk_interp.c:226-244 | input(e) shows the text of e first; without input left the line is empty |
| GkLaws.EvalKeeps | kernel/gk/gk_interp.c:107-415 | an evaluation without error leaves all variables of outer scopes and the number of scopes as they were; with every jump inside a loop of its own function it ends with at most one flag up, none after an expression, only `returning` outside loops |
| GkLaws.WhileKeeps | kernel/gk/gk_interp.c:300-311 | a while loop never leaves break or continue up for its context |
| GkLaws.ForKeeps | kernel/gk/gk_interp.c:313-338 | neither does a for loop |
| GkLaws.CallKeeps | kernel/gk/gk_interp.c:372-394 | a call leaves the scopes exactly as they were once its arguments were evaluated |
| GkLaws.MoreFuel | kernel/gk/gk_interp.c:107-415 | an evaluation that ended ends the same way on any more fuel: the bound decides nothing but whether a run is seen to its end |
| GkEquations.QuotientTruncates | kernel/gk/gk_interp.c:197-202 | division truncates toward zero and the remainder takes the dividend's sign, for all integers and every divisor but 0 |
| GkEquations.IntOfText | kernel/gk/gk_interp.c:246-276 | int() of the text of a 32-bit number is the number, negative ones included, but for the least of all, whose text overflows |
| GkEquations.NotAnd | kernel/gk/gk_interp.c:135-159 | `not (a and b)` means `not a or not b` for all expressions: value, side effects, short circuit and errors |
| GkEquations.NotOr | kernel/gk/gk_interp.c:135-159 | `not (a or b)` means `not a and not b` likewise |
| GkEquations.ElifIsElse | kernel/gk/gk_interp.c:289-298 | an elif means the same as an else with an if in it, however that run ends |
| GkReturns.EvalSays | kernel/gk/gk_interp.c:107-415 | for every tree and every state with nothing pending: without a return in it, an evaluation that ends leaves no return pending; its value is None if every way through it ends in a print, a definition or a jump, and not None if every way ends in a literal, an operation, input() or int() |
| GkReturns.WithoutReturn | custom_language/syntax_guide.md:376-378 | a call of a function without a return yields None if its body always ends in None, and never None if its body never does, both read off the tree |
| GkExamples.NotNone | custom_language/syntax_guide.md:376-378 | the program that defines f with body 5 and prints f() prints 5 where the guide says None |
| GkPrograms.Run | kernel/gk/gk_interp.c:436-469 | the verdict on a text is refusal exactly when it is no program that fits, else what its tree means: the error it stops with, or the output |
| GkPrograms.WrittenMeans | kernel/gk/gk_interp.c:436-469 | a program written down within the limits is read as itself: text, tokens, nodes and evaluation lose nothing |
| GkPrograms.StmtPlaced | kernel/gk/gk_interp.c:403-409 | a statement whose jumps are in loops of their own functions keeps them there in its tree |
| GkPrograms.ProgramKeeps | kernel/gk/gk_interp.c:436-469 | such a program ends with no break or continue pending and only the top-level scope left |
| GkExamples.BreakEscapes | kernel/gk/gk_interp.c:386-394 | without that condition the law fails: the break of a called function ends the caller's `while True`, and the program goes on to its last line |
| PhysMem.WithBitAt | kernel/mem/physical_mem/physical_mem.c:16-24 | `|= 1 << n` and `&= ~(1 << n)` on the 32-bit words of the bitmap change that block's mark and no other |
| PhysMem.BlockMark | kernel/mem/physical_mem/physical_mem.c:16-24 | block b is used exactly when bit b % 32 of word b / 32, counted from the lowest, is set |
| PhysBlocks.WrittenIs | kernel/mem/physical_mem/physical_mem.c:16-24 | marking a run sets or clears exactly the bits of its blocks |
| PhysBlocks.UsedIs | kernel/mem/physical_mem/physical_mem.c:51-57 | the counter is the number of bits set |
| PhysBlocks.LowestIs | kernel/mem/physical_mem/physical_mem.c:26-49 | what is handed out is the first place where that many bits in a row are clear |
| PhysBlocks.AddressIs | kernel/mem/physical_mem/physical_mem.c:82-94 | and its address is 4096 times that block's number |
| Bits.PutHas | kernel/mem/physical_mem/physical_mem.c:16-24 | or with a one-bit mask sets that bit of the word, and with its complement clears it, every other bit stays |
| Bits.SameWord | kernel/mem/physical_mem/physical_mem.c:31-33 | words whose 32 bits test alike are the same word |
| PhysMem.UsedWritten | kernel/mem/physical_mem/physical_mem.c:89-104 | marking a run moves the number of set bits by exactly those that were not so before |
| PhysMem.AllocateThenFree | kernel/mem/physical_mem/physical_mem.c:82-104 | allocating a run and freeing it restores every bit |
| PhysMem.Allocator.constructor | kernel/mem/physical_mem/physical_mem.c:51-57 | all blocks used and counted |
| PhysMem.Allocator.FindFirstFreeBlocks | kernel/mem/physical_mem/physical_mem.c:26-49 | the lowest start of a free run of that length, -1 exactly when there is none or the length is 0 |
| PhysMem.Allocator.Allocate | kernel/mem/physical_mem/physical_mem.c:82-94 | gives the lowest free run, never block 0 or a held block, exactly when one exists and more blocks are free than asked for; the counter stays the number of set bits |
| PhysMem.Allocator.FreeBlocks | kernel/mem/physical_mem/physical_mem.c:96-104 | held blocks become free, no other changes, the counter follows |
| PhysMem.Allocator.InitializeRegion | kernel/mem/physical_mem/physical_mem.c:59-69 | the region becomes free but for block 0, whatever it was; the counter goes down by its size modulo 2^64, and is right exactly when the region was all used and does not hold block 0 |
| PhysMem.Allocator.DeinitializeRegion | kernel/mem/physical_mem/physical_mem.c:71-80 | the region becomes used; the counter stays right exactly when all of it was free |
| PhysMem.Allocator.OneFits | kernel/mem/physical_mem/physical_mem.c:84 | a single block is there to be had exactly when the counter is below the total |
| PageTree.SamePath | include/mem/paging.h:9-12 | the four indices of two addresses agree exactly when their bits 12 to 47 do |
| PageTree.LeafNames | include/mem/paging.h:34-35 | an entry made of an address and flags is present and names the address's frame, whatever the flags |
| Mmu.LeafBits | kernel/mem/virtual_mem/paging.c:77 | an entry has the low 12 bits of the flags with bit 0 set, the flags' bits from 52 up, and the address's bits 12 to 51 |
| Mmu.LinkBits | kernel/mem/virtual_mem/paging.c:26-31 | an entry that links a table is present, writable, not for users, no large page, executable, and names the table |
| Mmu.WalkIs | include/mem/paging.h:9-35 | the processor's walk over the raw entries of the four tables meets at every address what the flat map from addresses to entries says, with the rights of the links on the way |
| Paging.LeafGrants | kernel/mem/virtual_mem/paging.c:77 | behind an entry made of address and flags lies that frame, writable, cached and executable exactly as the flags say |
| PageTree.OneTable | kernel/mem/virtual_mem/paging.c:99-100 | one zeroed table is a tree that translates nothing |
| PageTree.Grow | kernel/mem/virtual_mem/paging.c:26-31 | a zeroed page that is no table yet, hung under a missing entry, keeps the tree (no page in two places) and translates nothing new |
| PageTree.Store | kernel/mem/virtual_mem/paging.c:77 | writing a last-level entry changes that entry of that path, no other path's, and keeps the tree |
| Paging.Space.AllocTable | kernel/mem/virtual_mem/paging.c:16-21 | a zeroed page that was free, so none that is a table; refused exactly when at most one block is free |
| Paging.Space.Next | kernel/mem/virtual_mem/paging.c:25-33 | the table below an entry, made on demand: a missing one is added exactly when a block can be had, no translation changes |
| Paging.Space.GetPte | kernel/mem/virtual_mem/paging.c:23-53 | the table of the address's last index; without `create` nothing changes; with it the walk fails exactly when the missing tables use up the free blocks; no translation changes either way |
| Paging.Space.Map | kernel/mem/virtual_mem/paging.c:73-80 | afterwards the processor finds at every address of the page the frame given, with the rights of the flags, and at every address with other bits 12 to 47 what it found before; a failure changes nothing it finds; success exactly when the missing tables can be had, and then just those are made |
| Paging.Space.Unmap | kernel/mem/virtual_mem/paging.c:82-88 | the processor faults on that page and finds everything else as before, no table or block changes hands |
| Paging.Space.GetPhys | kernel/mem/virtual_mem/paging.c:90-95 | the address of the frame in which the processor finds the page if it is mapped, else 0; nothing changes |
| Paging.Space.MapRange | kernel/mem/virtual_mem/paging.c:145-151 | the loop maps page by page; translations outside the range never change; it succeeds exactly when the tables missing on the range's paths, shared ones counted once, can be had, makes just those, and then the whole range translates as asked |
| Paging.Space.MmioMap | kernel/mem/virtual_mem/paging.c:133-154 | succeeds exactly when the tables missing for the window can be had; then the processor finds at every byte of the window, addresses wrapping at 2^64 included, its byte of the device range, writable and uncached; at every address outside the window it finds what it did before, and so it does everywhere below a window that does not wrap |
| Paging.WindowsApart | kernel/mem/virtual_mem/paging.c:142-143 | windows one behind the other share no page as long as together they fit the 48 translated bits |
| Paging.Space.Init | kernel/mem/virtual_mem/paging.c:97-131 | succeeds exactly when the root and all tables for the three ranges can be had; afterwards the processor finds the kernel, writable and cached, where it was loaded, faults wherever no range has an entry, and, with the framebuffer in the lower half, finds low memory and the framebuffer at themselves, writable, the framebuffer uncached |
| Paging.BootKernel | kernel/mem/virtual_mem/paging.c:122-128 | after boot the kernel's addresses open the memory where it was loaded, writable and cached, wherever the framebuffer is |
| Paging.BootScreen | kernel/mem/virtual_mem/paging.c:107-120 | the framebuffer opens itself, writable and uncached, but for pages the kernel's range takes over |
| Paging.BootLow | kernel/mem/virtual_mem/paging.c:102-105 | low memory opens itself, writable and cached, but for pages a framebuffer beyond the 48 translated bits takes over |
| Paging.BootSelf | kernel/mem/virtual_mem/paging.c:102-120 | with the framebuffer in the lower half both open themselves, uncached exactly on the framebuffer's pages |
| Checksum.ChecksumAdd | kernel/net/udp.c:35-46 | adds the big-endian words to the running sum, an odd last byte standing high, without overflow of 32 bits |
| Checksum.Fold | kernel/net/udp.c:73-74 | the folding loop ends, with the sum's end-around carry form |
| Checksum.FoldedShift | kernel/net/udp.c:73-74 | a positive sum folds by its value modulo 65535 only (section 1 of RFC 1071) |
| Checksum.ChecksWhen | kernel/net/udp.c:48-51 | a message checks out exactly when its sum is a positive multiple of 65535 |
| Checksum.ComplementSums | kernel/net/udp.c:147-153 | adding the complement of a sum, or all ones for a zero complement, makes it check out |
| Checksum.SumsSwap | kernel/net/ip.c:14-29 | the folded little-endian sum is the byte swap of the folded big-endian one, for every buffer (section 2(B) of RFC 1071) |
| Checksum.IpChecksum | kernel/net/ip.c:14-29 | the loop's result is the byte swap of the big-endian checksum, odd lengths included |
| Udp.DatagramChecks | kernel/net/udp.c:130-157 | every datagram built verifies, for odd and even lengths and for a zero sent as all ones, never says "no checksum", and reads back with its ports, length and payload (RFC 768) |
| Udp.WordErrorDetected | kernel/net/udp.c:114-115 | a datagram that verifies no longer does after any one aligned word is changed, but for all zeros against all ones |
| Udp.IpHeaderChecks | kernel/net/ip.c:45-50 | re-summing a header with its checksum stored gives zero in either byte order (section 3.1 of RFC 791) |
| UdpHost.Delivered | kernel/net/udp.c:98-128 | a datagram built by the sender, even with bytes behind it, reaches the handler of its port whole, and no one if the port is unbound |
| UdpHost.IpDelivered | kernel/net/ip.c:31-104 | the receiver reads the addresses, protocol and payload the sender put in |
| UdpHost.PacketArrives | kernel/net/udp.c:98-157 | what one host sends to a bound port arrives there through both layers with sender, port and payload, whatever lies in memory behind it |
| UdpHost.HonestPacket | kernel/net/ip.c:81-104 | a packet whose header claims no more bytes than it has is handled by its own bytes alone |
| UdpHost.AnswerCaptured | kernel/net/udp.c:98-183 | the answer of the host asked, sent to the port the request came from, is the reply captured |
| UdpHost.UdpChecksum | kernel/net/udp.c:52-77 | the complement of the sum over pseudo header and datagram |
| UdpWire.CoveredIs | kernel/net/udp.c:52-77 | what is summed is the two halves of the source, the two halves of the destination, 17, the length and the datagram's words, an odd last byte times 256 (RFC 768) |
| UdpWire.VerifiesWhen | kernel/net/udp.c:52-77 | a datagram verifies exactly when that sum is a multiple of 65535 |
| UdpWire.AddressesCovered | kernel/net/udp.c:54-67 | a datagram that verifies for one destination does not for another that differs in one 16-bit half, 0 against 65535 aside; the same goes for the source |
| UdpWire.SentBytes | kernel/net/udp.c:130-157 | every byte of the packet sent, both headers with their checksums included |
| UdpWire.DatagramBytes | kernel/net/udp.c:130-157 | every byte of a datagram; its checksum is never zero and makes that sum a multiple of 65535 |
| UdpWire.HeaderBytes | kernel/net/ip.c:31-79 | every byte of the header of a packet, whose words sum to a multiple of 65535 |
| UdpWire.DeliversExactly | kernel/net/udp.c:98-128 | which bytes are delivered, to which port and with which payload: the condition on length, checksum and bindings, both ways |
| UdpWire.TakesExactly | kernel/net/ip.c:81-104 | which packets a host takes, and what it reads in them, byte by byte, both ways |
| UdpHost.Host.Bind | kernel/net/udp.c:79-96 | the port is bound afterwards, no other port's handler changes; refused exactly when it was unbound and the table is full |
| UdpHost.Host.Unbind | kernel/net/udp.c:159-167 | the port is unbound, no other port changes; for port 0 it works exactly when no free slot comes first |
| UdpHost.Host.Handle | kernel/net/udp.c:98-128 | delivers exactly what the length, checksum and binding rules allow; a captured payload replaces the one before, cut to the buffer |
| UdpHost.Host.IpHandle | kernel/net/ip.c:81-104 | passes on packets for this address and protocol with the bytes their header claims, even those behind the packet, and nothing else |
| UdpHost.Host.Send | kernel/net/udp.c:130-157 | refuses exactly the payloads that do not fit, else emits the packet the receiver's theorems speak of |
| UdpHost.Host.RequestStart | kernel/net/udp.c:185-203 | a fresh capture on the source port with the request sent, exactly when the port can be bound and the payload fits; other ports keep their handlers; after a failure nothing is listening, and the source port has no handler, but for port 0, where it is stated when the capture stays |
| UdpHost.Host.RequestFinish | kernel/net/udp.c:222-229 | the source port is free again, other ports untouched, nothing captured left |
| UdpHost.Host.RequestWait | kernel/commands.c:1041-1053 | request, wait and finish: the answer is the last reply of the first arrival that brings one, nothing exactly if none does; all handlers but the source port's are as before and that one is free, but for port 0, which never sees a reply and stays captured |
| Dns.EncodeName | kernel/net/dns.c:23-47 | writes the wire form of section 4.1.2 of RFC 1035 exactly when every label has 1 to 63 bytes |
| Dns.SkipName | kernel/net/dns.c:84-110 | the loop ends and agrees with the walk over labels and pointers, on any message up to 1472 bytes, without 16-bit overflow |
| Dns.SkipsName | kernel/net/dns.c:84-110 | any name of labels with a zero or a compression pointer at its end (section 4.1.4) is skipped to exactly its end |
| Dns.SkipsEncoded | kernel/net/dns.c:23-110 | skipping what the encoder wrote stops exactly at its end |
| Dns.ParseReply | kernel/net/dns.c:127-178 | the loops agree with the message walk and read only inside the message, on any bytes |
| Dns.ParsesReply | kernel/net/dns.c:127-178 | from every well-formed reply, compressed names included, the first A record with four bytes of data is returned; nothing from queries and error replies |
| Dns.Query | kernel/net/dns.c:50-74 | the query sent is a well-formed message with one question for the name, which the walker reads to exactly its end |
| DnsWire.QueryBytesAre | kernel/net/dns.c:50-74 | every byte of the query: identifier 0x1234, recursion desired, one question for type and class 1 |
| DnsWire.LabelsJoin | kernel/net/dns.c:27-43 | the labels of a name have no dots in them, and joined by dots are the name, but for one dot at its end |
| DnsWire.LabelsSplit | kernel/net/dns.c:27-43 | any labels without dots, joined, are split into themselves, with a dot at the end or without |
| DnsWire.NameBytesAre | kernel/net/dns.c:23-110 | in a message each label stands behind a byte with its length, one behind the other, in front of a zero or the two bytes of a pointer |
| DnsWire.MessageBytesAre | kernel/net/dns.c:131-133 | the header's numbers with their high bytes first, then questions, records and the rest |
| DnsWire.RecordBytesAre | kernel/net/dns.c:158-172 | a record is its name, type, class and time to live, the length of the data, and the data |
| DnsWire.FirstAddressIs | kernel/net/dns.c:162-170 | the address given is the four bytes, the highest first, of the first record of type 1 with four bytes |
| Dns.OverlongAccepted | kernel/net/dns.c:159-174 | a reply whose first record claims more than the message holds is accepted |
| DnsAccepts.OverlongStep | kernel/net/dns.c:159-174 | for every message: a record that is no address and claims more than the message holds is refused exactly if its end does not wrap to a place inside the message; otherwise the walk goes on there |
| DnsAccepts.AcceptedExactly | kernel/net/dns.c:127-178 | for every message of a reply's size: it is accepted without any wrap exactly when it is an answer without error code that consists of the questions and records it claims, up to its first address |
| DnsAccepts.WellFormedAccepted | kernel/net/dns.c:127-178 | the address then given is the first one of those records |
| Pull.ParseDec | kernel/commands.c:1033-1039 | the value of the run of digits modulo 2^32, and where it ends |
| Pull.DecValue | server/app.py:80 | reading a number the server printed gives the number |
| Pull.AnswerFits | server/app.py:20-23 | no reply of the server exceeds the client's buffer |
| PullWire.SizeAnswer | server/app.py:76-80 | the bytes of the reply to SIZE: `OK`, a space and the size in decimal |
| PullWire.GetAnswer | server/app.py:93-106 | the bytes of the reply to GET: offset, size and length in decimal, then a newline and up to 1430 bytes of the file from the offset on; no newline from the end of the file on |
| PullWire.DecDigits | server/app.py:80 | digit i of a number counts ten times the one behind it, as in decimal notation |
| PullWire.DecLeads | server/app.py:80 | without leading zeros |
| Pull.FirstFieldReads | server/app.py:76-106 | whatever reply arrives, stale bytes behind it included, the client's first field is the number the server put first |
| Pull.GetReads | server/app.py:93-106 | the fields of a data reply are read as offset, size and length, with the chunk behind the header |
| Pull.ReadGet | kernel/commands.c:1192-1222 | the client recovers from any reply its offset, and for data replies exactly the chunk's bytes; without data the count wraps to 2^31 bytes or more |
| PullRun.Fetch | kernel/commands.c:1192-1230 | a reply counts exactly when it is for the offset asked: inside the file it brings the next chunk, at the end a count without end |
| PullRun.PullHostFile | kernel/commands.c:1134-1267 | over any channel that loses, delays, repeats or reorders replies, the one to SIZE included, the local file is a prefix of the server's whatever happens, all other files unchanged; "Saved" means that the bytes the SIZE reply was taken to claim, rounded up to chunks, were fetched, so the copy is whole exactly when the file has no more than that; a claim beyond the file is the only way to overrun; when every request is answered only the disk can stop an honest run; the stage stays within its array exactly when no more than its size is fetched |
| PullWire.SavedIs | kernel/commands.c:1134-1267 | what "Saved" comes to in numbers: the size told was no more than the file's, the fewest chunks of 1430 bytes that hold it were fetched, or the whole file, and the stage stayed within 16384 bytes exactly when no more than that was fetched |
| PullWire.SavedWhole | kernel/commands.c:1134-1267 | the copy is whole exactly when those chunks hold the file |
| PullRun.LeftoverEmpties | kernel/commands.c:1152-1166 | a reply to the first GET of an earlier pull, arriving in answer to SIZE, makes the pull of any file report "Saved" and leave an empty one |

## Left out

- FatVolume.Volume.Create: sizes are below 2^32; the volume after a success with a name that was there already is not followed further; that it then breaks the unique-names invariant is what is stated.
- FatVolume.Volume.Write: sizes are below 2^32; after a failed overwrite the volume is not followed further, since the entry then points at freed clusters.
- FatVolume.Volume.Append: sizes are below 2^32; the 32-bit size field's wrap-around is excluded by a requirement.
- FatFileIO.FileRead: fewer than 2^31 bytes are copied, since the count is an `int`.
- FatFileIO.ReadFile: the file found is below 2^31 bytes, as its `int` positions need; other files may have any size.
- FAT32 sector errors: sector reads and writes always succeed.
- FAT32 geometry: sectors have 512 bytes and equal the drive's; every FAT entry has a data cluster; the root directory is zero-terminated and its names unique at the start. `drive_open`'s parsing of the boot sector is not modelled.
- FAT32 timestamps, long names, subdirectories and `fat32_mkdir`: constants, skipped or absent in the code.
- GkInterp.Interp.Run: takes a fuel bound the code does not have, since GK loops may diverge; GkLaws.MoreFuel shows that the bound never changes a result. What a failed run printed, the texts of error messages and line numbers are not compared.
- GkInterp.Interp.Run, on overflow: what the original does once an int leaves its 32 bits is undefined; the model stops there.
- GkLexer.Lexer.Lex: the text has at most 64 levels of indentation open, no literal beyond 32 bits, and no NUL character.
- GkParser.Parser.Def: definitions have at most 63 parameters, since the code writes a longer list past the node's array.
- GkSource.SourceRoundTrip: programs are written without negative literals, with names of at most 63 characters that are no keyword, texts of at most 255 characters and non-empty blocks, as the language has no text for others.
- PhysMem.Allocator.Allocate: the number of blocks is a multiple of 32 and the bit behind the bitmap is set, because the run scan has no upper bound; block numbers stay below 2^31.
- PhysMem.Allocator.FreeBlocks: requires the blocks to be held, as callers must ensure; freeing a free block breaks the counter.
- PhysMem.Allocator.InitializeRegion: the region lies inside the managed blocks.
- Paging.Space.MmioMap: a window has at most the 2^48 bytes that can be translated at all.
- Paging.Space.Init: the framebuffer has at most the 2^48 bytes that can be translated at all.
- Paging: TLB flushes, CR3 and the page-fault handler are hardware effects; page contents other than tables are left alone.
- UdpHost.Host.IpHandle: behind a packet there are as many bytes of memory as a header can claim; ARP, Ethernet, the network card and ICMP are not part of this model.
- UdpHost.Host.Send: the packet is the result; whether ARP finds a next hop is outside.
- Dns.EncodeName: an invalid name gives no result here; in the code it leaves the length uninitialised. Names are shorter than 65535 bytes.
- Dns.ParseReply: messages have at most 1472 bytes, the size of the reply buffer.
- PullRun.PullHostFile: the stage is a sequence, so that a file longer than the array can be followed; once the client starts to copy billions of bytes nothing more is said. The local name is new, the SIZE reply is followed by a byte that is no digit, and both parties mean one unchanging file below 2^32 bytes. Timeouts are missing deliveries. How the server splits a request into words, LIST, NOENT and EARG replies, and the progress display are left out.
- kmalloc, processes, ELF, terminal, editor, drivers and the server's web pages are not part of this model.
