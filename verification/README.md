# Verified models of the z23 tools

This project models the decision-making core of several command-line tools of the
z23 repository and proves what they are relied on for. The model follows the C
code: loops that fill buffers and rewrite records are methods and classes over
arrays and fields, proved against functions that say what the result means;
read-only scanners and codecs are functions.

- **core_seal** (`Seal*.dfy`): path validation, the two-level digest of a file set
  (per-directory n-ary Merkle tree and flat ROOT), the manifest text, `seal` and
  `check`.
- **arena_runner and arena_svg** (`Arena*.dfy`): the lock-step match between two
  pilots that may die at any point, the replay it records, the verifier, and the
  renderer's re-simulation with its 60-state window. Flight and gunnery are any
  function; the tick shell, codecs and state encoding are concrete.
- **agent_guard_rules** (`Shell*.dfy`): the shell tokenizer as a step machine over
  the remaining text, and as a class that writes words into an arena.
- **consensus_rule_sweep** (`Sweep*.dfy`, `Fields.dfy`): the vector of swept heights
  and the digest preimage.
- **contrib_inbox** (`Inbox*.dfy`): the seen ledger byte by byte, and passes over the
  board with an arbitrary environment.
- **corpus_census_scopes** (`Census.dfy`), **dep_audit** (`Versions.dfy`),
  **file_size_policy** (`FileSize*.dfy`).

`Bytes`, `Decimal`, `Sorting`, `Stdio`, `StrCmp`, `Text` and `Wrappers` hold what they
share.

SHA3-256 is an arbitrary function to 32 bytes. Statements that need it to be
injective say so for the finite set of preimages actually hashed (`NoCollision`).
Everything outside the programs (files, pilots, posts, crashes) is a parameter
without restriction.

## What the proofs found

- `seal` followed by `check` on unchanged files is refused when no sealed path
  contains a directory (`SealCheck.FlatSealIsRefused`); otherwise it returns 0, and
  only for equal files (`SealCheck.SealThenCheck`).
- The replay verifier does not look at the controls recorded for dead planes, so any
  replay in which a plane is dead can be turned into one that is accepted and that no
  run produces (`ArenaRunner.UnrecordedReplay`); `ArenaRunner.RealizableIff` gives the
  exact condition. Nothing else is free: every accepted replay has the outcome of a
  match that can be flown (`ArenaRunner.AcceptedIsFlown`).
- `&>` passes its first character to the operator tail, so `&>>` is read as two
  redirect operators in a row. The recorded target is the same
  (`ShellCommands.StepBoth`, `ShellCommands.RedirectRecorded`).
- Inside `$( )` a here-string is taken for a heredoc at its second character, and the
  scan runs past the closing bracket (`ShellRegions.HereStringRunsOn`).
- The 1025th command of a text is in no segment, although its words are kept up to the
  4096th (`ShellLimits.ManyCommands`).
- The comment at `tools/consensus_rule_sweep.h:415-420` says the contiguous shortcut
  is the sampled set. That holds exactly when the stride divides the horizon
  (`SweepVector.ShortcutExactIff`). The comments at lines 30-35 and 108-116 say a rule
  changed from a height on is always caught, regardless of stride. For heights up to the
  top of the range that holds exactly if the bands touch, the stride divides the horizon
  or the top lies in a fixed family (`SweepDigest.EveryGateDetectedIff`). The default
  sweep meets the condition; the default tip, stride and band with `--horizon=1500` on
  the main network do not (`SweepDigest.MainGateMissed`).
- A ledger row cut short by a failed append can hide the next row from the reader, so
  at-most-once holds with one extra attempt per torn row (`InboxLedger.AtMostOnce`,
  `InboxLedger.TornRowRepeats`). When appends are all-or-nothing the bound is one.
- The promise that a burst between passes is never skipped
  (`tools/contrib_inbox.c:1037-1041`) fails when a later page does not load: the newer
  posts are worked off alone, and once a page shows nothing unseen no page after it is
  asked for. It also fails past 50 posts or 17 pages. `Inbox.Inbox.LeftBehind` gives the
  exact condition, told from the board and the loads of one pass, and the posts that are
  lost; `InboxPass.OrderIff` gives the exact condition for the seen posts to stay the
  older ones. While the pages load, order is kept under every other failure
  (`Inbox.Inbox.Pass`).
- A version equal to the minimum except for a leading zero fails the audit
  (`Versions.LeadingZeroFails`).
- The promise that `--fix` never raises a number and never adds a row
  (`tools/file_size_policy.c:53-55`) fails when two lines start with the same path
  (`FileSizeFix.RepeatedPathRaised`, `FileSizeFix.BareTokenAdded`);
  `FileSizeFix.FixShrinksIff` gives the exact condition, and distinct paths meet it.
  A `--fix` run can also pass and leave a file that the next run refuses
  (`FileSizeFix.FixThenGateIff`).

## Model

| member | source | states |
|---|---|---|
| SealPath.ComponentVerdict | tools/core_seal.c:274-292 | the component loop accepts exactly the paths whose every maximal slash-free component is non-empty, not "." or "..", and short enough |
| SealPath.PathVerdict | tools/core_seal.c:299-318 | a path is accepted exactly if it is sealable: relative, bounded, printable, good components |
| SealMerkle.LeafPreimageInjective | tools/core_seal.c:500-550 | the bytes hashed for a file determine its path and its content |
| SealMerkle.LeafIsNeverNode | tools/core_seal.c:500-550 | no file preimage equals a directory preimage, for any file and any list of children |
| SealMerkle.NodePreimageInjective | tools/core_seal.c:779-801 | the bytes hashed for a directory determine its path and its whole child list |
| SealMerkle.SectionBinds | tools/core_seal.c:779-801 | equal digests of a directory in two file maps force every file below it to be the same |
| SealMerkle.SectionLocal | tools/core_seal.c:783-801 | a directory digest depends on nothing outside that directory |
| SealMerkle.SectionDigestIff | tools/core_seal.c:783-801 | a section digest changes exactly when some file below the section changes |
| SealMerkle.TreeBinds | tools/core_seal.c:829-1019 | TREE alone determines the whole path-to-bytes map, and conversely |
| SealMerkle.RootPreimageInjective | tools/core_seal.c:708-721 | the bytes hashed for ROOT determine the list of path and digest pairs |
| SealMerkle.RootBinds | tools/core_seal.c:708-721 | ROOT alone determines the whole path-to-bytes map, and conversely |
| Seal.ReadEntries | tools/core_seal.c:569-641 | the token loop takes the wanted paths in input order and errs only on bad input |
| Seal.ReadAndHash | tools/core_seal.c:647-694 | succeeds exactly for a terminated list of distinct sealable existing paths, and then yields the sorted entries of exactly that file map |
| Seal.ComputeRoot | tools/core_seal.c:708-721 | the running sponge over the sorted entries is ROOT of the file map |
| SealTree.AncestorChain | tools/core_seal.c:804-865 | the parent walk of one path lists exactly its ancestor directories |
| SealTree.CollectDirectories | tools/core_seal.c:832-865 | the collected list holds exactly the ancestor directories of all paths |
| SealTree.CollectFiles | tools/core_seal.c:903-944 | the file scan gives one child per file directly in the directory; the child-overflow exit is unreachable |
| SealTree.CollectSubdirs | tools/core_seal.c:903-944 | the directory scan completes the child list and the recursive file count from already sealed sub-directories |
| SealTree.SealNode | tools/core_seal.c:948-959 | sorting the children and hashing gives the digest of the recursive definition; the order-violated exit is unreachable |
| SealTree.BlankNodes | tools/core_seal.c:869-898 | the sorted, deduplicated directory list is the strictly ascending list of all directories |
| SealTree.ComputeSections | tools/core_seal.c:969-1019 | for every file map the reverse walk gives each directory exactly the recursive Merkle digest and file count, places every file once, and reaches no internal-error exit |
| SealTree.RootNode | tools/core_seal.c:969-1019 | the first node is the root directory, counts every file, and its digest is TREE |
| SealLines.ParseU64Field | tools/core_seal.c:1036-1055 | the digit loop with its overflow guard computes the declarative canonical-decimal parse |
| SealLines.ParseU64Iff | tools/core_seal.c:1036-1055 | a number has exactly one accepted spelling |
| SealLines.SectionLineIff | tools/core_seal.c:1069-1132 | a physical line parses as a SECTION record exactly if it is the line printed for that record |
| SealLines.HexLineIff | tools/core_seal.c:1137-1150 | the same for TREE and ROOT lines |
| SealLines.FileLineIff | tools/core_seal.c:1155-1173 | the same for per-file lines, paths with spaces included |
| SealManifest.ReadPrint | tools/core_seal.c:1208-1402 | every printed manifest reads back, through the bounded line reader, as exactly the view it was printed from |
| SealText.ReadTextIff | tools/core_seal.c:1208-1402 | for every text and view: the text reads as the view without complaint exactly if it is a concatenation of comment lines, blank lines and the printed lines of the view, each record once and in order within its kind, ROOT last, within the limits and without repeated section names; so a stray byte, a carriage return, an over-long line, a second TREE and data after ROOT are all refused |
| Seal.SealedViewPrintable | tools/core_seal.c:1620-1624 | within the file and section limits every sealed view is printable |
| SealCheck.WriteManifest | tools/core_seal.c:1626-1685 | the emit loops print header, files, sections, TREE, ROOT in that order |
| SealCheck.DoSeal | tools/core_seal.c:1626-1685 | seal succeeds exactly for good, non-empty, in-limit input and writes the manifest of exactly the sealed map |
| SealCheck.ReadManifest | tools/core_seal.c:1365-1402 | the fgets loop reads a text without complaint exactly if the text is the lines of a view and nothing else, and then returns that view |
| SealCheck.VerifyFiles | tools/core_seal.c:1410-1443 | returns 0 exactly when the manifest lines are the entries, in order |
| SealCheck.OrphanSections | tools/core_seal.c:1472-1490 | reports exactly whether some manifest section names no directory |
| SealCheck.VerifySections | tools/core_seal.c:1498-1572 | returns 2 exactly without SECTION or TREE lines, and 0 exactly when the sections and TREE are those recomputed |
| SealCheck.DoCheck | tools/core_seal.c:1687-1747 | check returns 0 exactly for a text that is the lines of a view recording exactly the sealed map, and 2 exactly for bad input or a text that is not a manifest with ROOT, TREE and SECTION lines |
| SealCheck.SealThenCheck | tools/core_seal.c:1626-1747 | the manifest sealed from one map checks against another exactly when the maps are equal and some path has a directory |
| SealCheck.FlatSealIsRefused | tools/core_seal.c:1498-1572 | a concrete set without directories seals but is refused by check on unchanged files |
| SealCheck.SealAndCheck | tools/core_seal.c:1626-1747 | seal then check as two runs on two disks: 0 exactly when the second disk holds the sealed files and some path has a directory |
| ArenaSim.DecodeEncodeCtl | contexts/commons/packages/zdogfight/src/zdogfight.c:565-589 | decoding an encoded control gives the control |
| ArenaSim.EncodeDecodeCtl | contexts/commons/packages/zdogfight/src/zdogfight.c:565-589 | every seven bytes are the encoding of the control they decode to |
| ArenaSim.EncodeStateInjective | contexts/commons/packages/zdogfight/src/zdogfight.c:435-484 | equal state bytes are equal states, so the byte comparison of the trailing block compares the whole match |
| ArenaSim.StateFields | contexts/commons/packages/zdogfight/src/zdogfight.c:464-484 | where tick, planes, phase, winner, scores and world stand in the state bytes and what they read back as |
| ArenaSim.PlayTicks | contexts/commons/packages/zdogfight/src/zdogfight.c:282-305 | until the match is done every frame counts one tick; afterwards none does |
| ArenaSim.MatchOutcome | contexts/commons/packages/zdogfight/src/zdogfight.c:282-305 | a complete match ends on the first tick that reaches a score or the tick limit, and the higher score wins |
| ArenaSim.CompletePrefixFree | tools/arena_runner.c:807-820 | no accepted frame list is a proper prefix of another for the same seed and planes |
| ArenaReplay.DecodeEncodeFrames | tools/arena_runner.c:535-550 | the frame region of a replay decodes to the frames it was built from |
| ArenaReplay.EncodeDecodeFrames | tools/arena_runner.c:760-776 | every frame region of the right size is the encoding of the frames it decodes to |
| ArenaReplay.ReplayUnique | tools/arena_runner.c:744-830 | accepted bytes have one seed, one plane count and one frame list |
| ArenaChain.ChecksumTells | contexts/commons/packages/zdogfight/src/zdogfight.c:486-498 | states whose encodings differ in exactly one byte have different checksums |
| ArenaChain.ChainIsFold | tools/arena_runner.c:63-65 | the chain of a run is the hash fold of the state checksums after the ticks that are multiples of 600 |
| ArenaChain.SumsAt | tools/arena_runner.c:63-65 | while every frame counts a tick the j-th fold takes the checksum after frame 600 (j + 1) |
| ArenaChain.ChainIff | tools/arena_runner.c:404-412 | any two runs have one chain exactly if they have one seed, one plane count and the same list of folded checksums, if the hash does not confuse what is folded |
| ArenaChain.ChainOfReplays | tools/arena_runner.c:642-643 | two recorded matches of one length print one chain exactly if they have one seed, one plane count and equal checksums after every 600th tick |
| ArenaChain.RootsTell | tools/arena_runner.c:60-62 | the replay root tells recorded matches apart, the state root their final state bytes |
| ArenaRunner.MatchCompletes | tools/arena_runner.c:582-640 | whatever the pilots do, the match ends and its recorded frames are a complete match |
| ArenaRunner.FrameAt | tools/arena_runner.c:352-393 | each recorded frame is what the tick rule gives from the match and the deaths at that turn |
| ArenaRunner.DeadTeamNeutral | tools/arena_runner.c:345-393 | from the tick a pilot dies on, its whole team is recorded neutral |
| ArenaRunner.RecordedNeutral | tools/arena_runner.c:352-393 | every recorded control of a dead plane is neutral |
| ArenaRunner.RealizableIff | tools/arena_runner.c:760-864 | a complete frame list is recorded by some pair of pilots exactly when every dead plane is neutral in it |
| ArenaRunner.DeadControlsFree | contexts/commons/packages/zdogfight/src/zdogfight.c:200-208 | if the flight code does not read a dead plane's control: a replay whose dead planes are given other controls is a replay with the same final state |
| ArenaRunner.UnrecordedReplay | tools/arena_runner.c:760-864 | for every such flight code, every accepted replay and every plane dead at some tick: any other control there gives another accepted replay, and no pilots can have caused it |
| ArenaRunner.AcceptedIsFlown | tools/arena_runner.c:760-864 | conversely every accepted replay ends after the ticks and in the state of a match some pair of pilots really flies |
| ArenaRun.GatherTeam | tools/arena_runner.c:352-393 | asking plane by plane, with the pilot dying anywhere, gives the controls of the tick rule; the death tick is recorded; other planes are untouched |
| ArenaRun.GatherTick | tools/arena_runner.c:513-531 | both teams gathered give the next frame of the log |
| ArenaRun.PutCtl | contexts/commons/packages/zdogfight/src/zdogfight.c:565-576 | a control is written at an offset without disturbing what precedes it |
| ArenaRun.AppendTickFrames | tools/arena_runner.c:535-550 | appends a whole tick, or nothing exactly when the tick and a final state would not both fit |
| ArenaRun.PutHeader | tools/arena_runner.c:465-472 | the buffer starts with magic, version, seed and planes |
| ArenaRun.RegionFits | tools/arena_runner.c:104-107 | no match can exceed the replay cap |
| ArenaRun.RunMatch | tools/arena_runner.c:582-692 | for every pilot behaviour: never hits the cap, the bytes are the canonical replay of the match played, the roots and death ticks are those of that match |
| ArenaRun.ReplayElim | tools/arena_runner.c:744-864 | every replay passes each check of the verifier and decodes to its own seed, planes and frames |
| ArenaRun.ReplayIntro | tools/arena_runner.c:744-864 | bytes that pass the checks are the replay of what they decode to |
| ArenaRun.VerifyWalk | tools/arena_runner.c:760-776 | the walk re-simulates exactly the encoded frames and folds exactly their root chain |
| ArenaRun.VerifyReplay | tools/arena_runner.c:778-864 | accepts exactly the replays, and with an expected root exactly those with that root; prints the roots of the recorded match |
| ArenaRun.RecordThenVerify | tools/arena_runner.c:582-864 | a recorded match is accepted with the same roots; a file checked against the recorded root is accepted exactly if it is the recorded file |
| ArenaSvg.Window.Push | tools/arena_svg.c:504-516 | the ring keeps the last 60 states with the oldest at the head |
| ArenaSvg.Window.Oldest | tools/arena_svg.c:486-490 | the head is the state 60 pushes ago, or the first one |
| ArenaSvg.NotePanels | tools/arena_svg.c:466-516 | one loop turn keeps every panel right for the states so far |
| ArenaSvg.Simulate | tools/arena_svg.c:594-605 | after the loop the panels show first shot, first kill, midpoint and one second before the last kill |
| ArenaSvg.Render | tools/arena_svg.c:530-625 | renders exactly the byte strings the verifier accepts, with its roots and the panels of the recorded match |
| ShellTok.StepAdvances | tools/agent_guard_rules.c:460-474 | every tokenizer step reads at least one character and never past the end |
| ShellBounds.TokenizeSound | tools/agent_guard_rules.c:195-474 | for every text: arena use is at most twice the text; the segments partition the words in order up to where the last one ends; unless the segment table filled up that is all of them, and every redirect belongs to an existing segment |
| ShellLimits.ManyCommands | tools/agent_guard_rules.c:215-252 | for any list of commands of any quoted words, each ended by a separator: the first 4096 words and the first 1024 segments are kept, so all words are in segments exactly if there are no more than 1024 commands and 4096 words |
| ShellBounds.TokenizeSlices | tools/agent_guard_rules.c:254-329 | every recorded substitution and heredoc body is a slice of the text |
| ShellBounds.StepGood | tools/agent_guard_rules.c:195-458 | every step keeps arena room, the partition and redirect ownership |
| ShellScan.SkipParenExtend | tools/agent_guard_rules.c:151-174 | a `$( )` scan that stops before the end of the text stops there whatever follows |
| ShellScan.QuotedExtend | tools/agent_guard_rules.c:282-340 | a closed double-quoted region reads the same whatever follows it |
| ShellScan.BodyExtend | tools/agent_guard_rules.c:117-135 | a heredoc body ended by a delimiter line is unaffected by later text |
| ShellScan.BodyFinish | tools/agent_guard_rules.c:117-135 | a delimiter on an unfinished last line is found when the line is finished |
| ShellCompose.RunLater | tools/agent_guard_rules.c:215-474 | tokenizing in the middle of a text gives the same tokens with moved indices and offsets, below the caps |
| ShellCompose.StepFinish | tools/agent_guard_rules.c:254-458 | a step with nothing left open is unchanged by text after a newline |
| ShellCompose.NewlineComposes | tools/agent_guard_rules.c:195-474 | for every cleanly ending text a and every b, the tokens of a, newline, b are those of a followed by those of b, moved |
| ShellQuoting.TokenizeUndoesQuoting | tools/agent_guard_rules.c:206-279 | any 1 to 4096 words, single-quoted and joined by blanks, tokenize to one segment of exactly those words |
| ShellCommands.SeparatorSplits | tools/agent_guard_rules.c:434-458 | for all words, every separator and any following text: the words are one segment and the rest is tokenized on its own |
| ShellCommands.ReadBare | tools/agent_guard_rules.c:195-204 | a word without special characters is pushed as it stands, and counts as a number exactly if it is all digits |
| ShellCommands.RedirectRecorded | tools/agent_guard_rules.c:380-432 | for all words, all targets bare or quoted, all redirect operators (`&>>` as two of them), with or without a descriptor number and blanks: output targets are recorded for the segment, input sources are dropped, neither is a word |
| ShellCommands.DelimIff | tools/agent_guard_rules.c:117-135 | a line ends a heredoc exactly if it is any number of tabs and then the delimiter, and no line does if the delimiter starts with a tab |
| ShellCommands.ReadBody | tools/agent_guard_rules.c:117-135 | a heredoc body is the lines before the first one that is the delimiter, leading tabs aside |
| ShellWords.ReadData | tools/agent_guard_rules.c:282-340 | any data in double quotes (characters, escaped special characters, a backslash before an ordinary character, continuations, substitutions of both kinds) is read to the closing quote; its text and its substitutions are recorded exactly |
| ShellWords.ReadWritten | tools/agent_guard_rules.c:342-363 | a word in any mixture of bare characters, escapes, single quotes, double quotes and continuations is one word with the joined text, a number exactly if all of it is bare digits |
| ShellScript.LineTokenized | tools/agent_guard_rules.c:195-474 | for every line of commands with any separators, each of words, redirects and heredocs in any order and spelling, operators set apart or joined on to a word, continuations anywhere, a comment at the end, and any text after the heredoc bodies: words, recorded targets, segments and substitutions are those of the items; each segment is fed by the first heredoc standing in it, also when separators follow it on the line; no body is read as commands; what follows is tokenized on its own |
| ShellScript.LastLineTokenized | tools/agent_guard_rules.c:460-474 | the same for the last line of a text without a newline; heredocs left waiting feed nothing |
| ShellScript.ContinuedWord | tools/agent_guard_rules.c:352-353 | for all bare u and v: u, backslash, newline, v is the one word u + v |
| ShellScript.ContinuationsVanish | tools/agent_guard_rules.c:352-353 | continuations between and inside the items of a line change no word, no target and no segment |
| ShellCommands.CommentIgnored | tools/agent_guard_rules.c:365-378 | a comment after blanks adds nothing |
| ShellCommands.BackslashedWord | tools/agent_guard_rules.c:342-363 | a word with every character escaped is that word |
| ShellCommands.DoubleQuotedWord | tools/agent_guard_rules.c:282-340 | a word double-quoted with its special characters escaped is that word, with no substitution |
| ShellCommands.SkipTicked | tools/agent_guard_rules.c:311-329 | the backtick scan stops at the mark after a text exactly if no other unescaped mark is in it and it ends no escape |
| ShellCommands.BackticksRecorded | tools/agent_guard_rules.c:300-329 | every text a backtick can close, escapes included, is word data between backticks in double quotes and recorded exactly for scanning |
| ShellNesting.SkipCode | tools/agent_guard_rules.c:151-191 | the bracket scan passes over any nesting of quotes, escapes, brackets, heredocs and substitutions before a closing bracket, up to the level limit |
| ShellNesting.SubstitutionRecorded | tools/agent_guard_rules.c:300-329 | for all such code a `$( )` in double quotes is word data, and exactly the code between the brackets is recorded for scanning |
| ShellRegions.RegionIff | tools/agent_guard_rules.c:138-191 | for every text after `$(`: the scan stops before the end exactly if the text starts with such code and its closing bracket, and it stops right there |
| ShellRegions.HereStringRunsOn | tools/agent_guard_rules.c:138-174 | a here-string with no line after it takes the scan past the closing bracket to the end of the text |
| ShellEval.EvalBuf | tools/agent_guard_rules.c:1301-1325 | for any rules: a text is refused exactly if it, or a text at most four recorded substitutions deep, breaks a rule |
| ShellLexer.Lexer.Push | tools/agent_guard_rules.c:195-204 | a character goes to the arena in bounds and the state is the machine state after a push |
| ShellLexer.Lexer.EndWord | tools/agent_guard_rules.c:215-237 | the word is terminated in the arena and routed; earlier words keep their text |
| ShellLexer.Lexer.EndSeg | tools/agent_guard_rules.c:239-252 | the state is the machine state after closing the segment |
| ShellLexer.Lexer.SingleQuote | tools/agent_guard_rules.c:273-279 | the copying loop is one machine step |
| ShellLexer.Lexer.DoubleQuote | tools/agent_guard_rules.c:331-340 | the loop of escapes, substitutions and copies is one machine step |
| ShellLexer.Lexer.Newline | tools/agent_guard_rules.c:254-271 | the heredoc loop attaches the bodies the machine attaches |
| ShellLexer.Lexer.Tokenize | tools/agent_guard_rules.c:460-474 | the whole pass refines the machine run, whose meaning on every line is `ShellScript.LineTokenized`; no write leaves the 2 * len + 16 arena; every stored word is the machine word |
| SweepVector.EmittedIff | tools/consensus_rule_sweep.h:358-429 | the heights pushed are exactly the clipped union of the four families |
| SweepVector.ShortcutExactIff | tools/consensus_rule_sweep.h:413-429 | the contiguous shortcut emits every stride band, and nothing else exactly when the stride divides the horizon |
| SweepVector.TopSweptIff | tools/consensus_rule_sweep.h:358-429 | the top of the range is swept exactly if the bands touch, the stride divides the horizon, or the top lies in a fixed family |
| SweepVector.GapAboveLastBand | tools/consensus_rule_sweep.h:413-429 | the default tip, stride and band with a horizon of 1500 on the main network schedule sweep nothing in the last 500 heights |
| SweepVector.Buffer.Push | tools/consensus_rule_sweep.h:309-319 | in-range heights are stored while there is room, and a miss is remembered |
| SweepVector.Buffer.PushStrided | tools/consensus_rule_sweep.h:424-428 | the double loop pushes exactly the stride bands |
| SweepVector.Dedupe | tools/consensus_rule_sweep.h:438-443 | in-place compaction leaves each value of the sorted prefix once |
| SweepVector.SortDedupe | tools/consensus_rule_sweep.h:436-443 | sorting and compaction leave a strictly ascending prefix with the same elements |
| SweepVector.BuildVector | tools/consensus_rule_sweep.h:358-446 | fails closed exactly when the pushes do not fit; otherwise strictly ascending, exactly the swept heights, all within [0, tip + horizon + band] and int32 |
| Fields.FieldsSplit | tools/consensus_rule_sweep.h:192-231 | a concatenation of fixed-width and length-prefixed fields has one reading |
| SweepDigest.MaskInjective | tools/consensus_rule_sweep.h:466-474 | the packed mask determines every upgrade slot |
| SweepDigest.RowFieldsInjective | tools/consensus_rule_sweep.h:492-514 | the fields absorbed for a row determine the row |
| SweepDigest.PreimageInjective | tools/consensus_rule_sweep.h:492-590 | the preimage determines the configuration, every absorbed parameter and every row |
| SweepDigest.DetectsIff | tools/consensus_rule_sweep.h:598-636 | two builds asked the same question agree exactly when their rows agree at every swept height |
| SweepDigest.GateDetectedIff | tools/consensus_rule_sweep.h:108-116 | a rule changed from a height on is detected exactly if that height is not above the largest swept height |
| SweepDigest.LastSwept | tools/consensus_rule_sweep.h:413-429 | the largest swept height reaches at least the last stride band, and the top of the range exactly under that condition |
| SweepDigest.EveryGateDetectedIff | tools/consensus_rule_sweep.h:30-35 | the promise that a rule changed from any height of the range on is always caught holds exactly if the bands touch, the stride divides the horizon, or the top lies in a fixed family |
| SweepDigest.DefaultDetectsEveryGate | tools/consensus_rule_sweep.h:331-339 | the default sweep keeps the promise for every compiled schedule |
| SweepDigest.MainGateMissed | tools/consensus_rule_sweep.h:108-116 | with a horizon of 1500 on the main network a changed rule is caught exactly up to 500 below the top |
| SweepDigest.DigestDetectsIff | tools/consensus_rule_sweep.h:598-636 | two digests agree exactly when the rows agree at every swept height, if the hash does not confuse the two preimages |
| SweepDigest.AbsorbHeader | tools/consensus_rule_sweep.h:520-590 | the absorb loops produce the declared header bytes |
| SweepDigest.Run | tools/consensus_rule_sweep.h:598-636 | fails exactly for a bad configuration or when the pushes do not fit; otherwise the digest is the hash of the preimage of exactly the rows at the heights swept for the compiled parameters |
| InboxLedger.AlignedRow | tools/contrib_inbox.c:430-468 | a row appended where no line is open is seen from then on, and changes nothing else |
| InboxLedger.RecordedSeenIff | tools/contrib_inbox.c:430-468 | a row just recorded is seen exactly if no chunk of the 256-byte reader was open before it |
| InboxLedger.FixedKept | tools/contrib_inbox.c:430-454 | an id in a finished line stays seen whatever is appended |
| InboxLedger.AtMostOnce | tools/contrib_inbox.c:430-468 | over every run with crashes and failures anywhere, an id gets at most one public post attempt, plus one per append that left part of a row |
| InboxLedger.TornRowRepeats | tools/contrib_inbox.c:209-225 | a concrete run in which one torn row makes the same post be answered twice |
| Inbox.Inbox.CheckSeen | tools/contrib_inbox.c:430-454 | an unreadable ledger counts as seen and fails the pass |
| Inbox.Inbox.MarkSeen | tools/contrib_inbox.c:458-468 | success means the whole row is in the ledger and the process lives; failure fails the pass; exactly the bytes written are added |
| Inbox.Inbox.PublicPost | tools/contrib_inbox.c:768-784 | one attempt for the post just recorded, unless the process dies first; success exactly if it went out |
| Inbox.Inbox.Ack | tools/contrib_inbox.c:803-820 | the received note is tried once and the escalate row is written whether or not it went out |
| Inbox.Inbox.Respond | tools/contrib_inbox.c:822-1026 | the post is answered, and not escalated, exactly if it is not a need, the work gave an answer and the answer went out; otherwise it is escalated, and not answered, unless the process dies or the row cannot be written, which fails the pass |
| Inbox.Inbox.Handle | tools/contrib_inbox.c:1000-1027 | takes up exactly an unseen valid id of others whose row was recorded in full, and then settles it as Respond does; a seen post changes nothing; an unseen one is recorded whenever the pass goes on |
| InboxBoard.HiddenIff | tools/contrib_inbox.c:1091-1112 | an unseen post is out of reach of every pass exactly if it is past the first 50 posts or 17 pages, or a page before it shows nothing unseen |
| Inbox.Inbox.Fetch | tools/contrib_inbox.c:1091-1112 | never reads past the first page that shows nothing unseen; while pages load it reads all within reach or the pass has failed; of a burst of unseen posts it reads all, or exactly the pages before the first that does not load, page k being asked for at the start of the pass + 2 * k |
| Inbox.Inbox.Walk | tools/contrib_inbox.c:1114-1126 | whatever fails and wherever the process dies, while appends are whole or nothing the posts recorded are the unseen ones of the list from some place on; when nothing fails that place is where the four slots or the posts run out; at most four posts are dealt with, each answered exactly under that condition and escalated otherwise; when nothing fails they are the unseen posts of others from that place on, oldest first |
| InboxPass.OrderIff | tools/contrib_inbox.c:1037-1041 | after a pass over a burst in which nothing fails but the load of pages, the seen posts are the older ones exactly if nothing is unseen, the first page does not load, or the burst is within the limits and every page asked for loads |
| InboxPass.SkipsIff | tools/contrib_inbox.c:1037-1041 | after such a pass an unseen post is out of reach exactly if the burst is past the limits, or a page k after the first does not load and the four slots take all of page k - 1 |
| Inbox.Inbox.Pass | tools/contrib_inbox.c:1128-1139 | for every board and ledger: posts out of reach are left alone whatever fails while appends are whole or nothing; while pages load nothing unseen falls out of reach; a pass in which nothing fails takes four unseen posts or all within reach; and for a burst both conditions above; at most four posts are dealt with, answered or escalated as in the walk |
| Inbox.Inbox.Drain | tools/contrib_inbox.c:1128-1139 | over any number of passes order and the posts out of reach are kept; k passes in which nothing fails take 4 * k unseen posts or all within reach; enough of them leave seen exactly the posts that were seen or within reach |
| Inbox.Inbox.LeftBehind | tools/contrib_inbox.c:1037-1041 | a burst met by one pass with failing page loads and then by enough passes in which nothing fails is all seen in the end exactly if the first pass did not skip; otherwise, within the limits, exactly its posts from the missed page on are left behind |
| Inbox.Inbox.Passes | tools/contrib_inbox.c:1128-1139 | any number of passes keep the at-most-once bound on the posts actually made, and no id is answered and escalated more often than posted |
| Census.CollectMatches | tools/corpus_census_scopes.c:214-249 | the matches are exactly the claims of the scope prefixes on the tree |
| Census.SortMatches | tools/corpus_census_scopes.c:45-54 | the comparator order: path, tests first, longest prefix, scope |
| Census.AssignWinners | tools/corpus_census_scopes.c:253-285 | fails exactly on a shared best claim; otherwise the lists hold exactly the best claims |
| Census.Resolve | tools/corpus_census_scopes.c:291-323 | fails exactly if two scopes hold some path equally well; otherwise each list is the ascending list of the paths its scope holds: through the longest tests prefix, or, when no scope has a tests prefix of the path, through the longest source prefix |
| Census.OneScopeEach | tools/corpus_census_scopes.c:287-323 | a path is in one scope list only, once |
| Census.NoneForgotten | tools/corpus_census_scopes.c:287-323 | every claimed path is in some list |
| Census.EnumerationIrrelevant | tools/corpus_census_scopes.c:287-323 | the result does not depend on the order in which files are enumerated |
| Versions.StripUnique | tools/dep_audit.c:371-385 | digit runs of any length have equal value exactly when they strip to the same digits |
| Versions.StrippedCompare | tools/dep_audit.c:371-385 | length, then bytes, orders stripped digit runs by value |
| Versions.NumericCmp | tools/dep_audit.c:371-385 | compares two digit runs by value and ends past both |
| Versions.VersionCmp | tools/dep_audit.c:387-403 | is the lexicographic order of the token sequences |
| Versions.VersionPreorder | tools/dep_audit.c:387-403 | is a total preorder on all byte strings |
| Versions.TiesIff | tools/dep_audit.c:387-403 | ties exactly the strings equal after dropping leading zeros in every digit run |
| Versions.BeforeIff | tools/dep_audit.c:387-403 | a version comes before another exactly if the texts, equal but for leading zeros up to some point outside a number, go on there with a smaller number, a smaller character, or not at all |
| Versions.OlderOf | tools/dep_audit.c:406-412 | is the older of the two: by where the texts part, and for equal versions by byte order |
| Versions.AtLeastOrder | tools/dep_audit.c:406-412 | the refined order is a total order |
| Versions.NumberDecides | tools/dep_audit.c:371-412 | for every common start and whatever follows: the smaller of two different numbers makes the version older |
| Versions.CharDecides | tools/dep_audit.c:398-399 | the same for two different characters that are not both digits |
| Versions.PrefixDecides | tools/dep_audit.c:390-399 | a version is older than one that goes on after it |
| Versions.CheckVersion | tools/dep_audit.c:490-510 | a version passes exactly if it is known and not older than the minimum |
| Versions.LeadingZeroFails | tools/dep_audit.c:490-510 | for every minimum and every number in it: a zero written before that number ties with the minimum as a version and fails the audit |
| Versions.ZlibLeadingZero | tools/dep_audit.c:68 | zlib 1.02.12 is refused for the minimum 1.2.12 |
| Versions.OpensslPatch | tools/dep_audit.c:60 | for the minimum 3.0.16 version 3.0.15 is refused and 3.0.100 passes |
| FileSize.PrintedParses | tools/file_size_policy.c:567-578 | the line --fix writes reads back as that path and number |
| FileSize.FixedRows | tools/file_size_policy.c:580-621 | the rows of the rewritten file are the fixed rows |
| FileSize.FixTightens | tools/file_size_policy.c:561-621 | where every row is judged by itself: each row left was there before with the same or a higher number |
| FileSizeFix.RaisedIff | tools/file_size_policy.c:567-610 | a line comes out with a higher number exactly if the first row with its path is to be lowered to a count above the line's own number |
| FileSizeFix.FixShrinksIff | tools/file_size_policy.c:53-55 | --fix raises no number and adds no row, the rows left being some of the old ones in order, exactly if no line meets that condition |
| FileSizeFix.DistinctShrinks | tools/file_size_policy.c:561-621 | with distinct paths no line meets it |
| FileSizeFix.RepeatedPathRaised | tools/file_size_policy.c:229-235 | a second row for a path is raised to the count that lowered the first |
| FileSizeFix.BareTokenAdded | tools/file_size_policy.c:602-610 | a path without a number, no row before, becomes a second row for the path |
| FileSize.FixIdempotent | tools/file_size_policy.c:580-621 | where every row is judged by itself a second --fix changes nothing |
| FileSizeFix.SecondFix | tools/file_size_policy.c:580-621 | a second --fix changes nothing and counts nothing, whatever the paths |
| Stdio.PiecesJoined | tools/file_size_policy.c:354-355 | lines that fit the read buffer, written one after another, are read back as the same lines |
| FileSizeFix.FixTextIdempotent | tools/file_size_policy.c:580-621 | on the bytes of the file: a rewritten baseline whose lines fitted the buffer reads back as the lines written, and a second --fix leaves its bytes alone |
| FileSize.FixTally | tools/file_size_policy.c:717-737 | the tally after --fix is that of a fresh run on the rewritten file |
| FileSize.FixVerdict | tools/file_size_policy.c:815-840 | after --fix only files over the limit and grown rows remain violations, the same as before |
| FileSize.ViolatesIff | tools/file_size_policy.c:815-840 | for files scanned once the verdict fails exactly if a file over 1500 lines has no row or more lines than its row allows, or a row has no scanned file over 1500 lines |
| FileSize.FixRowsIff | tools/file_size_policy.c:561-621 | the rows --fix leaves are exactly those of files over 1500 lines, each with the smaller of its number and the count |
| FileSize.Run.Load | tools/file_size_policy.c:346-379 | loads exactly the rows, and fails exactly on a minted exemption in the closed baseline |
| FileSize.Run.Classify | tools/file_size_policy.c:445-477 | one file updates the state of its row, or is noted as over the limit |
| FileSize.Run.Rewrite | tools/file_size_policy.c:580-621 | for all lines the rewritten lines and the change count are those of the verdict on the first row with each line's path; without a change the file is left alone |
| FileSize.Run.Summarize | tools/file_size_policy.c:717-737 | counts the states and settles them after a fix |
| FileSize.TallyFails | tools/file_size_policy.c:815-840 | the tally is non-zero exactly if some file is over the limit without a row, some row grew, or, unless a fix changed something, a row has to go or repeats a path |
| FileSize.Gate | tools/file_size_policy.c:775-852 | exit 2 exactly on a hollow scan or a minted exemption, otherwise 1 exactly for those failures; the file left is the rewritten one; for distinct paths the exit is 1 exactly if the file left breaches the policy (see `FileSize.ViolatesIff`) and after --fix its rows are exactly the tightened ones (`FileSize.FixRowsIff`); a pass on the closed baseline bounds every scanned file by 1500 or its compiled ceiling |
| FileSizeFix.RepeatsIff | tools/file_size_policy.c:561-621 | the rewritten file repeats a path exactly if a path whose row stays has two rows, or a path whose row is lowered starts two lines |
| FileSizeFix.FixThenGateIff | tools/file_size_policy.c:739-747 | the verdict of a --fix run that changed something is that of a fresh run on the file it leaves exactly if it fails anyway or no path is written twice |

## Left out

- SHA3-256 itself, file descriptors, symlink and stat checks, Win32 branches, process spawning, sandboxing, pipes and clocks.
- core_seal: the text of the manifest header (any comment lines), usage and error messages, and allocation failure.
- arena: flight, gunnery, respawn and observation code of zdogfight (any function of world and controls), 32-bit wrap-around of scores, the printed match summary, the SVG text, arena_view, arena_hud, arena_frame and arena_present.
- ArenaChain.SumsAt: for frame lists in which every frame counts a tick, as in every recorded or accepted match; past the end of a match the tick stands still, and only ArenaChain.ChainIff speaks of such lists.
- agent_guard_rules: the rule tables and the checks that read the tokens, their descent into heredocs and nested shells included (any rules).
- ShellBounds.TokenizeSound: once 1024 segments are full it gives the partition of the covered words only, because further segments are dropped.
- ShellNesting.SkipCode: stops at the level limit of 12, past which the scanner gives up; which texts are left over is what ShellRegions.RegionIff states.
- ShellScript.LineTokenized: for lines within the caps (4096 words, 1024 segments, 512 redirects, 64 substitutions, 4 heredocs); past the first two ShellLimits.ManyCommands says what is kept. Quotes left open to the end of the text are covered by the step machine only.
- ShellScript.ContinuationsVanish: for lines that read as written both with and without the continuations; one between `$` and `(` or between `<<` and `-` keeps two characters apart that would otherwise be one operator.
- consensus_rule_sweep: the consensus functions that fill a row (any function of the height), the checkpoint table digest, the row hook and the printing.
- contrib_inbox: the answer filters, the responder checkout, the daily call counter, dry runs, the pass lock, and the text of posts; only their outcome is modelled.
- Inbox.Inbox.Fetch: pages are the board's list in order; a fixture's unreadable first page is not told apart from a quiet one.
- corpus_census_scopes: git enumeration and its shell command, extension filter, allocation failure, and file loading.
- dep_audit: version detection in archives and headers, provenance checks and output.
- Versions.CheckVersion: does not model the audit's fail counter and row output.
- file_size_policy: the directory walk, allowlist and fixture rules (the scanned files are given), NUL bytes in the baseline, saturation of `strtol`, failure to replace the file, the advisory 800-line band, reports.
- FileSize.Gate: the clause on the closed baseline and the one for distinct paths need each file scanned once; overlapping scan roots are not modelled.
- FileSizeFix.FixTextIdempotent: for lines within the 1087-byte buffer; a longer line is read in pieces, each judged as a line, and pieces can join up again after a rewrite.
- The repository's other tools, among them a cold-start benchmark that times a node (bench_fresh_sync), a driver that renders and submits wallet pages (bot), exporters that copy tables of the node database (export_snapshot, mint_v2_snapshot), the package and retrieval checks and the pattern gates over the tree; and the node itself.
