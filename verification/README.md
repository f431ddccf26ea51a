# Verified models of the inference gateway

This project models seven parts of the gateway in Dafny 4.11 and proves what they
promise: for every input, every interleaving of callers, every history of events and
every answer of the outside world. `dafny verify dfyconfig.toml` checks all of it.

| part | modules | models |
|---|---|---|
| IPv4 address pool | `Bits`, `IpGenerator`, `IpPool`, `PoolProtocol`, `PoolSearch`, `PoolContents` | `api/ippool` |
| Source rewriter | `Scanning`, `ScrubLexer`, `ScrubGrammar`, `ScrubSyntax`, `ScrubSafety`, `ScrubBreaks`, `ScrubRewrite`, `ScrubFile`, `ScrubStructure` | `scripts/scrub-internal-ids.py` |
| C masker and call arguments | `Scanning`, `CMask`, `MaskSyntax`, `Brackets`, `CallArguments`, `CallGrammar`, `MaskCut`, `Collapsing`, `CastPeeling`, `CTypes` | `scripts/check_conv_pool_identity.py` |
| Boot configuration | `BootRetry`, `Boot`, `BootMeaning`, `InterfaceMap` | `api/loxinlp/nlp.go`, `api/loxinlp/boot_retry.go` |
| IPVS reconciler | `Ipvs` | `api/loxinlp/ipvs.go` |
| CORS allowlist | `Cors` | `common/cors.go` |
| Band triples, JSON Pointer | `BandTriple`, `JsonPointer` | `common/fc_queue.go`, `scripts/validate-swagger-contract.rb` |

`Text` holds the string functions they share.

## How the outside world appears

- Machine words are natural numbers with bit operations defined bit by bit; the 32-bit
  wrap and the truncation to bytes are written out. Shifts by constants are divisions.
- Address pool: CIDR parsing yields a network whose host bits are clear. Other callers
  of the counter appear in `NextIP` as the number of draws they make before each swap,
  and in `PoolProtocol` as arbitrary steps between any two steps of a call. Pool
  operations that run entirely under the mutex are one step.
- Source rewriter: the function that rewrites one comment or string body is an arbitrary
  function. Files are texts with `\n` line ends, as Python's text mode delivers them.
- Boot: the answers of the file system, the restore engine and the clock are a `World`.
  The clock never goes back and a sleep lasts at least as long as asked, as Go promises.
  The effects on the outside are a trace of events.
- IPVS: a failed rule hook changes nothing. The loops over the Go map visit the entries in
  any order.

## Where the code and its documentation differ

The models follow the code.

- `api/ippool/ippool.go:50` says that a call returns nil when all addresses are in the
  pool. `PoolProtocol.NilWithFreeAddress` builds an interleaving in which it returns nil
  although an address is free. `PoolProtocol.FreeAtNil` names the two possible causes and
  `PoolProtocol.NilTruthfulExactly` says exactly when the answer is truthful.
- `scripts/scrub-internal-ids.py:13-15` says that syntax cannot break because delimiters
  are preserved. It can break in three ways on a line. In Go and C, removing an identifier
  can close a comment early (`ScrubBreaks.CommentClosedEarly`) or leave an escape that
  swallows the closing quote of a string (`ScrubBreaks.QuoteEscaped`). In Python, an
  emptied string can run together with the string right after it and open a triple-quoted
  string (`ScrubBreaks.StringsRunTogether`). `ScrubSafety.RelexStable` says, for any
  function that rewrites the bodies, exactly which lines keep their structure, and
  `ScrubStructure.FileRelexExactly` says it for files, where a new line end in a body and
  a lost last line (`ScrubStructure.LastLineLost`) are further causes.
- `api/loxinlp/nlp.go:1985-1988` promises that the newer source is loaded. The search for
  the newest legacy file starts at Go's zero time, so files older than that can be
  misjudged (`Boot.AncientFilesMisjudged`); `Boot.NewestWinsExactly` gives the exact
  condition.
- `api/loxinlp/nlp.go:1871-1873` says that a failed boot restore never looks ready
  silently. A snapshot that vanishes between the choice and the read is not recorded as
  degraded: `Boot.VanishedLooksReady` gives such a boot, and `BootMeaning.StatusMeans`
  says exactly which boots are recorded as degraded.
- If a listing holds two services with the same key but different endpoints, the reconciler
  flips between them on every tick (`Ipvs.FlipsAway`); `Ipvs.AgreementExactly` shows that
  agreement with a fresh process holds from every table exactly when this does not occur.
- A failed delete leaves a rule that the reconciler has forgotten; `Ipvs.IPVSH.IPVSSync`
  says exactly when such rules are left, and `Ipvs.Ledger` which.
- In RFC 6901 the empty pointer stands for the whole document; here it resolves to nothing
  (`JsonPointer.EmptyPointer`). The standard also lets a path end in an empty key. Ruby's `split` drops such keys, and a string
  of slashes only raises an error; `JsonPointer.ResolveExactly` gives the exact condition.
- The lookup of a schema field indexes whatever stands for the properties. On a string
  this finds the key inside the string; `JsonPointer.SchemaWalkExactly` gives the exact
  conditions under which the lookup fails or finds such a key.

## Model

| member | source | states |
|---|---|---|
| `IpGenerator.MaskIsOnes` | api/ippool/generater.go:43-44 | the shifted mask word is the subnet size minus one |
| `IpGenerator.AssembleIsOr` | api/ippool/generater.go:58-65 | joining masked bytes one by one equals the bitwise disjunction of the whole words |
| `IpGenerator.DrawnAddress` | api/ippool/generater.go:52-66 | every drawn address is the network address plus the counter modulo the subnet size |
| `IpGenerator.BroadcastAddress` | api/ippool/generater.go:68-75 | the broadcast address is the network address plus the subnet size minus one, although its bytes are not masked |
| `IpGenerator.WrapInvisible` | api/ippool/generater.go:52-58 | the counter's wrap at 2^32 does not change the sequence of addresses |
| `IpGenerator.DrawsDistinct` | api/ippool/generater.go:52-66 | within one cycle two draws coincide only at distance zero or at the full cycle |
| `IpGenerator.DrawsCoverSubnet` | api/ippool/generater.go:52-66 | any run of subnet-size many consecutive draws lists each subnet address exactly once, across the wrap too |
| `IpGenerator.DottedRoundTrip` | api/ippool/ippool.go:57-60 | a string reads as an address exactly when it is that address's dotted rendering |
| `IpGenerator.DottedInjective` | api/ippool/ippool.go:57-60 | different addresses have different pool keys |
| `IpGenerator.DottedShape` | api/ippool/ippool.go:57-60 | a pool key is the four bytes in order, in decimal, with dots between them |
| `IpGenerator.IPGenerater.constructor` | api/ippool/generater.go:37-50 | a new generator starts at zero with the mask of its subnet |
| `IpGenerator.IPGenerater.TakeCounter` | api/ippool/generater.go:53-56 | the compare-and-swap loop ends under any interference and takes the counter value right after the draws of others that came first |
| `IpGenerator.IPGenerater.NextIP` | api/ippool/generater.go:52-66 | the address drawn belongs to the counter value taken, and the counter moves on by one modulo 2^32 |
| `IpPool.IPSet.constructor` | api/ippool/set.go:25-29 | a new set is empty |
| `IpPool.IPSet.Add` | api/ippool/set.go:31-33 | exactly the key is added |
| `IpPool.IPSet.Remove` | api/ippool/set.go:35-37 | exactly the key is removed |
| `IpPool.FullCycleTaken` | api/ippool/ippool.go:64-75 | a full cycle of taken draws means that every subnet address is taken, and conversely |
| `IpPool.FreeDrawEnds` | api/ippool/ippool.go:59-70 | the first free draw is the first free address in cyclic order, and the subnet was not exhausted |
| `IpPool.TakenDraw` | api/ippool/ippool.go:72-74 | meeting the first address again means exhaustion, and it cannot happen before a full cycle |
| `IpPool.IPPool.constructor` | api/ippool/ippool.go:31-46 | a new pool holds exactly the network and broadcast addresses |
| `IpPool.IPPool.AssignNewIPv4` | api/ippool/ippool.go:51-76 | run alone: at most subnet size plus one draws, the first free address in cyclic order is added and nothing else, and nil with an unchanged pool exactly when every address is taken |
| `IpPool.IPPool.RetrieveIPv4` | api/ippool/ippool.go:79-86 | exactly the given key leaves the pool |
| `IpPool.IPPool.UpdateAllocateddIPv4` | api/ippool/ippool.go:88-95 | exactly the given key is in the pool afterwards |
| `IpPool.IPPool.CheckSubnetAndUpdateIPPool` | api/ippool/ippool.go:97-104 | accepts exactly the renderings of subnet addresses, and marks only those |
| `PoolProtocol.Reachable` | api/ippool/ippool.go:51-95 | the protocol invariant holds in every state that any interleaving of callers reaches |
| `PoolProtocol.NoAddressTwice` | api/ippool/ippool.go:51-95 | no interleaving hands out an address that was handed out or marked as allocated before, without it being given back in between |
| `PoolProtocol.ReservedNeverAssigned` | api/ippool/ippool.go:37-39 | the network and broadcast addresses are handed out only after somebody gave them back |
| `PoolProtocol.HolderNotBlocked` | api/ippool/ippool.go:54-76 | the caller inside the lock always has an enabled step |
| `PoolProtocol.CycleClosed` | api/ippool/ippool.go:72-74 | a caller meets its first address again only after a full cycle of draws by all callers together |
| `PoolProtocol.NilMeansTakenOrDrawn` | api/ippool/ippool.go:51-76 | when a call gives up, every subnet address is in the pool or was drawn by another caller since its first draw |
| `PoolProtocol.FreeAtNil` | api/ippool/ippool.go:51-86 | when a call gives up although an address is free, another caller waits for the lock with it, or it was given back since the call's first draw |
| `PoolProtocol.NilTruthfulExactly` | api/ippool/ippool.go:48-76 | giving up means an exhausted subnet exactly when no waiting caller holds a free address and nothing given back since the first draw is free |
| `PoolProtocol.NilTruthfulWithoutReturns` | api/ippool/ippool.go:48-76 | with nothing given back meanwhile, exactly when no waiting caller holds a free address |
| `PoolProtocol.NilTruthfulAlone` | api/ippool/ippool.go:48-76 | giving up with nobody else drawing meanwhile means an exhausted subnet |
| `PoolProtocol.NilWithFreeAddress` | api/ippool/ippool.go:48-76 | an interleaving on any /30 network in which a call gives up although an address is free, because another caller waits with it |
| `PoolSearch.OthersDrawOnce` | api/ippool/ippool.go:51-76 | while a caller holds the lock, whoever else draws then waits with that draw, so nobody draws twice |
| `PoolSearch.CycleMeetsOther` | api/ippool/ippool.go:64-75 | each cycle of draws that the lock holder has passed contains a draw by a caller that waits |
| `PoolSearch.SearchBounded` | api/ippool/ippool.go:64-75 | every draw the lock holder makes comes within as many cycles of draws since the lock as callers are waiting, and one more |
| `PoolContents.PoolExactly` | api/ippool/ippool.go:51-95 | in every reachable state a key is in the pool exactly when it was handed out or marked and not given back since, or is the network or broadcast address and was never given back |
| `PoolContents.StepsAreCalls` | api/ippool/ippool.go:79-95 | with the lock free, giving back and marking are possible and change the pool by exactly the key |
| `PoolContents.SoloAssigns` | api/ippool/ippool.go:51-76 | in any reachable state, a call that nobody interferes with assigns the first free address in cyclic order, or nothing exactly when the subnet is exhausted, as the sequential method does |
| `ScrubGrammar.TokenLexed` | scripts/scrub-internal-ids.py:149-197 | in code position the automaton reads exactly the token the grammar puts first |
| `ScrubGrammar.Unambiguous` | scripts/scrub-internal-ids.py:122-198 | a line has only one derivation for a carried state, and the automaton finds it |
| `ScrubGrammar.Complete` | scripts/scrub-internal-ids.py:122-198 | every line has a derivation from every carried state, and its text is the line: nothing is lost |
| `ScrubGrammar.OnlyBodiesChange` | scripts/scrub-internal-ids.py:7-15 | with any scrub, code, delimiters and copied text stay as they are and in order |
| `ScrubGrammar.IdentityRewrite` | scripts/scrub-internal-ids.py:122-198 | with an identity scrub a line comes out unchanged |
| `ScrubGrammar.RelexExactly` | scripts/scrub-internal-ids.py:122-198 | re-lexing a rewritten line gives the rewritten tokens and the same carried state exactly when these follow the grammar |
| `ScrubSyntax.CodeCopied` | scripts/scrub-internal-ids.py:196-197 | text without quotes, backquotes, slashes or hash signs is copied |
| `ScrubSyntax.HashComment` | scripts/scrub-internal-ids.py:161-163 | after code, the text behind `#` is scrubbed in Python and shell files |
| `ScrubSyntax.SlashComment` | scripts/scrub-internal-ids.py:161-163 | after code, the text behind `//` is scrubbed in Go and C files |
| `ScrubSyntax.BlockComment` | scripts/scrub-internal-ids.py:132-172 | the text between `/*` and `*/` is scrubbed, also when it stays open or was left open |
| `ScrubSyntax.TripleString` | scripts/scrub-internal-ids.py:132-160 | the text between three equal quotes is scrubbed in Python, also when it stays open or was left open |
| `ScrubSyntax.QuotedString` | scripts/scrub-internal-ids.py:179-195 | the text between double quotes is scrubbed, and between single quotes in Python and shell |
| `ScrubSyntax.EscapedQuote` | scripts/scrub-internal-ids.py:104-119 | a quote behind a backslash does not end a string |
| `ScrubSyntax.CharLiteral` | scripts/scrub-internal-ids.py:179-195 | a character literal of Go or C is copied |
| `ScrubSyntax.RawString` | scripts/scrub-internal-ids.py:137-178 | a raw string of Go is copied, also when it stays open or was left open |
| `ScrubSyntax.UnclosedQuote` | scripts/scrub-internal-ids.py:179-195 | a quote without its partner is copied to the end of the line, and nothing stays open |
| `ScrubSafety.DerivesMapped` | scripts/scrub-internal-ids.py:122-198 | for any scrub, the rewritten tokens follow the grammar exactly when every body stays inside its delimiters and, in `#` files, no emptied string meets an equal quote |
| `ScrubSafety.RelexStable` | scripts/scrub-internal-ids.py:13-15 | the same condition as an equivalence on whole lines, for every scrub, line, carried state and comment style |
| `ScrubSafety.RelexContained` | scripts/scrub-internal-ids.py:13-15 | for a scrub that never leaves its delimiters only strings that run together break a line |
| `ScrubSafety.SafeRelex` | scripts/scrub-internal-ids.py:122-198 | a safe scrub leaves tokens, code text and carried state as they were |
| `ScrubSafety.RewriteIdempotent` | scripts/scrub-internal-ids.py:122-198 | with an idempotent safe scrub, rewriting a line twice is rewriting it once |
| `ScrubBreaks.CommentClosedEarly` | scripts/scrub-internal-ids.py:13-15 | a comment line of Go or C that closes early when an identifier is removed, so that its end becomes code |
| `ScrubBreaks.QuoteEscaped` | scripts/scrub-internal-ids.py:13-15 | a string of Go or C whose closing quote is escaped when an identifier is removed, so that code becomes string |
| `ScrubBreaks.StringsRunTogether` | scripts/scrub-internal-ids.py:13-15 | a scrub that stays inside its delimiters and a Python line whose rewriting opens a triple-quoted string |
| `ScrubSafety.CarryKept` | scripts/scrub-internal-ids.py:123-126 | only the documented states are carried from line to line |
| `ScrubRewrite.ScanQuote` | scripts/scrub-internal-ids.py:104-119 | the index of the first unescaped quote, or -1 exactly when there is none |
| `ScrubRewrite.DelimitedStep` | scripts/scrub-internal-ids.py:154-172 | a jump to the first closing mark emits what the automaton emits character by character |
| `ScrubRewrite.RawStep` | scripts/scrub-internal-ids.py:173-178 | a raw string is copied up to its backquote, or to the end of the line and stays open |
| `ScrubRewrite.QuoteStep` | scripts/scrub-internal-ids.py:179-195 | a closed string is scrubbed, a character literal copied, an unterminated quote copied to the end of the line |
| `ScrubRewrite.ScanStep` | scripts/scrub-internal-ids.py:149-197 | one pass of the loop emits the rewritten text of exactly one token |
| `ScrubRewrite.LeadBody` | scripts/scrub-internal-ids.py:132-136 | a comment or triple-quoted string left open is continued and its body scrubbed |
| `ScrubRewrite.LeadRaw` | scripts/scrub-internal-ids.py:137-141 | a raw string left open is continued and copied |
| `ScrubRewrite.RewriteLine` | scripts/scrub-internal-ids.py:122-198 | the index-jumping rewriter produces the text and the carried state of the automaton |
| `ScrubFile.LinesAreFile` | scripts/scrub-internal-ids.py:242-259 | working on the list of lines gives the same output as working on the text |
| `ScrubFile.Process` | scripts/scrub-internal-ids.py:248-259 | the loop produces the content and the report of the file specification, with the state carried along |
| `ScrubFile.FileIsLines` | scripts/scrub-internal-ids.py:248-259 | the content is the lines between newlines, each rewritten in the state left by those before it, and the report lists exactly the changed lines with their numbers |
| `ScrubFile.ProseLines` | scripts/scrub-internal-ids.py:248-259 | in prose every line is scrubbed as a whole |
| `ScrubFile.IdentityFile` | scripts/scrub-internal-ids.py:240-259 | with nothing to scrub a file is unchanged and no line is reported |
| `ScrubFile.UnchangedFile` | scripts/scrub-internal-ids.py:256-259 | a file without reported lines is unchanged |
| `ScrubFile.RewriteOnce` | scripts/scrub-internal-ids.py:240-259 | after rewriting with a settled scrub, a second pass changes nothing and reports nothing |
| `ScrubStructure.EmptiedExactly` | scripts/scrub-internal-ids.py:132-136 | a line that is not empty is rewritten to nothing exactly when it lies inside one open comment or string and its text is scrubbed away |
| `ScrubStructure.FileRelexExactly` | scripts/scrub-internal-ids.py:240-259 | for any scrub, the written file has on every line the rewritten tokens and the same carried state exactly when every body stays inside its delimiters and on its line, no emptied string meets an equal quote in a `#` file and no last line is lost |
| `ScrubStructure.ContainedFile` | scripts/scrub-internal-ids.py:240-259 | for a scrub that never leaves its delimiters nor its line, only strings that run together and a lost last line break a file |
| `ScrubStructure.SafeFile` | scripts/scrub-internal-ids.py:240-259 | a safe scrub keeps the structure of every line of a file, but for an emptied last line without a newline, which `#` files never have |
| `ScrubStructure.LastLineLost` | scripts/scrub-internal-ids.py:240-259 | a file that ends inside a comment loses its last line |
| `CMask.BlockFlags` | scripts/check_conv_pool_identity.py:78-84 | the jump over a block comment covers exactly the positions the automaton marks |
| `CMask.LineFlags` | scripts/check_conv_pool_identity.py:85-90 | the jump over a line comment covers exactly the marked positions and holds no newline |
| `CMask.LiteralFlags` | scripts/check_conv_pool_identity.py:91-105 | after the opening quote, everything up to and including the closing quote is marked |
| `CMask.LiteralScan` | scripts/check_conv_pool_identity.py:92-101 | the scan ends at the first unescaped quote or past the text |
| `CMask.BlankRange` | scripts/check_conv_pool_identity.py:81-83 | a range is blanked in place, newlines stay, and nothing else changes |
| `CMask.Mask` | scripts/check_conv_pool_identity.py:67-108 | the masked text blanks exactly the positions a one-pass automaton marks |
| `CMask.MaskKeepsOffsets` | scripts/check_conv_pool_identity.py:68-73 | same length, newlines at the same offsets, only blanks are written, and only inside comments and literals |
| `CMask.MaskKeepsLines` | scripts/check_conv_pool_identity.py:205-206 | line numbers agree on masked and raw text |
| `CMask.LineOfSplit` | scripts/check_conv_pool_identity.py:205-206 | the line number of an offset is the number of lines the text before it touches |
| `CMask.DepthCountsCode` | scripts/check_conv_pool_identity.py:111-118 | brace depth on the masked text counts exactly the braces in code |
| `MaskSyntax.CodeStays` | scripts/check_conv_pool_identity.py:106-107 | text without quotes and slashes is unchanged |
| `MaskSyntax.LineComment` | scripts/check_conv_pool_identity.py:85-90 | `//` and what follows on the line is blanked |
| `MaskSyntax.BlockComment` | scripts/check_conv_pool_identity.py:78-84 | everything from `/*` to `*/` is blanked, newlines stay |
| `MaskSyntax.QuotedLiteral` | scripts/check_conv_pool_identity.py:91-105 | a string or character literal keeps its opening quote only |
| `MaskSyntax.EscapedLiteral` | scripts/check_conv_pool_identity.py:91-105 | a quote behind a backslash does not end a literal |
| `Brackets.NestBalanced` | scripts/check_conv_pool_identity.py:121-131 | text generated by the nesting grammar is balanced |
| `Brackets.BalancedNest` | scripts/check_conv_pool_identity.py:121-131 | balanced text is generated by the nesting grammar |
| `Brackets.ClosesBalanced` | scripts/check_conv_pool_identity.py:121-131 | the first return to depth zero is the end of a balanced text, and conversely |
| `Brackets.ArgumentList` | scripts/check_conv_pool_identity.py:121-131 | returns the balanced span after an open parenthesis up to its match and fails exactly when there is none |
| `CallArguments.SplitOfJoined` | scripts/check_conv_pool_identity.py:134-150 | splitting gives back any list whose arguments close their brackets and have no top-level comma |
| `CallArguments.RawSplitUnique` | scripts/check_conv_pool_identity.py:134-150 | the split is the one well-formed list that joins to the text |
| `CallArguments.SplitArgs` | scripts/check_conv_pool_identity.py:134-150 | the loop returns the stripped split, and nothing for one blank argument |
| `CallArguments.SplitArgsUndoesJoin` | scripts/check_conv_pool_identity.py:134-150 | joining and splitting gives the stripped arguments |
| `CallGrammar.SplitNested` | scripts/check_conv_pool_identity.py:134-150 | arguments in which parentheses, square brackets and braces match are split exactly at the commas between them |
| `CallGrammar.LastCommaNested` | scripts/check_conv_pool_identity.py:445-456 | for such arguments the last top-level comma stands before the last one |
| `CallArguments.LastTopLevelComma` | scripts/check_conv_pool_identity.py:445-456 | the last comma at depth zero of the range, or -1 exactly when there is none |
| `CallArguments.CutLastArgument` | scripts/check_conv_pool_identity.py:492-495 | between any two offsets of a file, the text after that comma is the last argument and the text before it splits into the others |
| `CallArguments.NoCommaOneArgument` | scripts/check_conv_pool_identity.py:445-456 | there is no such comma between two offsets exactly when there is one argument |
| `CallArguments.CutRemovesLast` | scripts/check_conv_pool_identity.py:482-495 | cutting at the comma removes exactly the last argument, unless one blank argument is left, exactly then not |
| `CallArguments.CutCall` | scripts/check_conv_pool_identity.py:490-495 | the file with the last argument cut out has a call that ends at the cut, exactly when the arguments before it close their parentheses |
| `MaskCut.MaskedCut` | scripts/check_conv_pool_identity.py:482-495 | cutting the raw text between two commas or parentheses of the code and masking it again gives the masked text with the same cut |
| `MaskCut.CutFile` | scripts/check_conv_pool_identity.py:482-495 | in the cut file, masked again, the call ends at the cut exactly when the arguments before it close their parentheses, and it has all arguments but the last, unless one blank argument is left |
| `CastPeeling.PeelOnce` | scripts/check_conv_pool_identity.py:161-172 | one round takes off a leading cast, else a pair of parentheses around everything, else reports why not |
| `CastPeeling.LayerRound` | scripts/check_conv_pool_identity.py:161-172 | a round undoes exactly one layer of cast or parentheses |
| `CastPeeling.RoundLayer` | scripts/check_conv_pool_identity.py:161-172 | what a round takes off is such a layer |
| `CastPeeling.CoreUnique` | scripts/check_conv_pool_identity.py:153-158 | however a text is wrapped, there is only one bare expression inside |
| `CastPeeling.StripCasts` | scripts/check_conv_pool_identity.py:153-173 | returns the bare expression inside all layers in at most one round per character, with nothing left to peel after its blanks are collapsed, and fails exactly on unmatched outer parentheses |
| `CastPeeling.StuckExactly` | scripts/check_conv_pool_identity.py:166-171 | stripping fails on a bare text exactly when it has parentheses at both ends and the first one never closes |
| `CastPeeling.CastsCannotHide` | scripts/check_conv_pool_identity.py:397-402 | no number of casts and parentheses hides a plain name such as NULL |
| `CastPeeling.BareCollapsed` | scripts/check_conv_pool_identity.py:161-173 | collapsing the blanks of a bare expression uncovers no cast and no parentheses to peel |
| `CastPeeling.StripTwice` | scripts/check_conv_pool_identity.py:153-173 | stripping what was stripped changes nothing |
| `Collapsing.CollapseKeeps` | scripts/check_conv_pool_identity.py:173 | collapsing keeps everything but blanks in order and leaves single spaces only |
| `Collapsing.BalancedCollapsed` | scripts/check_conv_pool_identity.py:173 | a text is balanced exactly when it is balanced with its blanks collapsed |
| `CastPeeling.DocumentedExample` | scripts/check_conv_pool_identity.py:154-158 | the documented example is a proper wrapping of NULL |
| `CTypes.CastExactly` | scripts/check_conv_pool_identity.py:163-164 | a text opens with a cast exactly when its first parentheses hold letters, digits, underscores, blanks and stars with a letter or underscore first, and something follows |
| `CTypes.CastPeeled` | scripts/check_conv_pool_identity.py:161-166 | whatever C type name a cast has, peeling the cast expression leaves what peeling the expression leaves |
| `BootRetry.RetriesBounded` | api/loxinlp/boot_retry.go:11-29 | on a fair clock no attempt after the 75th is retried |
| `BootRetry.StartupExactly` | pkg/snapshot/registry.go:386-410 | errors are startup errors exactly when there are some and each contains one of seven messages, in any case |
| `BootRetry.StartupRetried` | pkg/snapshot/registry.go:398-410 | such a message counts wherever it stands in the error |
| `BootRetry.BgpExactly` | api/loxinlp/boot_retry.go:31-40 | errors are about BGP alone exactly when there are some and each starts with its tag, in any case |
| `Boot.NewestLegacy` | api/loxinlp/nlp.go:1931-1943 | the newest time of the existing files, not below the zero time, and whether any exists |
| `Boot.StrictNames` | api/loxinlp/nlp.go:2041 | an ASCII profile is strict exactly when it reads so in lower case |
| `Boot.NewestWinsExactly` | api/loxinlp/nlp.go:1985-2019 | without a lineage generation the chosen source is not older than the rejected one, except exactly for files older than the zero time |
| `Boot.AncientFilesMisjudged` | api/loxinlp/nlp.go:1931-1943 | a boot with such files: the older legacy file is chosen |
| `Boot.BootSession.RecordFailure` | api/loxinlp/nlp.go:1874-1902 | quarantine is attempted and a degraded state with its path and reasons is recorded |
| `Boot.BootSession.ApplySnapshot` | api/loxinlp/nlp.go:1809-1869 | ends after at most 76 attempts, each retry accepted by the retry rule, success and failure recorded, a vanished file leaves no trace |
| `Boot.BootSession.Arbitrate` | api/loxinlp/nlp.go:1989-2026 | the snapshot is chosen alone, by its lineage, or because nothing legacy is newer; the choice is recorded |
| `Boot.BootSession.ReplayLegacy` | api/loxinlp/nlp.go:2056-2117 | exactly the files that are there are replayed, in order |
| `Boot.BootSession.LegacyPhase` | api/loxinlp/nlp.go:2033-2128 | replay, fallback mark and write-through exactly when they are due |
| `Boot.BootSession.LbSessionGet` | api/loxinlp/nlp.go:1969-2132 | on every boot the write gate is open at the end, and the events and the recorded state are those specified |
| `Boot.BootInOrder` | api/loxinlp/nlp.go:1969-2132 | everything is restored and recorded before anything is replayed, the write-through follows the replay, and the write gate opens once, after all of it |
| `BootMeaning.ChosenExactly` | api/loxinlp/nlp.go:1985-2019 | the snapshot is used unless it is missing, or has no lineage and a legacy file or the zero time is newer |
| `BootMeaning.ChoiceMeans` | api/loxinlp/nlp.go:1979-2026 | a conflict is counted exactly when both sources exist, and what was chosen is recorded before anything else |
| `BootMeaning.ReplayMeans` | api/loxinlp/nlp.go:2028-2117 | a legacy file is replayed exactly when it is there and the snapshot is not used, or was not applied under a profile that is not strict |
| `BootMeaning.ReplayOrder` | api/loxinlp/nlp.go:2056-2117 | with all files there, they are replayed in the fixed order from endpoints to rate limits |
| `BootMeaning.FallbackMeans` | api/loxinlp/nlp.go:2044-2052 | a fallback is marked exactly when a used snapshot was not applied, outside the strict profile, and legacy files exist |
| `BootMeaning.CompatFallsBack` | api/loxinlp/nlp.go:2041-2068 | a compat boot with an unreadable snapshot replays the load-balancer file, marks the fallback and is degraded |
| `BootMeaning.WriteThroughMeans` | api/loxinlp/nlp.go:2119-2128 | persisting the legacy configuration is asked for exactly when the snapshot is not used and legacy files exist |
| `BootMeaning.QuarantineMeans` | api/loxinlp/nlp.go:1809-1869 | quarantine is attempted exactly when a used snapshot was there and could not be read or applied |
| `BootMeaning.StatusMeans` | api/loxinlp/nlp.go:1871-1902 | the recorded state is degraded exactly then, with the reasons and the quarantine path, succeeded exactly when the last attempt applied, with its generation, and fallback exactly after a fallback |
| `Boot.VanishedLooksReady` | api/loxinlp/nlp.go:1809-1829 | a strict boot whose chosen snapshot vanishes: nothing is restored or replayed, and the recorded state is not degraded |
| `Boot.AttemptsBounded` | api/loxinlp/nlp.go:1831-1868 | at most 76 attempts, retries only after startup errors, and from the 15th attempt on only after BGP errors and within 150 s |
| `BootMeaning.AttemptsMeans` | api/loxinlp/nlp.go:1831-1868 | the restore is attempted exactly when the snapshot is used and readable, up to the last attempt |
| `BootMeaning.AttemptShape` | api/loxinlp/nlp.go:1831-1868 | attempts follow each other with one sleep in between |
| `BootMeaning.MustRetry` | api/loxinlp/boot_retry.go:20-40 | the last attempt is no startup failure before the 15th, and none of BGP alone within 150 s |
| `Boot.BoundReached` | api/loxinlp/nlp.go:1831-1868 | a boot on which BGP never comes up makes exactly 76 attempts |
| `InterfaceMap.ConfigMap.constructor` | api/loxinlp/nlp.go:2168 | the map starts empty |
| `InterfaceMap.ConfigMap.ApplyConfigMap` | api/loxinlp/nlp.go:337-384 | after every event the map says what the history says: applied or not, last state, and routes due exactly when the last change since the apply was to down; other interfaces are untouched |
| `InterfaceMap.FullApplyExactly` | api/loxinlp/nlp.go:345-383 | the whole configuration is applied exactly when the interface appears and no earlier apply since its last deletion succeeded |
| `InterfaceMap.NoSecondFullApply` | api/loxinlp/nlp.go:345-383 | between two full applies of which the first succeeded the interface was deleted |
| `InterfaceMap.RoutesPerReturn` | api/loxinlp/nlp.go:358-367 | the route applies recorded since the full apply are as many as the times the interface was up, went down and came up again |
| `Ipvs.ReadService` | api/loxinlp/ipvs.go:75-118 | the entry a listed service asks for, or nothing for those that are skipped |
| `Ipvs.HandledExactly` | api/loxinlp/ipvs.go:75-118 | a service is handled exactly when it is round-robin, has readable endpoints, and is ICMP, TCP, UDP or SCTP |
| `Ipvs.TcpService` | api/loxinlp/ipvs.go:84-118 | what the entry of a TCP service holds, with the node ports and the persistence flag |
| `Ipvs.CandidatesExactly` | api/loxinlp/ipvs.go:75-128 | a listing asks for exactly the entries of its handled services |
| `Ipvs.FreshAt` | api/loxinlp/ipvs.go:113-128 | the table of a fresh process has exactly the listed keys, each with the endpoints of one of its services |
| `Ipvs.FailedListing` | api/loxinlp/ipvs.go:69-73 | a failed listing takes every entry away |
| `Ipvs.StepIsFresh` | api/loxinlp/ipvs.go:140-173 | from any table, one tick gives the table a fresh process builds |
| `Ipvs.AgreementExactly` | api/loxinlp/ipvs.go:113-128 | that holds from every table exactly when services with the same key ask for the same endpoints |
| `Ipvs.FlipsAway` | api/loxinlp/ipvs.go:113-128 | in any table, a key with two different services has other endpoints after every tick |
| `Ipvs.AgreeingUntouched` | api/loxinlp/ipvs.go:119-123 | a table that agrees with the listing has nothing to add or delete |
| `Ipvs.RepeatedListing` | api/loxinlp/ipvs.go:113-128 | after a tick whose adds succeed, the same consistent listing asks for nothing more |
| `Ipvs.IPVSH.Mark` | api/loxinlp/ipvs.go:140-142 | every entry is marked and nothing else changes |
| `Ipvs.IPVSH.BuildIPVSDB` | api/loxinlp/ipvs.go:66-131 | exactly the entries still listed with the same endpoints are confirmed, the others are listed for adding |
| `Ipvs.IPVSH.Sweep` | api/loxinlp/ipvs.go:146-157 | exactly the marked entries go, whatever the hooks answer, and no other rule is touched |
| `Ipvs.IPVSH.AddAll` | api/loxinlp/ipvs.go:159-173 | exactly the entries whose rule was added enter the map, in order |
| `Ipvs.IPVSH.Tick` | api/loxinlp/ipvs.go:140-173 | under any hook failures every entry has its rule installed and the table moves by one step in which the successful adds count; with working deletes no rule is left over; after working adds a consistent listing is in place, and a listing in place causes no hook call |
| `Ipvs.IPVSH.IPVSSync` | api/loxinlp/ipvs.go:133-176 | after any history, failed hooks included, a last tick with working adds leaves the map built from its listing, and that listing in place; the installed rules are those of the map exactly when no failed delete was left without a later add of its key |
| `Cors.ApplyKeepsInv` | common/cors.go:87-215 | every operation keeps the invariant |
| `Cors.Reachable` | common/cors.go:22-37 | in every reachable state: wildcard means configured without origins, unconfigured means no origins, origins are trimmed and neither empty nor the wildcard |
| `Cors.NeverReopens` | common/cors.go:27-32 | no run of additions and removals on a configured allowlist opens it, and an origin is allowed exactly as its last edit says |
| `Cors.AddCloses` | common/cors.go:100-122 | after adding an origin nothing else is allowed but what an allowlist allowed before, whatever the state was |
| `Cors.AddRefused` | common/cors.go:102-106 | an empty origin and a bare star are refused |
| `Cors.RemoveMeans` | common/cors.go:124-137 | removing takes exactly the origin from an allowlist and changes nothing while everything is allowed |
| `Cors.SetMeans` | common/cors.go:178-202 | which configurations can be set, and what they then allow |
| `Cors.OpenExactly` | common/cors.go:22-37 | from the factory default, wildcard behaviour is active exactly when no addition or allowlist came after the last reset or wildcard |
| `Cors.LessExactly` | common/cors.go:174 | strings are ordered by their first difference |
| `Cors.AscendingUnique` | common/cors.go:171-174 | an ascending list is determined by its elements |
| `Cors.ExportUnique` | common/cors.go:161-176 | equal states export identical lists |
| `Cors.ExportRoundTrip` | common/cors.go:161-215 | importing what was exported, or resetting when nothing was, restores the state from any state |
| `Cors.CORSManager.GetOrigin` | common/cors.go:87-98 | the wildcard while open, else a copy of the allowlist |
| `Cors.CORSManager.AddOrigin` | common/cors.go:102-122 | adds the trimmed origin and ends wildcard behaviour, or refuses and changes nothing |
| `Cors.CORSManager.RemoveOrigin` | common/cors.go:128-137 | removes the trimmed origin and stays configured, or refuses and changes nothing |
| `Cors.CORSManager.IsAllowed` | common/cors.go:142-149 | everything while open, membership otherwise |
| `Cors.CORSManager.WildcardActive` | common/cors.go:155-159 | unconfigured or explicit wildcard |
| `Cors.CORSManager.ExportConfig` | common/cors.go:164-176 | nothing while unconfigured, else the origins in ascending order, each once |
| `Cors.CORSManager.SetConfig` | common/cors.go:181-202 | replaces everything, or refuses and changes nothing |
| `Cors.CORSManager.ResetConfig` | common/cors.go:209-215 | back to the factory default |
| `BandTriple.FcBandTripleParse` | common/fc_queue.go:198-221 | the answer for every text: zeros for the empty one, the first refusal, or the numbers at the bands of their positions |
| `BandTriple.FcBandTripleFormat` | common/fc_queue.go:225-234 | the written form in wire order, empty for zeros |
| `BandTriple.ParsesOnce` | common/fc_queue.go:198-221 | every text has one answer |
| `BandTriple.WireOrder` | common/fc_queue.go:165-221 | critical, standard and sheddable, in this order on the wire, are stored as standard, critical and sheddable |
| `BandTriple.AcceptedExactly` | common/fc_queue.go:194-221 | a text that is not empty is accepted exactly when it is three numbers with colons between them, none above the limit, and the triple holds them by band |
| `BandTriple.RefusalExactly` | common/fc_queue.go:209-217 | a number is malformed without digits only or from 2^32 on, and out of range above the limit |
| `BandTriple.ParseOfWritten` | common/fc_queue.go:165-234 | reading the written form of a triple within the limit gives it back |
| `BandTriple.RewrittenParsesSame` | common/fc_queue.go:194-234 | for every accepted text, writing and reading again gives the same triple |
| `BandTriple.WrittenExactly` | common/fc_queue.go:223-234 | an accepted text is the written form exactly when it has no leading zeros and is not three zeros |
| `JsonPointer.DecodeOfEncode` | scripts/validate-swagger-contract.rb:36 | decoding undoes the escapes of section 3 of RFC 6901 |
| `JsonPointer.OrderMatters` | scripts/validate-swagger-contract.rb:36 | the two replacements in the other order would decode a key wrongly |
| `JsonPointer.TokensOfWritten` | scripts/validate-swagger-contract.rb:34-36 | splitting a written path gives its keys without the empty ones at the end, and an error when none is left |
| `JsonPointer.ResolveWritten` | scripts/validate-swagger-contract.rb:33-39 | resolving a written path walks these keys |
| `JsonPointer.ResolveExactly` | scripts/validate-swagger-contract.rb:33-39 | in every document it walks exactly the path, exactly when the last key is not empty |
| `JsonPointer.EmptyPointer` | scripts/validate-swagger-contract.rb:33-34 | the empty pointer resolves to nothing |
| `JsonPointer.SchemaWalkExactly` | scripts/validate-swagger-contract.rb:41-47 | walking a schema is walking the path with properties before every key; it fails exactly when properties on the way take no index, and finds the last key itself exactly when that occurs in a string in place of the properties |
| `JsonPointer.SchemaFieldIsPointer` | scripts/validate-swagger-contract.rb:41-47 | the same on written paths, trailing empty keys included, with the error also when no key is left |

## Left out

- IPv6 networks in the address pool: the byte assembly and the keys are written for IPv4.
- IpPool.IPPool.CheckSubnetAndUpdateIPPool: address texts other than canonical dotted quads, such as IPv4-mapped IPv6, are refused, although Go parses them.
- `IPSet.GetAll` and `IPSet.IsEqual`: the first copies the keys; the second adds to sets that were never created.
- Starvation of a caller before it holds the lock: with unboundedly many callers no bound holds, and none is promised.
- The identifier patterns and the clean-up of debris in `_scrub_segment`, file discovery and the command line of the rewriter.
- `calls`, `function_body` and the individual gate checks of the conversation-pool script: regular-expression searches over the masked text.
- Boot.BootSession.LbSessionGet: what replaying one legacy file does, the content of a snapshot and the restore engine are outside; the replay of BFD sessions happens elsewhere.
- Ipvs.IPVSH.Tick: selector and timeout of a kept entry can be stale, because the code compares endpoints only; the results are about keys and endpoints.
- Netlink, VLAN, route and neighbour handling, the REST server, generated API models, option parsing, logging and metrics.
- The string-to-enum mappings and numeric bounds of `common/fc_queue.go` besides the band triples: finite case splits.
- The relationship checks of the swagger script: plain conjunctions over resolved fields.
