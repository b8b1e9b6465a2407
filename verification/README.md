# A Dafny model of xtcp2's `ip` look-alike

`goip` (in `internal/goip`) reproduces iproute2's `ip` command over rtnetlink,
down to its parsing quirks, its flush loops and its dump files. This project
models the parts of it that are hard to get right, and two small concurrent
pieces beside it, and proves what each promises for every input, every run or
every interleaving.

| file | models | main results |
|---|---|---|
| `GlobMatch`, `GlobCompile`, `GlobPrint`, `GlobBracket` | fnmatch(3) for labels | the two-pointer matcher decides the declarative language in `\|s\| * (\|toks\| + 1) + \|toks\|` steps; compiling, with stars collapsed, means what the backtracking reference means; printing and compiling is a round trip; a bracket expression matches exactly the bytes its written members have |
| `CParse`, `Numerals` | strtoul and the readers on it | the longest prefix of the expected form is consumed; overflow is detected exactly; each reader accepts exactly the numbers in its range; hexadecimal and octal numerals read back |
| `Netlink`, `FlushBuf` | message layout and the flush buffer | packing loses nothing, keeps order and alignment, respects the limit, and uses the fewest datagrams any in-order packing can; exactly when the joined file can be walked |
| `FlushRounds`, `AddrFlush`, `NeighFlush` | the flush loops | a matching key is deleted in one round only, as often as its first dump lists it; how a flush ends is decided by its dumps; both loops make at most one dump more than there are keys; what goes out, byte by byte, and which raw entries it deletes; exactly which runs show that NUD_FAILED is not dropped after round 1 |
| `AddrPrefix`, `AddrFilter`, `AddrFlags` | selectors | prefix match is agreement on leading bits; the computed broadcast is the greatest address of its prefix; the two filter passes show what one pass shows; a flag's last word wins |
| `AddrWrite`, `AddrHeader` | `ip address add` and its kin up to the request | one family, at most one payload a kind, lifetimes in order, one lookup; from the words alone, every field and attribute of the request, when it is sent, and when an attribute is sent twice |
| `Nexthop` | groups and flush order | text, bytes and members round trip; when the decoder reads other weights than were written |
| `DumpFile`, `DumpRestore` | save, restore and the two file readers | both readers take the same records from every byte string; save then restore is lossless; the good prefix of a damaged file is restored |
| `LLTab` | the name table | under every event the table answers as the live links do; when a dump leaves a stale name |
| `RejectLog` | the rate-limited reject log | no call is lost over any interleaving, each stamp prints one line, what each line reports, and exactly when stamps are `every` apart |
| `Lifecycle` | the monitor's supervise and shutdown | on every run nothing blocks, nothing is left behind, every result is taken once, every failure is joined as often as it was received; supervising ends for a cause and only for one, and runs are bounded |

## How to read it

Code that loops or updates fields is a method, or a class with its fields, and is
proved against a specification function or a declarative predicate; the lemmas
are then about that specification. Goroutines are state machines whose steps
are the atomic operations and channel operations of the source. Integers are
unbounded, so 16-, 32- and 64-bit limits are written out. Strings are taken
byte by byte. Flag words in `AddrFilter`, `AddrFlags` and `AddrWrite` are sets of
bit numbers. Clocks, dumps, link names, sequence numbers and table look-ups are
parameters.

## Where code and comments differ

- The duplicate test of `ip address add` counts bytes, and `any`, `all` and a
  `default` without a family have none. `any any dev d0` is accepted with two
  IFA_LOCAL, and like words give two IFA_ADDRESS or two IFA_BROADCAST.
  `AddrWrite.AnyIsTakenTwice`, `AddrWrite.PeerAnyIsAddedTo` and
  `AddrWrite.BrdAnyIsAddedTo` show it, `AddrWrite.OnceIff` says from the words
  exactly when an attribute is sent at most once.
- The comment on `neighFlushRound` says that losing NUD_FAILED after round 1
  changes nothing, because an entry kept in round 1 is skipped as copied. An
  entry that no earlier dump kept and that is only failed when it first appears
  is copied all the same. Run goip's own loop once as it is and once with the
  mask narrowed as `ip` narrows it: over a whole run the two differ exactly when
  a round that is applied meets such an entry
  (`NeighFlush.KeepingFailedIsIdleIff`, `NeighFlush.ChangingDumpShowsIt`). This is
  not `ip` itself, which keeps no set of copied keys.
- A key that one dump lists twice is deleted twice: a round compares with earlier
  rounds only (`FlushRounds.ListedTwiceIsDeletedTwice`, `FlushRounds.CopiedAsFirstListed`).
- A next-hop weight of 65536 is accepted and encoded, and the decoder's uint16
  reads it as 0 (`Nexthop.HeaviestWeightDecodesToZero`, `Nexthop.ResolveAgreesIff`).
- A link dump that repeats an index under another name leaves the first name in
  the table (`LLTab.RepeatedIndexGoesStale`, `LLTab.DumpAgreesIff`).
- The reject log's test subtracts in int64, so a clock more than 2^63 below the
  last stamp passes it (`RejectLog.WrappingRun`, `RejectLog.RateHoldsIff`).
- Joined flush datagrams have no padding between them. A message of uneven length
  at the end of a datagram breaks the file that follows it
  (`FlushBuf.UnevenFileBreaks`, `FlushBuf.JoinedFileWalksIff`). The kernel's own
  replies are padded, so their copies are not uneven.

## Model

| member | source | states |
|---|---|---|
| GlobMatch.MatchTokens | internal/goip/fnmatch.go:157-180 | the greedy two-pointer loop answers exactly the declarative match, a cut of the string into one piece a token, within one pass over the tokens a byte and one more |
| GlobMatch.BudgetIsProduct | internal/goip/fnmatch.go:157-180 | those passes are the product of the two lengths |
| GlobMatch.MatchByte | internal/goip/fnmatch.go:132-153 | a token takes a byte, negated classes and stars included |
| GlobMatch.SearchDecidesMatches | internal/goip/fnmatch.go:157-180 | backtracking search accepts exactly when some cut of the string exists |
| GlobMatch.LaterStarSubsumes | internal/goip/fnmatch.go:155-180 | after a second star the answer no longer depends on where the first stopped, so one backtrack point is enough |
| GlobMatch.MismatchMovesStar | internal/goip/fnmatch.go:166-172 | a mismatch after a matched segment rules out the star's current stop |
| GlobMatch.EndFixesStar | internal/goip/fnmatch.go:174-179 | at the end of the string the star stopped where it did |
| GlobMatch.NeverLoses | internal/goip/fnmatch.go:132-153 | a trailing backslash token matches no string |
| GlobMatch.LiteralsMatchThemselves | internal/goip/fnmatch.go:157-180 | literal tokens match their own text alone |
| GlobCompile.ParseBracket | internal/goip/fnmatch.go:88-118 | a bracket expression, unclosed, POSIX or closed, as the member grammar reads it; `GlobBracket.ClosedReads` and `GlobBracket.ClosedWasWritten` say what that is of the text |
| GlobBracket.ClosedReads | internal/goip/fnmatch.go:88-118 | single bytes and ranges, escaped or not, written after `[`, `[!` or `[^` and before a `]`, are read as exactly those members |
| GlobBracket.ClosedWasWritten | internal/goip/fnmatch.go:88-118 | and every bracket expression that closes was so written |
| GlobBracket.BracketMatches | internal/goip/fnmatch.go:66-180 | a pattern of one bracket expression matches exactly the one-byte strings some written member has, or none has after `!` or `^` |
| GlobBracket.PlainBracketMatches | internal/goip/fnmatch.go:66-180 | the same for `[abc]`, `[!abc]` and `[^abc]`, by membership in the text |
| GlobBracket.PlainRangeMatches | internal/goip/fnmatch.go:66-180 | the same for `[a-z]` and its negations, by order |
| GlobBracket.EdgesAreMembers | internal/goip/fnmatch.go:95-115 | a `]` in front and a `-` at the end are members |
| GlobBracket.OpenBracketIsLiteral | internal/goip/fnmatch.go:66-118 | without its `]` the `[` is a literal |
| GlobBracket.PosixClassIsRefused | internal/goip/fnmatch.go:100-102 | a POSIX class among the members refuses the pattern, whatever follows |
| GlobPrint.PrintedTokenReads | internal/goip/fnmatch.go:54-77 | the text of a token, wherever it stands in a pattern, reads as that token and ends where the text does |
| GlobCompile.Compile | internal/goip/fnmatch.go:50-83 | the token list with every star after a star dropped, refused exactly on a POSIX class |
| GlobCompile.CollapseKeepsLanguage | internal/goip/fnmatch.go:50-83 | collapsing stars changes no match |
| GlobCompile.CollapseSeparatesStars | internal/goip/fnmatch.go:50-83 | a list without adjacent stars is left as it is |
| GlobCompile.TokensMeanReference | internal/goip/fnmatch_fuzz_test.go:14-58 | searching the tokens agrees with the test suite's recursive matcher on the pattern text at every position |
| GlobCompile.CompiledMeansReference | internal/goip/fnmatch_fuzz_test.go:14-58 | the compiled, collapsed pattern matches exactly what the recursive matcher does |
| GlobCompile.Fnmatch | internal/goip/fnmatch.go:25-31 | the whole call: refused exactly on a POSIX class, else the recursive matcher's answer; for bracket expressions `GlobBracket.BracketMatches` gives that answer from the text |
| GlobPrint.PrintCompileRoundTrip | internal/goip/fnmatch.go:50-130 | compiling a printed token list gives it back |
| GlobPrint.EscapedMatchesItself | internal/goip/fnmatch.go:25-83 | a text with every byte escaped matches that text alone |
| GlobCompile.TrailingBackslashLoses | internal/goip/fnmatch.go:54-77 | a pattern ending in a lone backslash matches nothing |
| Netlink.Word32RoundTrip | pkg/xtcpnl/xtcpnl_nl_msg_hdr.go:42-55 | a 32-bit word is read back as it was written |
| Netlink.HeaderRoundTrip | pkg/xtcpnl/xtcpnl_nl_msg_hdr.go:42-55 | a message header is read back as it was written |
| Netlink.BuildWrite | pkg/xtcpnl/xtcpnl_rtattr_encode.go:386-414 | a request is framed: its header's length is its own, its flags include NLM_F_REQUEST, its body follows |
| FlushBuf.FlushBuf.Add | internal/goip/addr_flush.go:54-62 | the buffer after a message, closed first when the message would overflow it, and padded to four |
| FlushBuf.FlushBuf.End | internal/goip/addr_flush.go:65-70 | what was added since the last end goes out as its datagrams, after those before |
| FlushBuf.AddedAfterSent | internal/goip/addr_flush.go:49-70 | earlier datagrams stay in front and change nothing else |
| FlushBuf.PackingIsSound | internal/goip/addr_flush.go:49-72 | every message is in exactly one datagram, in order; a datagram fits the limit or is one message |
| FlushBuf.OversizeOnlyAlone | internal/goip/addr_flush.go:46-62 | a datagram over the limit is a single message that is itself over it |
| FlushBuf.MessagesAreAligned | internal/goip/addr_flush.go:49-72 | each message lies whole in its datagram at a multiple of four |
| FlushBuf.GreedyStaysAhead | internal/goip/addr_flush.go:54-62 | after every message the buffer is ahead of any in-order packing within the limit |
| FlushBuf.PackingIsMinimal | internal/goip/addr_flush.go:54-62 | no in-order packing within the limit uses fewer datagrams |
| FlushBuf.UnpackRestoresMessages | internal/goip/addr_flush.go:49-72 | walking the datagrams by header length gives back exactly the added messages |
| FlushBuf.JoinDatagrams | internal/goip/addr_flush.go:114-120 | the concatenation of the datagrams |
| FlushBuf.JoinedFileWalksIff | internal/goip/addr_flush.go:114-120 | the joined file walks to the added messages exactly when every datagram but the last is a multiple of four long |
| FlushBuf.UnevenFileBreaks | internal/goip/addr_flush.go:114-120 | two messages that need a datagram each, the first of uneven length, do not walk |
| FlushRounds.FlushRound | internal/goip/addr_flush.go:192-220 | one round copies, in dump order, every kept reply whose key no earlier round copied, and stops on a malformed reply |
| FlushRounds.NextRound | internal/goip/addr_flush.go:160-177 | the loop's standing after a round: copied keys, sequence count and datagrams are those of the dumps so far |
| FlushRounds.FreshKeys | internal/goip/addr_flush.go:192-220 | the keys a round copies are its kept keys less those copied before |
| FlushRounds.CopiesCoverKeptKeys | internal/goip/addr_flush.go:192-220 | over all rounds the copied keys are exactly the keys kept in some dump |
| FlushRounds.RoundsAreDisjoint | internal/goip/addr_flush.go:192-220 | no key is copied in two rounds |
| FlushRounds.CopiedAsFirstListed | internal/goip/addr_flush.go:192-220 | a key is deleted as often as the first dump that keeps it lists it kept, whatever later dumps do |
| FlushRounds.NeverKeptNeverCopied | internal/goip/addr_flush.go:192-220 | a key no dump keeps is not deleted |
| FlushRounds.ListedTwiceIsDeletedTwice | internal/goip/addr_flush.go:192-220 | a dump that lists a kept reply twice is answered with two deletes of it |
| FlushRounds.RepeatedDumpIsIdle | internal/goip/addr_flush.go:192-220 | a dump seen before copies nothing |
| FlushRounds.UnchangingCopiesOnce | internal/goip/addr_flush.go:156-187 | when every dump is the same at most one round copies |
| FlushRounds.SentUnpacks | internal/goip/addr_flush.go:192-220 | the datagrams of all rounds unpack to one delete a copied reply, in order |
| AddrFlush.ReadDump | internal/goip/addr_flush.go:192-213 | each reply of a dump decoded, matched and keyed, or malformed |
| AddrFlush.RunRounds | internal/goip/addr_flush.go:156-187 | the round loop: what was sent, and the one way the dumps let it end |
| AddrFlush.RunAddrFlush | internal/goip/addr_flush.go:128-187 | the same over raw replies, under the loop limit and the primary-only rule, and with or without a limit at most one dump more than its dumps keep keys; what the datagrams hold is `AddrFlush.FlushDeletesExactlyMatching` |
| AddrFlush.PrimaryOnlyIff | internal/goip/addr_flush.go:182-185 | a flush stops after one round exactly when the last word naming the secondary flag asks for it clear |
| AddrFlush.EndsWithinKeys | internal/goip/addr_flush.go:156-187 | that bound from the way a flush ends alone |
| AddrFlush.FlushDeletesExactlyMatching | internal/goip/addr_flush.go:128-220 | read back message by message, the datagrams are the copied replies whole, each of type 21 and flagged 1 alone under the next sequence number, and their keys are exactly those matching in some dump |
| AddrFlush.DeletedIffMatching | internal/goip/addr_flush.go:192-220 | a key is deleted exactly when some raw reply of some dump decodes to it and passes the filter |
| AddrFlush.CopiesAreFramed | internal/goip/addr_flush.go:192-220 | every delete is a well-framed message |
| AddrFlush.NoLongerRun | internal/goip/addr_flush.go:156-187 | no run goes on past a point where another ended |
| AddrFlush.EndingIsDetermined | internal/goip/addr_flush.go:156-187 | the dumps decide both how many are made and how the flush ends |
| AddrFlush.UnchangingDumpSettles | internal/goip/addr_flush.go:156-187 | over an unchanging dump a flush makes at most two dumps and, given two rounds, is complete or its dump failed |
| NeighFlush.StateTestMeans | internal/goip/obj_neigh.go:369-377 | a state test drops an entry without a bit of the mask, one in no state unless the mask has 0x100, and no proxy or learned entry |
| NeighFlush.KeepsIsNotFiltered | internal/goip/neigh_flush.go:141-144 | the hand-written state test is the general one under the flush mask |
| NeighFlush.NarrowedMask | internal/goip/obj_neigh.go:369-377 | the mask without NUD_FAILED drops the failed-only entries and no others |
| NeighFlush.RunNeighFlush | internal/goip/neigh_flush.go:107-136 | the unbounded loop ends within one dump more than there are keys, in the way the dumps decide, and what it has to show is the copies of the rounds before |
| NeighFlush.FlushNeighbors | internal/goip/neigh_flush.go:107-185 | the same over bodies decoded, selected and tested as the round does, copied as RTM_DELNEIGH |
| NeighFlush.FlushDeletesCopies | internal/goip/neigh_flush.go:151-185 | read back message by message, the datagrams are the copied replies whole, each of type 29 and flagged 1 alone under the next sequence number |
| NeighFlush.DeletedIffMatching | internal/goip/neigh_flush.go:138-185 | a key is deleted exactly when some raw reply decodes to it, is of the family and device asked for, and has a state outside 0x40 and 0x80, none, or one of the flags 0x18 |
| NeighFlush.EndsOnce | internal/goip/neigh_flush.go:107-136 | the dumps let a run end in one way and after one number of dumps only |
| FlushRounds.CopyGrows | internal/goip/addr_flush.go:192-220 | a round that copies adds a key for good |
| FlushRounds.RoundsWithinKeys | internal/goip/addr_flush.go:156-187 | rounds that all copy are no more than the keys they copy |
| NeighFlush.KeepingFailedIsIdleIff | internal/goip/neigh_flush.go:146-150 | goip's loop run to its end over the same dumps, as it is and with the mask losing NUD_FAILED after round 1, sends the same datagrams exactly when no applied round of the first brings a failed-only entry whose key no dump before kept; then the two also end alike |
| NeighFlush.RoundAgrees | internal/goip/neigh_flush.go:146-185 | a round without such an entry is the same to both, where the rounds before were |
| NeighFlush.UnchangingDumpHidesIt | internal/goip/neigh_flush.go:146-150 | over an unchanging dump there is no such entry |
| NeighFlush.ChangingDumpShowsIt | internal/goip/neigh_flush.go:146-150 | two complete runs over the same dumps: goip copies a failed entry in its second round and makes three dumps, with the mask narrowed it stops at two, and the datagrams differ |
| AddrPrefix.PrefixMatch | internal/goip/addr_filter.go:558-587 | the masked byte test is agreement on the prefix's leading bits, family and absent address included |
| AddrPrefix.MaskedDifference | internal/goip/addr_filter.go:576-586 | two bytes agree under the top mask exactly when their leading bits do |
| AddrPrefix.FillHostBits | internal/goip/addr_write.go:519-529 | the bit loop gives the peer's network bits with every host bit set, or cleared |
| AddrPrefix.BroadcastIsExtremal | internal/goip/addr_write.go:503-531 | `brd +` and `brd -` are the greatest and the least address of the prefix |
| AddrPrefix.ValueIsInjective | internal/goip/addr_write.go:503-531 | an address is determined by its value, so those two are unique |
| AddrFilter.MatchCommon | internal/goip/addr_filter.go:491-509 | the selectors shared by show and flush |
| AddrFilter.MatchAddr | internal/goip/addr_filter.go:460-471 | which address is shown under a link |
| AddrFilter.MatchFlush | internal/goip/addr_filter.go:478-486 | which address a flush deletes |
| AddrFilter.ModeIff | internal/goip/addr_filter.go:403-440 | a link is skipped exactly when it has no name or fails a selector that is looked at; under a label only the device and its state are |
| AddrFilter.SurvivesIff | internal/goip/addr_filter.go:537-549 | a link with addresses survives exactly by one that passes, one with none exactly under no family and AF_PACKET |
| AddrFilter.ListedIff | internal/goip/addr_filter.go:403-549 | a link is listed exactly when the first pass keeps it, it has a name and passes every selector that is looked at |
| AddrFilter.LinkHasAddr | internal/goip/addr_filter.go:537-549 | a link survives the first pass |
| AddrFilter.KeepLinks | internal/goip/addr_filter.go:523-535 | the first pass keeps exactly the surviving links, in order |
| AddrFilter.DroppedLinkShowsNothing | internal/goip/addr_filter.go:511-549 | a link without a passing address would show none |
| AddrFilter.FilterFirst | internal/goip/addr_filter.go:511-535 | filtering first and then concatenating is one pass over all |
| AddrFilter.FirstPassLosesNothing | internal/goip/addr_filter.go:511-535 | the two passes show every link and address one pass would, in the same order |
| AddrFilter.NamesOnlyForLabels | internal/goip/obj_addr.go:286-330 | without a label selector the answer does not depend on the names |
| AddrFilter.GroupAddrs | internal/goip/obj_addr.go:283-356 | the pairs grouped are the one-pass answer in order, the links with a group are exactly those both passes let through, in order, and a header is left out exactly under a label |
| AddrFlags.WordsMean | internal/goip/addr_filter.go:304-329 | a name asks for its bits, `-` before it for the opposite, `dynamic` for the opposite of `permanent` and `primary` for that of `secondary` |
| AddrFlags.FlagFilter.GetFilter | internal/goip/addr_filter.go:304-329 | a flag word, plain or negated, folded into flags and mask; other words change nothing |
| AddrFlags.LastWordWins | internal/goip/addr_filter.go:304-329 | a flag is tested exactly when some word names it, for the value its last word gives |
| AddrFlags.FlagsStayInMask | internal/goip/addr_filter.go:304-329 | no flag outside the mask is asked for |
| AddrFlags.SelectedIff | internal/goip/addr_filter.go:442-509 | which address a flush deletes and which is shown under a link, selector by selector |
| AddrFlags.FlagTestMeansNamed | internal/goip/addr_filter.go:491-497 | the masked exclusive-or test is "each named flag has its last value" |
| AddrWrite.PrefixFits | internal/goip/route_write.go:642-724 | an accepted prefix is of the family asked for, has no bytes or all of its family's, and a length within its width |
| AddrWrite.ReadKeepsInv | internal/goip/addr_write.go:243-439 | what every argument keeps: one family, one payload a kind, lengths that match the addresses |
| AddrWrite.AcceptedRequest | internal/goip/addr_write.go:243-555 | an accepted argv gives a request whose address payloads all have the final family's length, at most one nonempty payload of each kind, at most one IFA_CACHEINFO with 0 < valid and preferred <= valid, and autojoin only with a multicast local |
| AddrWrite.AttributesAreCounted | internal/goip/addr_write.go:243-531 | the attributes of a kind are those the argv gives plus the one added after it |
| AddrWrite.ArgvDecides | internal/goip/addr_write.go:449-531 | the words alone decide whether the local is copied and a broadcast computed: which addresses have bytes, the family they give, the last local and peer, their masks, and `brd +` or `brd -` |
| AddrWrite.OnceIff | internal/goip/addr_write.go:288-531 | each kind is sent at most once exactly when the words name it at most once, those two additions included |
| AddrWrite.AnyIsTakenTwice | internal/goip/addr_write.go:416-439 | `any any dev d0` is accepted with two IFA_LOCAL |
| AddrWrite.PeerAnyIsAddedTo | internal/goip/addr_write.go:334-464 | `peer any 10.0.0.1/24 dev d0` is accepted with two IFA_ADDRESS |
| AddrWrite.BrdAnyIsAddedTo | internal/goip/addr_write.go:351-531 | `brd any brd + 10.0.0.1/24 dev d0` is accepted with two IFA_BROADCAST |
| AddrWrite.BytesGiveOne | internal/goip/addr_write.go:288-531 | without `default`, `all` and `any` each kind is sent at most once |
| AddrWrite.ReadDev | internal/goip/addr_write.go:313-314 | the last `dev` is the one looked up |
| AddrWrite.PeerKeepsInv | internal/goip/addr_write.go:334-347 | a peer keeps the one family, and no second nonempty IFA_ADDRESS is taken |
| AddrWrite.BroadcastKeepsInv | internal/goip/addr_write.go:351-370 | a broadcast keeps them too, `+` and `-` included |
| AddrWrite.LocalKeepsInv | internal/goip/addr_write.go:416-439 | a local keeps them, and is the nonempty IFA_LOCAL of the request |
| AddrWrite.AddrParser.ReadArgs | internal/goip/addr_write.go:251-262 | the loop reads the argv to the specified state or fails with it |
| AddrWrite.AddrParser.Finish | internal/goip/addr_write.go:449-501 | the request after the loop, and one lookup made exactly when the earlier checks pass; `AddrHeader.RequestFromWords` gives its fields from the words |
| AddrWrite.ParseAddrWriteArgs | internal/goip/addr_write.go:243-266 | the whole call: accepted exactly when the state is, with the one lookup of the last device; `AddrHeader.ArgvReadsIff` and `AddrHeader.SentIffWords` give both conditions from the words |
| AddrHeader.RequestFromWords | internal/goip/addr_write.go:243-501 | family, prefix length, scope, flags and the attributes in place, all from the words: the last peer's length if nonzero or else the last local's; the last scope, or 254 for a local in 127/8 on anything but a delete; each flag bit by the flag words and the family at each |
| AddrHeader.ArgvReadsIff | internal/goip/addr_write.go:243-439 | exactly which argv are read to the end: every item complete, its value readable under the family so far, no second value with bytes of a kind and no second lifetime |
| AddrHeader.PrefixReadsIff | internal/goip/route_write.go:642-724 | exactly which words are prefixes under a family: an address the family allows, a mask only behind an address and within its width |
| AddrHeader.SentIffWords | internal/goip/addr_write.go:449-501 | exactly when an argv that reads is sent: a device, a computed broadcast only where there is one, lifetimes that run, and autojoin only for a local in 224/4 or ff00::/8 |
| AddrHeader.AddedFromWords | internal/goip/addr_write.go:449-501 | what is added after the words: the copied local, the computed broadcast and the lifetimes, in that order |
| AddrHeader.BroadcastFromWords | internal/goip/addr_write.go:503-531 | the computed broadcast is the address sent with every bit past its word's length one for `+` and zero for `-` |
| AddrHeader.ItemIffSpelled | internal/goip/addr_write.go:251-287 | a place of the argv is an item exactly as keyword and value, flag name, or address with or without `local` are written |
| AddrHeader.LifetimesOnce | internal/goip/addr_write.go:374-400 | a second `valid_lft` or `preferred_lft` is refused |
| CParse.CStrtoul | internal/goip/cparse.go:53-102 | value, end, overflow and sign in terms of the unlimited number; `CParse.DecimalReads`, `Numerals.HexadecimalReads` and `Numerals.OctalReads` give it from written numbers |
| Numerals.HexadecimalReads | internal/goip/cparse.go:26-102 | spaces, a sign, `0x` or `0X` and a number below 2^64 in hexadecimal digits of either case read as that number, negated modulo 2^64 after `-`, and reading ends after the digits |
| Numerals.OctalReads | internal/goip/cparse.go:26-102 | the same for a leading `0` and octal digits |
| Numerals.HexListsAll | internal/goip/cparse.go:30-40 | no byte outside the two written-out alphabets is a hexadecimal digit |
| CParse.GuardDecidesOverflow | internal/goip/cparse.go:82-96 | dividing before multiplying decides the unlimited overflow test |
| CParse.ConsumesLongestForm | internal/goip/cparse.go:53-102 | what is consumed is the longest prefix of the expected form, nothing when none has it |
| CParse.CGetUnsigned | internal/goip/cparse.go:108-117 | a whole argument within the maximum, or refused |
| CParse.UnsignedAccepts | internal/goip/cparse.go:104-138 | accepted exactly when the magnitude fits 64 bits and the value modulo 2^64 is within the maximum |
| CParse.GetLongAccepts | internal/goip/cparse.go:141-165 | accepted exactly on the whole numbers of the int64 range, as themselves |
| CParse.GetIntAccepts | internal/goip/cparse.go:203-218 | accepted exactly on the whole numbers of the int32 range |
| CParse.GroupIsClampedAndCut | internal/goip/addr_filter.go:338-365 | a group is the number clamped to a long and cut to an int, refused when negative |
| CParse.CAtoi | internal/goip/cparse.go:172-200 | the leading number clamped to int64, its low 32 bits kept |
| CParse.DecimalReads | internal/goip/cparse.go:53-102 | a decimal numeral reads as its number |
| Nexthop.SplitUndoesJoin | internal/goip/nexthop_write.go:233-262 | splitting joined parts gives them back |
| Nexthop.PrintedMemberReads | internal/goip/nexthop_write.go:241-255 | every member in range, written as `ID,WEIGHT` or, when it weighs 1, as `ID`, reads back as it was |
| Nexthop.ParseGroup | internal/goip/nexthop_write.go:233-262 | a group is the encoding of exactly the members its parts read as, refused when one does not |
| Nexthop.ReadableIsAccepted | internal/goip/nexthop_write.go:233-262 | a readable group is accepted with those members |
| Nexthop.GroupRoundTrip | internal/goip/nexthop_write.go:233-262 | the encoded bytes decode to the members |
| Nexthop.PrintedGroupRoundTrip | internal/goip/nexthop_write.go:233-262 | printing, parsing and decoding a group gives it back |
| Nexthop.ResolveAgreesIff | pkg/xtcpnl/xtcpnl_nhmsg.go:203-223 | the repository's decoder gives the members back exactly when every weight is within its reach |
| Nexthop.HeaviestWeightDecodesToZero | pkg/xtcpnl/xtcpnl_nhmsg.go:203-223 | the heaviest accepted weight is decoded as 0 |
| Nexthop.Keep | internal/goip/nexthop_write.go:374-386 | ids not seen before are appended once, zero skipped |
| Nexthop.FlushOrder | internal/goip/nexthop_write.go:365-400 | every id once, exactly those of the dumps, every group before every other id |
| DumpFile.ReadBuffer | internal/goip/obj_monitor.go:721-745 | the buffer reader takes the records of the file and ends as the walk does |
| DumpFile.ReadStream | internal/goip/addr_save.go:156-189 | so does the stream reader, behind the magic |
| DumpFile.StreamStep | internal/goip/addr_save.go:158-187 | one record of a stream, or how it stops |
| DumpFile.ReadersAgree | internal/goip/addr_save.go:153-189 | on every byte string and handler the two take the same records and end alike but for the magic's four bytes of offset |
| DumpFile.WalkGoodPrefix | internal/goip/addr_save.go:156-189 | good messages are taken one by one whatever follows them |
| DumpRestore.AddrSave | internal/goip/addr_save.go:90-108 | a saved file is the magic and the replies |
| DumpRestore.RestoreRecord | internal/goip/addr_restore.go:72-101 | a record is reissued or refused, the first under the extra checks |
| DumpRestore.RestoreRecords | internal/goip/addr_restore.go:42-67 | the callback loop sends the taken records up to the end of the walk |
| DumpRestore.AddrRestore | internal/goip/addr_restore.go:42-67 | refused exactly on a wrong magic, else the walk of the rest |
| DumpRestore.SavedFileWalks | internal/goip/addr_save.go:90-108 | a saved file walks to its replies, then on |
| DumpRestore.RestoredIsReissued | internal/goip/addr_restore.go:72-101 | any record restore takes, of whatever length, is reissued with its body, type 20, the flags with bits 0, 2 and 10 set and every other kept, and the next sequence number |
| DumpRestore.SaveRestoreIsLossless | internal/goip/addr_restore.go:42-101 | saving and restoring reissues every reply, in order, body unchanged |
| DumpRestore.GoodPrefixIsRestored | internal/goip/addr_restore.go:42-67 | of a damaged file exactly the records before the damage are reissued |
| DumpRestore.ForeignMessageIsRefused | internal/goip/addr_restore.go:72-101 | after any good replies a message of another type or shorter than its two headers refuses the file, and nothing is sent |
| DumpRestore.FirstReplyNeedsBoth | internal/goip/addr_restore.go:72-101 | without the write hook, or when the link dump fails, the first good reply ends the restore, each with its own error |
| DumpRestore.SequenceIncreasesIff | internal/goip/addr_restore.go:72-101 | the sequence numbers increase exactly while they stay below 2^32 |
| LLTab.FilledAnswers | internal/goip/lltab.go:69-80 | after a link is filled its names, alternative ones too, answer with its index and every other name as before |
| LLTab.LLTab.Fill | internal/goip/lltab.go:69-80 | each link's entry and every nonempty name point to its index, later ones over earlier |
| LLTab.LLTab.Forget | internal/goip/lltab.go:84-91 | the index and every name pointing to it are gone, nothing else |
| LLTab.ForgetDeletes | internal/goip/lltab.go:84-91 | forgetting an index takes the table to the links without it |
| LLTab.FillAdds | internal/goip/lltab.go:69-80 | filling a new link takes the table to the links with it |
| LLTab.MonitorLink | internal/goip/obj_monitor.go:546-555 | a link event forgets the index and fills it again unless it is a delete |
| LLTab.StepAgrees | internal/goip/obj_monitor.go:546-555 | one event keeps the table in agreement with the live links |
| LLTab.RunAgrees | internal/goip/obj_monitor.go:546-555 | so does every sequence of events |
| LLTab.DumpNames | internal/goip/lltab.go:69-80 | after a dump a name points to its last carrier |
| LLTab.DumpAgreesIff | internal/goip/obj_monitor.go:309-320 | a dump leaves the table in agreement exactly when no name of a replaced entry was dropped |
| LLTab.DistinctDropsNothing | internal/goip/obj_monitor.go:309-320 | distinct indexes drop nothing |
| LLTab.RepeatedIndexGoesStale | internal/goip/lltab.go:69-80 | a dump repeating an index leaves a stale name |
| LLTab.MonitorAnswersAsLive | internal/goip/obj_monitor.go:309-320 | after a dump and any events both look-ups answer from the live links |
| RejectLog.NextKeepsInv | cmd/xtcp2/ip_server.go:73-90 | every atomic step keeps the count plus what was reported equal to the calls |
| RejectLog.CountIsConserved | cmd/xtcp2/ip_server.go:73-90 | over every interleaving no rejected call is lost or counted twice |
| RejectLog.EveryStampPrintsOnce | cmd/xtcp2/ip_server.go:73-90 | every installed stamp gives exactly one line, printed or about to be |
| RejectLog.LineReports | cmd/xtcp2/ip_server.go:73-90 | on every run a line reports the connections closed up to its own that no line before its count had reported |
| RejectLog.AdvanceIff | cmd/xtcp2/ip_server.go:78-82 | a passed test means the interval elapsed exactly when the subtraction did not wrap |
| RejectLog.RateHoldsIff | cmd/xtcp2/ip_server.go:73-90 | on every run, whatever the clocks read, consecutive stamps are the interval apart exactly when no stamp is more than 2^63 below the one before |
| RejectLog.EpochClocksKeepTheRate | cmd/xtcp2/ip_server.go:73-90 | on every run whose clocks read from the epoch on they are |
| RejectLog.WrappingRun | cmd/xtcp2/ip_server.go:73-90 | a run whose clock goes from the largest int64 to the smallest and installs both stamps |
| RejectLog.RateIsLimited | cmd/xtcp2/ip_server.go:73-90 | where no stamp wraps, any two are at least their distance times the interval apart |
| Lifecycle.SendNeverBlocks | cmd/go-link-monitor/lifecycle.go:56-106 | a worker that has not sent finds room in its channel |
| Lifecycle.NextKeepsInv | cmd/go-link-monitor/lifecycle.go:23-175 | every step keeps the accounting of workers, channels and errors |
| Lifecycle.RunKeepsInv | cmd/go-link-monitor/lifecycle.go:23-175 | so does every run |
| Lifecycle.ReturnLeavesNothingBehind | cmd/go-link-monitor/lifecycle.go:74-97 | on return every goroutine's result was received; every received error that is not a normal stop is joined, and nothing is joined that was not received |
| Lifecycle.EachResultTakenOnce | cmd/go-link-monitor/lifecycle.go:23-113 | a finished run takes the monitor's result once and each server's and each shutdown's once |
| Lifecycle.EachFailureJoinedOnce | cmd/go-link-monitor/lifecycle.go:74-113 | on every run the joined error holds each failure exactly as often as it was received, equal ones included |
| Lifecycle.NeverWaitsForNobody | cmd/go-link-monitor/lifecycle.go:74-113 | whatever the caller waits for can be taken or is still to be sent |
| Lifecycle.ShutdownNeverSticks | cmd/go-link-monitor/lifecycle.go:74-113 | once the workers are done some step of the caller's own is enabled |
| Lifecycle.RankFalls | cmd/go-link-monitor/lifecycle.go:23-175 | every step but an arriving signal comes nearer the end |
| Lifecycle.RunsAreBounded | cmd/go-link-monitor/lifecycle.go:23-175 | a run is linear in the servers and the signals |
| Lifecycle.OnlyCausesStop | cmd/go-link-monitor/lifecycle.go:146-175 | supervising ends only for the end of the context, a stopping signal, or the exit of the monitor or a server, never for SIGUSR1; `Lifecycle.CausesStop` is the converse |
| Lifecycle.SelectStopsIff | cmd/go-link-monitor/lifecycle.go:146-175 | one select of supervise returns exactly for the context, a signal other than SIGUSR1, or a result of the monitor or a server |
| Lifecycle.CausesStop | cmd/go-link-monitor/lifecycle.go:74-175 | the other way round: after any of those causes a run comes to rest only past supervise, and once the workers are done only when serve has returned |
| Lifecycle.BindAndStart | cmd/go-link-monitor/lifecycle.go:26-76 | all listeners open and every worker started, or, at the first that cannot be bound, none left open, its error joined with those of closing the others, and no worker started |

## Left out

- Netlink sockets, the service layer, rendering to text and JSON, error wording, warnings and environment look-ups: I/O, or parameters of the model.
- The dotted-quad, IPv6 and link-layer address readers (`internal/goip/cparse.go:246-332`) and netmasks are parameters of `AddrWrite`, which asks only that they give 4 and 16 bytes.
- The keyword, flag and name tables of `AddrWrite` and `AddrFlags` are parameters, so the results hold for every table; the tables' own rows are not checked.
- Argument parsing of show, flush, route, rule, neighbour, tunnel and next-hop commands: much the same as what `AddrWrite` models, and easier.
- The request side of `BuildWriteRequest`'s admission list and family header length (`pkg/xtcpnl/xtcpnl_rtattr_encode.go:386-392`), and the next-hop delete message.
- A bind is one step before the state machine of `Lifecycle`: the context ending while listeners are bound is not modelled.
- The time limits inside `shutdownGRPC` and `shutdownHTTP`: what they return is arbitrary in `Lifecycle`.
- The int64 wrap of the reject counter after 2^63 calls.
- `LLTab`'s live look-ups of alternative names, which the source also leaves out.
- xtcp2's own collector, gRPC, Kafka and configuration: pipelines with little state, which would add only easy members.
- AddrWrite.AddrParser.Finish: returns the request instead of writing its header fields in place, and prints no warning.
- DumpRestore.SaveRestoreIsLossless: is about replies of at most 16384 bytes and a multiple of four long, as a dump's are; longer records are refused by the readers.
