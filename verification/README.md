# Verified model of an IRC bot framework

A Dafny 4.11 model of the state machines and codecs of the ultimateq IRC bot framework, with proofs of
what they keep over every input and every run. `dafny verify dfyconfig.toml` checks the whole project.

The files follow the program's structure.

* **Channel modes.** `ModeParsing` reads a modestring as a list of operations, and `ModeReading` says which
  letters get which arguments and what that leaves of each mode. `ModeSets` says what each
  operation does to a mode set and to a diff, as values. `Modes` holds the mutable classes `ChannelModes`
  and `ModeDiff` and the loop of `apply`, each method tied to those values. `ModeLaws` compares building a
  diff and applying it later with applying the modestring directly. `ModePrinting`, `PrintExactness` and
  `DiffPrinting` read printed sets and diffs back, whatever order Go walks its maps in.
* **CTCP.** `Ctcp` models the escapes as the sequential whole-text replacements they are.
* **Network client.** `Framing` cuts the byte stream at CR LF over any read boundaries. `Queues` is the
  linked queue. `FloodControl` is the penalty arithmetic, `Pumps` the step machine of the writing loop over
  whole runs, and `IrcClients` the object whose methods do those steps. `FloodLaws` says what is charged, that
  bursts are held back and that the keepalive goes on.
* **State database.** Three levels. `StateView` is the plain value: people, rooms, memberships with their
  mode letters, and the bot's own user. `StateDb` and `StateTables` are the four maps over object
  references, two of them inverse indices that share mode objects. `IrcState` has the mutable objects;
  `Update` is proved to do on the value exactly what `StateView.Update` says. `StateLaws` proves what the
  events keep, also over whole runs, `EventLaws` what each event leaves behind, `MemberModes` compares a mode
  change with its modestring in order. `Hosts` has sender names and keys, `UserBits` the mode byte.
* **Host masks.** `HostMasks` compares the scan without backtracking with a declarative glob,
  `MaskExactness` says on which masks the two agree for every host.
* **Message text.** `LineSplit` is the line splitter, `MessageText` printing and parsing of a message.
* **Commands.** `CommandArgs` checks a command's declared arguments, `ArgBinding` binds words to them,
  `BindingLaws` says what each argument then holds.
* **User cache.** `UserCache` compares the cached store with the bare database.

`Text` and `Seqs` hold the parts of Go's `strings` package and of sequences that the rest is built on.

Several promises of the program do not hold on all inputs. Each such case has an exact condition, a lemma
that names the inputs, or both:

* Applying a diff later is not the modestring itself when an on-set mode is removed and set again
  (`-l+l 10`), or when an argument is set and unset over another (`ModeLaws.DeferredExactly`, `PutLost`,
  `CutLost`).
* A printed set comes back exactly when no printed argument holds a space and the last is not empty and
  does not end in white space (`PrintExactness.PrintAppliesExactly`). A printed diff comes back unchanged
  exactly when no on-set mode is on both sides and nothing that takes an argument is printed after a removed
  on-set mode (`DiffPrinting.PrintedDiffExactly`).
* CTCP loses a 0x5C directly followed by 0x61 (`Ctcp.RoundTripExactly`).
* A mask can miss a host that its glob matches (`HostMasks.MissedMatch`). A mask without `?` finds every
  match exactly when each literal directly after a star is directly followed by a star
  (`MaskExactness.StarMaskExactly`). With `?` it is enough that each literal after a wildcard is followed by
  a group that holds a star (`YieldingExact`); that is not needed, as `?aa*` shows (`NotYieldingExact`).
* A rename that only changes the case of a nick drops the user; a rename onto another user's nick breaks
  the indices unless every channel of that user is shared (`StateTables.RenameToSame`, `RenameShows`). A
  nick with `-`, `{`, `|` or `}` does not parse as a sender, so its renames are not seen
  (`StateLaws.OddNickUnparsed`, `OddNickKept`). A rename from a full host moves the user exactly when the
  sender parses, or has the empty key, and the new nick has another key (`StateLaws.RenamedExactly`).
* In one mode change taking a user mode wins over giving it, so `-o+o n n` leaves `n` without it
  (`MemberModes.GiftLost`). The change is as if made in order exactly when no member's last operation on a
  mode is a give with a take before it (`MemberModes.ModesInOrderExactly`).
* A change of the bot's own modes takes effect exactly when the bot's nick holds no capital letter
  (`StateLaws.OwnModesExactly`, `OwnModesLost`).
* The reader takes a whole stream exactly when every frame with its CR LF and the rest fit the buffer; at a
  longer frame it stalls (`Framing.Siphon.Run`, `LongFrameStalls`).
* A failed database write on save leaves the cache ahead of the database (`UserCache.SaveKeepsExactly`).

Where comments and code disagree the model follows the code: CTCP low-level quoting keeps the raw byte
after the quote (irc/ctcp.go:111-134), and a required argument is accepted after a variadic one, which the
documentation at dispatch/cmd/cmd.go:67-74 does not allow (`CommandArgs.RequiredAfterVariadic`).

## Model

| member | source | states |
|---|---|---|
| `ModeParsing.ParseChannelModeKinds` | data/modes_common.go:148-167 | exactly the listed letters have a kind, that of their list, where no argument wins over address over on-set over always |
| `ModeParsing.ParseChannelModeKindsCSV` | data/modes_common.go:171-184 | a token has kinds exactly when it holds four lists, read as address, always, on-set and no argument |
| `ModeParsing.OpsFit` | data/modes_common.go:227-294 | every operation read from a modestring works on the map its letter's kind belongs to, and an on-set mode is removed without an argument |
| `ModeReading.ArgumentsInOrder` | data/modes_common.go:227-294 | for every modestring the operations are its letters in order under their signs, but for those no argument is left for, and the written arguments are handed out from the first on, one to each letter that takes one |
| `ModeReading.UserModesExactly` | data/modes_common.go:273-282 | the user modes given and taken are the user mode letters in order, each with the argument that falls to it |
| `ModeReading.TwoGifts` | data/modes_common.go:273-282 | `+ov alice bob`, for any two user modes and nicks, gives each nick its own mode |
| `ModeReading.FlagsExactly` | data/modes_common.go:283-288 | a flag ends set exactly when its last writing is under a plus, or it was set and is not written |
| `ModeReading.OnsetExactly` | data/modes_common.go:244-261 | an on-set mode ends without argument, with the last one given, or as it was, by the sign of its last writing |
| `ModeReading.AlwaysExactly` | data/modes_common.go:244-261 | a mode that always takes an argument ends with the last one put, or the old one, and with none when a later cut names that |
| `ModeReading.AddressesExactly` | data/modes_common.go:262-271 | an address is listed exactly when it is last written under a plus, or was listed and is not written |
| `Text.TrimExactly` | data/modes_common.go:233 | trimming takes the white space off both ends and nothing more |
| `Modes.Moder.ApplyTo` | data/modes_common.go:227-294 | the loop over the letters changes the mode set or the diff as the fold of the operations read from the modestring, and returns the user modes given and taken |
| `Modes.ChannelModes.Apply` | data/channel_modes.go:41-43 | applying a modestring directly is that fold on the set, with the returned user modes in order |
| `Modes.ModeDiff.Apply` | data/channel_modes_diff.go:42-44 | applying a modestring to a diff is the fold on both halves, and returns the same user modes as applying it directly |
| `Modes.ChannelModes.SetAddress` | data/channel_modes.go:275-288 | an address is added once, at the end of its list, and the counter is kept at the total of all lists |
| `Modes.ChannelModes.UnsetAddress` | data/channel_modes.go:291-310 | the address is swapped with the last and cut off, an emptied list goes away, and the counter follows |
| `Modes.ChannelModes.SetArg` | data/channel_modes.go:243-245 | the argument of one mode is replaced and nothing else changes |
| `Modes.ChannelModes.UnsetArg` | data/channel_modes.go:249-255 | the argument goes only when the request is empty or names it |
| `Modes.ChannelModes.ApplyDiff` | data/channel_modes.go:46-70 | flags, arguments and address lists end as prescribed by both halves, whatever order the maps are walked in |
| `Modes.ChannelModes.String` | data/channel_modes.go:73-105 | the slots counted beforehand are all filled, no index overflows, and the text lists every flag, argument and address once in some order |
| `Modes.ModeDiff.SetArg` | data/channel_modes_diff.go:89-92 | sets the argument on the positive half and does the opposite on the negative one |
| `Modes.ModeDiff.String` | data/channel_modes_diff.go:47-71 | the text is the signed letters of both halves, then the arguments of both |
| `ModeSets.RemoveSwapKeeps` | data/channel_modes.go:291-310 | removal by swapping drops exactly that address and makes no duplicate |
| `ModeSets.RemoveSwapExactly` | data/channel_modes.go:291-310 | the last address takes the removed one's place and the others stay |
| `ModeSets.StepKeepsApart` | data/channel_modes_diff.go:73-113 | every setter and unsetter keeps the halves of a diff apart |
| `ModeSets.DiffHalvesApart` | data/channel_modes_diff.go:73-113 | in every diff built from an empty one the halves share no flag, no address of one mode, and no argument of one mode |
| `ModeLaws.DiffAppliedUnique` | data/channel_modes.go:46-70 | the result of applying a diff does not depend on the order the maps are walked in |
| `ModeLaws.ArgDeferredExactly` | data/channel_modes_diff.go:89-99 | for one mode with an argument the deferred edits equal the direct ones exactly when no remembered removal or addition is forgotten |
| `ModeLaws.DeferredExactly` | data/channel_modes.go:46-70 | for every mode set and every list of operations, building a diff and applying it gives the same flags, arguments and address sets as applying directly, exactly when every mode with an argument is edited faithfully |
| `ModeLaws.DeferredApplies` | data/channel_modes.go:46-70 | it does for every modestring that writes each letter with a kept argument at most once |
| `ModeLaws.PutLost` | data/channel_modes_diff.go:89-99 | for every on-set mode, removing and setting it in one modestring is lost by the diff |
| `ModeLaws.CutLost` | data/channel_modes_diff.go:89-99 | for every mode that always has an argument, setting and unsetting one over another leaves the old one through the diff, and none directly |
| `ModePrinting.ReachedKeeps` | data/channel_modes.go:41-43 | every mode set reached by applying modestrings has duplicate-free, non-empty address lists and letters in the map of their kind |
| `ModePrinting.PrintApplies` | data/channel_modes.go:73-105 | applying the printed text of a set to an empty one rebuilds the same flags, arguments and lists, for every walk order |
| `ModePrinting.ReachedPrintApplies` | data/channel_modes.go:73-105 | so for every reached set with printable letters and arguments |
| `PrintExactness.PrintAppliesExactly` | data/channel_modes.go:73-105 | for every well-formed set and walk order, the printed text rebuilds the set from nothing exactly when no printed argument holds a space and the last is neither empty nor ends in white space |
| `PrintExactness.ReachedPrintExactly` | data/channel_modes.go:73-105 | so for every set reached by applying modestrings |
| `PrintExactness.PrintedInOrder` | data/channel_modes.go:73-105 | the printed letters begin with the flags and go on with the modes of one argument, each once |
| `DiffPrinting.PrintedDiffExactly` | data/channel_modes_diff.go:47-71 | a printed diff applied to an empty one comes back unchanged exactly when no on-set mode is on both sides and no entry with an argument is printed after a removed on-set mode |
| `DiffPrinting.ReachedDiffKeeps` | data/channel_modes_diff.go:42-44 | every diff reached through modestrings keeps its halves apart, well formed and of the right kinds |
| `DiffPrinting.ReachedDiffPrints` | data/channel_modes_diff.go:47-71 | reached diffs without a removed on-set mode come back unchanged, for every walk order |
| `Ctcp.LowLevelRoundTrip` | irc/ctcp.go:117-134 | low-level unescape undoes low-level escape on every byte string, although both are four whole-text replacements in sequence |
| `Ctcp.LineBreaksStayRaw` | irc/ctcp.go:111-124 | low-level escape keeps exactly the raw bytes it quotes: line breaks stay in the output |
| `Ctcp.HighLevelRoundTripExactly` | irc/ctcp.go:96-109 | high-level unescape undoes high-level escape exactly when no 0x5C is directly followed by 0x61 |
| `Ctcp.RoundTripExactly` | irc/ctcp.go:23-50 | unpacking a packed tag and data gives them back, absent data counting as empty, exactly when the tag has no space and neither has the pair 0x5C 0x61 |
| `Ctcp.PackedDelimiters` | irc/ctcp.go:36-50 | the delimiter 0x01 stands only at the two ends of a packed message |
| `Framing.FramingExactly` | inet/client.go:433-449 | the frames and the rest are the only reading of a byte string as CR LF terminated frames and an unterminated rest |
| `Framing.FramesExtend` | inet/client.go:274-294 | more bytes add the frames of the kept rest and the new bytes, wherever the cut falls, between CR and LF too |
| `Framing.Siphon.FindChunks` | inet/client.go:433-449 | the scan hands over exactly the frames in order and leaves the rest; after an abort a prefix of them |
| `Framing.Siphon.ExtractMessages` | inet/client.go:306-329 | the frames are sent and the unterminated rest is at the front of the reused buffer |
| `Framing.Siphon.Run` | inet/client.go:274-294 | over any sequence of reads the sent messages are the frames of all bytes read and the buffer holds the rest; after a shutdown they are a prefix; with enough reads that deliver bytes the whole stream is taken exactly when its frames and its rest fit the buffer |
| `Framing.LongFrameStalls` | inet/client.go:274-294 | a stream that starts with a longer frame fills the buffer before there is anything to send |
| `Queues.Queue.Enqueue` | inet/queue.go:17-33 | the linked nodes hold the old sequence with the message at the end; an empty message is not queued |
| `Queues.Queue.Dequeue` | inet/queue.go:36-48 | the first message is taken off the sequence; an empty queue stays empty |
| `FloodControl.SleepBounded` | inet/client.go:167-189 | every computed sleep lies between 0 and the timeout, with division that truncates toward zero |
| `FloodControl.RoundKeepsOrder` | inet/client.go:167-189 | the rounding to the scale keeps order, for negative durations too |
| `FloodControl.LeadKept` | inet/client.go:167-189 | a call keeps the penalty within timeout, largest charge and one scale of the clock once its sleep is over |
| `FloodLaws.RoundExactly` | inet/client.go:168-170 | rounding gives the one multiple of the scale next to a duration, half a scale up, cut off toward zero |
| `FloodLaws.ChargedExactly` | inet/client.go:176-178 | a call adds to the penalty, or to the last write if that is later, the base step and the multiple of the scale within half a scale of scale * length / factor |
| `FloodLaws.SleepsExactly` | inet/client.go:176-188 | a call sleeps exactly when the rounded lead reaches the timeout and the rounded excess is positive, for that excess, at most the timeout |
| `FloodLaws.CallsExactly` | inet/client.go:204-237 | a step makes a call exactly for a message that comes while none waits, or that was written while more wait, charged for its length; the message goes out at once or the timer is set as the call says |
| `FloodLaws.WritesNoted` | inet/client.go:256-269 | the last write is noted exactly when one reaches the connection, PONGs and pings included |
| `FloodLaws.BurstHeld` | inet/client.go:193-253 | over every burst at one instant, at most n messages go out before one waits, where n base steps round to the timeout and one more leaves an excess |
| `FloodLaws.HoldsBackWhole` | inet/client.go:167-189 | with a timeout of whole scales and steps of at least one, n base steps that fill the timeout suffice |
| `FloodLaws.PingsGoOn` | inet/client.go:238-246 | over every run the next ping is due one keepalive after the last or the start, and never without a keepalive |
| `Pumps.RunConserves` | inet/client.go:193-253 | over every run the timer is set exactly when messages wait, and until a write fails the written messages but PONGs followed by the queue are the accepted ones and the pings in order, each once |
| `Pumps.RunThrottled` | inet/client.go:193-253 | over every run whose charges are at most the timeout, no call finds the penalty further ahead of the clock than the bound, and every sleep lies in [0, timeout] |
| `Pumps.WindowBounded` | inet/client.go:167-189 | the charges in any window of calls are at most the time it spans and that bound |
| `Pumps.PenaltyGrows` | inet/client.go:167-189 | no step lowers the penalty |
| `IrcClients.IrcClient.CalcSleepTime` | inet/client.go:167-189 | the fields are updated and the answer is computed as the flood arithmetic says |
| `IrcClients.IrcClient.OnMessage` | inet/client.go:204-226 | a received message is one step of the pump machine, on the linked queue |
| `IrcClients.IrcClient.OnWake` | inet/client.go:227-237 | a fired timer is one step of the pump machine |
| `IrcClients.IrcClient.OnBeat` | inet/client.go:238-246 | a keepalive is one step of the pump machine |
| `IrcClients.IrcClient.Pump` | inet/client.go:193-253 | any sequence of select cases is a run of the machine, and conserves messages |
| `HostMasks.IsMatch` | irc/hosts.go:92-144 | the scan accepts exactly when the mask has a lazy assignment: no wildcard's piece holds the literal that ends its group |
| `HostMasks.LazyGroup` | irc/hosts.go:92-144 | a group of wildcards takes any number of characters if it holds a star and else at most as many as it is long, up to the first hit of its literal |
| `HostMasks.LazyIsMatch` | irc/hosts.go:92-144 | soundness: what is accepted the glob matches, with `*` any text and `?` at most one character |
| `HostMasks.AnchoredExactly` | irc/hosts.go:92-144 | when every literal that ends a group occurs at most once in the host, the scan and the glob agree |
| `HostMasks.OrdinaryExactly` | irc/hosts.go:92-144 | exactness on masks whose groups end the mask or stand before `!` or `@`, for hosts with at most one of each |
| `HostMasks.MissedMatch` | irc/hosts.go:92-144 | for any three distinct literals a star before two of them misses a host the glob matches |
| `MaskExactness.StarMaskExactly` | irc/hosts.go:92-144 | for every mask without `?`, the scan finds every match of every host exactly when each literal directly after a star is directly followed by a star |
| `MaskExactness.StuckMisses` | irc/hosts.go:92-144 | every mask without `?` that breaks this has a host that the glob matches and the scan misses |
| `MaskExactness.YieldingExact` | irc/hosts.go:92-144 | for every mask in which each literal after a wildcard is followed by a group that holds a star, the scan and the glob agree on every host |
| `MaskExactness.NotYieldingExact` | irc/hosts.go:92-144 | with `?` the converse fails: `?aa*` finds every match |
| `Hosts.SplitExactly` | irc/hosts.go:8-16 | a text splits into nick, user and host exactly when it is well-formed parts with `!` and `@` between; any other text splits into nothing |
| `Hosts.SplitNick` | irc/hosts.go:147-175 | the nick of a text that splits is its first fragment |
| `LineSplit.Helper.SplitSend` | irc/writer.go:293-329 | the loop ends, and writes the lines in order through the reused buffer until the first write error; without one the lines written deliver the message |
| `LineSplit.LinesDeliver` | irc/writer.go:293-329 | every line is the header and a text, the texts are the message once each soft break gets its space back, and a message that fits is one line, the empty one too |
| `LineSplit.PiecesRebuild` | irc/writer.go:293-329 | the pieces rebuild the message once one space is put back at each soft break |
| `LineSplit.PiecesBroken` | irc/writer.go:293-329 | each piece but the last ends at the last space of its look-back window, or fills its room when the window has none |
| `LineSplit.LinesFit` | irc/writer.go:293-329 | every line is the header and a piece, within the limit |
| `LineSplit.FewLines` | irc/writer.go:293-329 | with room M for at least the look-back, k lines of n bytes satisfy (k-1)*(M-18) < n |
| `MessageText.String` | irc/event.go:93-112 | the loop prints sender, name and arguments, the last behind a colon when it holds a space |
| `MessageText.ReadsParse` | parse/parse.go:39-61 | a text of the pattern's shape parses to its sender, its name, the words of its middle and the trailing text |
| `MessageText.ParsesExactly` | parse/parse.go:20-21 | the recogniser accepts exactly the texts the regular expression matches |
| `MessageText.ArgsRoundTrip` | irc/event.go:93-112 | printed arguments parse back exactly when they are plain words, the last of which may hold spaces and no line feed |
| `MessageText.RoundTripExactly` | parse/parse.go:39-61 | a printed event parses back to itself exactly when its name, sender and arguments have those forms |
| `CommandArgs.Cmd.ParseArgs` | dispatch/cmd/cmd.go:130-199 | the loop with its order flags leaves the arguments, the counts or the error of checking them one by one |
| `CommandArgs.AcceptedExactly` | dispatch/cmd/cmd.go:130-199 | a declaration is accepted exactly when every argument has a form, names differ, only the first is a channel, no required one follows an optional one and only required ones follow a variadic one |
| `CommandArgs.RejectedExactly` | dispatch/cmd/cmd.go:130-199 | a refused list is refused for its first argument that does not go with those before it, with the error of the first check that fails |
| `CommandArgs.SignsExactly` | dispatch/cmd/cmd.go:155-196 | `~` marks a nick, `*` a user, `#` a channel, brackets an optional and dots a variadic argument, and each is so exactly when its sign is there |
| `CommandArgs.NameExactly` | dispatch/cmd/cmd.go:148 | the name is what stands between the signs |
| `CommandArgs.CountExactly` | dispatch/cmd/cmd.go:174-195 | the counts are the numbers of required and of optional arguments |
| `CommandArgs.VariadicLastExactly` | dispatch/cmd/cmd.go:67-74 | an accepted list has its variadic argument last exactly when no required one follows it |
| `CommandArgs.RequiredAfterVariadic` | dispatch/cmd/cmd.go:130-199 | every pair of a variadic and another plain name is accepted in that order |
| `ArgBinding.ParseChanArg` | dispatch/cmd/cmds.go:491-521 | the channel is the first word if it is one, else the message's channel, else an error; the target is the channel the state knows under that name |
| `ArgBinding.ParseUserArg` | dispatch/cmd/cmds.go:525-587 | all words are looked up unless one is not found; the users and accounts found are stored under the argument's name, or for a variadic argument in the order of its words |
| `ArgBinding.FilterArgs` | dispatch/cmd/cmds.go:411-486 | binding succeeds exactly when the channel rule holds, the words fit and the named users are known; then every argument with words, and an implicit channel, is bound and nothing else, and the target channel, users and accounts are exactly those found for those words; otherwise the error has a reason |
| `BindingLaws.ValuesExactly` | dispatch/cmd/cmds.go:424-462 | on success an argument holds its one word, a variadic one all words left joined by spaces, a channel argument left out the message's channel, and no other name is bound |
| `BindingLaws.ValuesJoinToWords` | dispatch/cmd/cmds.go:411-486 | on success the values of the arguments that have words, joined by spaces in order, are the words joined by spaces |
| `BindingLaws.TargetsExactly` | dispatch/cmd/cmds.go:525-587 | on success a nick argument has the user of its word, a user argument the account and the user found by nick, and no other argument any |
| `BindingLaws.TailExactly` | dispatch/cmd/cmds.go:525-587 | a variadic nick or user argument has what was found for each of its words, in order |
| `BindingLaws.NoTail` | dispatch/cmd/cmds.go:525-587 | without one there is no such list |
| `BindingLaws.ChannelExactly` | dispatch/cmd/cmds.go:491-521 | the target channel is the one the state knows under the value of the channel argument |
| `ArgBinding.WordsBoundOnce` | dispatch/cmd/cmds.go:411-486 | on success the words of the message are bound each exactly once, in order, a variadic argument taking the joined tail |
| `ArgBinding.FitsInNumbers` | dispatch/cmd/cmds.go:411-486 | the words fit exactly when there are at least as many as needed and, without a variadic argument, at most as many as can be taken |
| `ArgBinding.AcceptedIsShaped` | dispatch/cmd/cmd.go:130-199 | every registered command has a list that binding can work on |
| `UserCache.Store.SaveUser` | data/store.go:137-154 | the cache and the database change as the step says; a failed write is not noticed |
| `UserCache.Store.FindUser` | data/store.go:247-267 | the cache answers first, misses are cached too, and the whole cache is dumped when full |
| `UserCache.Store.RemoveUser` | data/store.go:157-172 | removes the user from both, or reports that there was none |
| `UserCache.RunTransparent` | data/store.go:137-172 | over any run of saves, finds and removes without database errors the answers and the database are those of a bare map |
| `UserCache.FailedReadsKeep` | data/store.go:247-280 | failed reads and deletes leave the cache in agreement with the database |
| `UserCache.FailuresExactly` | data/store.go:157-172 | a find or remove fails exactly when an entry not cached cannot be read or one that is there cannot be deleted; else it answers what the database would, which loses an entry exactly when it says so |
| `UserCache.FoundIsCached` | data/store.go:247-267 | what was found, or found absent, is cached, and the other entries stay unless there is one too many |
| `UserCache.SaveKeepsExactly` | data/store.go:137-154 | a save keeps that agreement exactly when its write succeeds or stored the same user already |
| `UserCache.CacheBounded` | data/store.go:361-365 | over any run the cache holds at most `nMaxCache` entries |
| `UserCache.FindAfterSave` | data/store.go:137-154 | a saved user is found under its name exactly when the name is lower-case |
| `UserBits.UserModes.GetModeBit` | data/modes_common.go:111-118 | the scan finds the bit of the first entry of a letter |
| `UserBits.LettersSet` | data/user_modes.go:18-31 | setting a bit adds its letter alone to the letters the byte stands for, and unsetting it removes that letter alone |
| `UserBits.UserModes.SetMode` | data/user_modes.go:18-20 | the held letters gain the mode if it is a known one |
| `UserBits.UserModes.UnsetMode` | data/user_modes.go:29-31 | the held letters lose the mode |
| `UserBits.UserModes.HasMode` | data/user_modes.go:23-26 | answers whether the letter is held |
| `StateDb.PutUserExactly` | data/state.go:606-616 | storing a user object under a key keeps the indices inverse and pointing at stored objects exactly when the key is on no channel or held that object |
| `StateDb.AddToLinked` | data/state.go:398-437 | a join of a known user to a known channel adds that one membership to both indices, with modes shared by the two and by no other membership; any other join changes nothing |
| `StateDb.RemoveFromLinked` | data/state.go:440-455 | a part removes that one membership from both indices |
| `StateDb.RemoveUserLinked` | data/state.go:364-372 | removing a user leaves both indices inverse and without the user |
| `StateDb.RemoveChannelLinked` | data/state.go:387-395 | removing a channel leaves both indices inverse and without the channel |
| `StateDb.RenameExactly` | data/state.go:497-520 | a rename keeps the indices inverse exactly when the key stays the same or every channel of the key taken over is also one of the renamed nick's |
| `StateTables.RenameToSame` | data/state.go:505-518 | a rename that keeps the key drops the user and its memberships |
| `StateTables.RenameShows` | data/state.go:497-520 | a rename that keeps the links moves the person and its memberships with their modes, and the bot's own entry with them |
| `StateTables.WelcomeShows` | data/state.go:606-616 | the new user object of a welcome keeps the links exactly when its key is on no channel, and is then the bot's listed user |
| `StateTables.StoreBitsShows` | data/channeluser_meta.go:1-31 | a change to a shared mode object is seen for its own membership, from both sides, and for no other |
| `IrcState.State.constructor` | data/state.go:151-164 | a new state is consistent and empty |
| `IrcState.State.AddUser` | data/state.go:332-361 | a host is noted: not a server name; a new user is stored under its key, a nil entry for an empty text, and a known user's host changes only for a full host |
| `IrcState.State.RemoveUser` | data/state.go:364-372 | the loops over the maps leave the state consistent and without the user |
| `IrcState.State.AddChannel` | data/state.go:375-384 | a channel not yet known is stored with empty modes of its own, a nil entry for an empty name |
| `IrcState.State.RemoveChannel` | data/state.go:387-395 | the loops over the maps leave the state consistent and without the channel |
| `IrcState.State.AddToChannel` | data/state.go:398-437 | a known user joins a known channel with no modes, once; nothing else changes |
| `IrcState.State.RemoveFromChannel` | data/state.go:440-455 | that membership goes, and nothing else |
| `IrcState.State.OnNick` | data/state.go:497-520 | the state stays consistent exactly when the rename keeps the links, and then the person has moved |
| `IrcState.State.OnMode` | data/state.go:556-573 | the channel's modes change as the modestring says, and the bits of the named members of that channel alone |
| `IrcState.State.OnWelcome` | data/state.go:606-616 | the state stays consistent exactly when the welcomed key is on no channel |
| `IrcState.State.OnNames` | data/state.go:620-642 | the loop enters the named users on the channel, with the modes of their symbols, a lone symbol as the empty nick |
| `IrcState.State.OnWho` | data/state.go:646-662 | the described user is entered with its real name and the modes of the symbols |
| `IrcState.State.Update` | data/state.go:458-494 | on every event that does not fail the state stays consistent exactly when the event keeps the links, stands for what the value-level update says, and keeps the bot's user object except on a welcome |
| `StateLaws.UpdateKeepsExactly` | data/state.go:458-494 | every event keeps users under the keys of their hosts, memberships between known users and channels and the bot listed under a known key, exactly but for renames to a text with `!` or `@` |
| `StateLaws.SenderIsSelfExactly` | data/state.go:523-544 | since the sender is noted first, it equals the bot's host exactly when it has the bot's key and is a full host or the host already noted |
| `StateLaws.SelfListedExactly` | data/state.go:458-494 | the bot's user object stays listed exactly on events that are no rename onto its key or change of its case, and no quit in its name by nick alone |
| `StateLaws.SelfStays` | data/state.go:606-616 | over every run of such events from a welcome on, the bot's user object stays listed under the key of its nick |
| `StateLaws.OwnEvents` | data/state.go:523-537 | channels appear on the bot's own joins and go on its own parts, and on no one else's |
| `StateLaws.OwnModesExactly` | data/state.go:556-573 | a MODE event for the bot whose modestring would change the bot's modes does so exactly when the bot's nick equals its lower-case form |
| `StateLaws.OwnModesLost` | data/state.go:556-573 | for every bot whose nick starts with a capital, `MODE Bot +x` with a new letter changes nothing |
| `StateLaws.RenamedExactly` | data/state.go:497-520 | a NICK event from a full host moves the user to the new key with the new host exactly when the sender parses, or has the empty key, and the keys differ |
| `StateLaws.OddNickUnparsed` | irc/hosts.go:8-16 | no host whose nick holds a dash, a curly brace or a bar parses |
| `StateLaws.OddNickKept` | data/state.go:497-520 | a NICK event from such a host notes the old nick and renames no one |
| `MemberModes.MemberModesExactly` | data/state.go:556-573 | after a mode change a member holds a mode exactly when it held or is given it and is not deprived of it, and members of other channels are as before |
| `MemberModes.MemberInOrderExactly` | data/state.go:556-573 | for one member and mode the result is that of the operations in order exactly when the last on the pair is not a give with a take before it |
| `MemberModes.ModesInOrderExactly` | data/state.go:556-573 | all members' modes end as in order exactly when that holds of every member of the channel and every mode |
| `MemberModes.ModeEventInOrder` | data/state.go:556-573 | the same for every MODE event on a known channel |
| `MemberModes.GiftLost` | data/state.go:556-573 | for every plain user mode and member, taking and then giving it in one change leaves it taken |
| `StateLaws.NamesExactly` | data/state.go:620-642 | after a name list the members are the old ones and the named users of the known channel |
| `EventLaws.SenderNoted` | data/state.go:332-361 | before any event its sender is known unless a server; a full host replaces the one held, and nothing else changes |
| `EventLaws.OthersOnlyNote` | data/state.go:458-494 | an event without a handler does nothing more |
| `EventLaws.JoinExactly` | data/state.go:523-528 | after a join the members are the old ones with their modes and the sender without any, if sender and channel are known then; the bot's own join makes the channel known |
| `EventLaws.MessageExactly` | data/state.go:598-602 | a message to a channel enters its sender there if both are known |
| `EventLaws.PartExactly` | data/state.go:531-537 | the bot's part closes the channel, another's takes that membership and nothing else |
| `EventLaws.QuitExactly` | data/state.go:540-544 | another's quit removes the user and its memberships, the bot's own changes nothing |
| `EventLaws.KickExactly` | data/state.go:547-553 | a kick of the bot closes the channel, of another it takes that membership |
| `EventLaws.NickExactly` | data/state.go:497-520 | a rename to another key moves person, memberships with their modes and the bot's entry; to the same key it removes the user; of an unknown user it does nothing |
| `EventLaws.TopicExactly` | data/state.go:576-594 | the topic is stored on its channel, an empty one when none is given |
| `EventLaws.ModeChangeExactly` | data/state.go:556-573 | a mode change of a channel changes its modes as the modestring reads, letter by letter, and no user or other channel |
| `EventLaws.MembersChangedExactly` | data/state.go:556-573 | a member then holds a user mode exactly when it held it or it is written for its nick under a plus, and not under a minus |
| `EventLaws.TwoGiven` | data/state.go:556-573 | after `MODE #c +ov alice bob` alice has gained the one mode, bob the other, and no one else any |
| `EventLaws.OwnChangeExactly` | data/state.go:570-572 | a mode change aimed at the bot's nick as it is written changes the bot's modes as it reads; any other changes nothing |
| `EventLaws.ModeListExactly` | data/state.go:666-672 | a list of modes changes its channel as it reads |
| `EventLaws.BanExactly` | data/state.go:676-681 | a ban is added to the list of its channel and nothing else changes |
| `EventLaws.NameListExactly` | data/state.go:620-642 | a list of names makes the named users known and members, each with the modes whose symbols stand in front of its nick |
| `EventLaws.WhoExactly` | data/state.go:646-662 | a who reply makes the user known with host and real name, a member if the channel is known, with the modes of the symbols |
| `EventLaws.WelcomeExactly` | data/state.go:606-616 | the bot is the last word of the welcome if that is a full host, and else the target; its entry is new and listed |

## Left out

- Text is a sequence of characters: byte indices inside multi-byte characters and invalid UTF-8 are not modelled; lower-casing covers ASCII letters.
- IrcClients.IrcClient.CalcSleepTime: the length penalty is the integer quotient scale * length / factor, where the program multiplies floats and truncates, so a penalty that float rounding moves across an integer is not modelled.
- Durations are unbounded integers, without the saturation of Go's `time.Time.Sub`.
- HostMasks.AnchoredExactly: a sufficient condition on a mask and one host; `MaskExactness.StarMaskExactly` is the exact condition on masks without `?`. For masks with `?` only `YieldingExact` is stated, the converse being false.
- IrcClients.IrcClient.WriteMessage: models a write as one success or failure; the partial-write loop and the log are not modelled.
- Goroutines, channels and locks: the `select` of the pump is a sequence of nondeterministic cases, the message channel of the reader a number of messages it still takes.
- Framing.Siphon.Run: with the buffer full the model stops reading, where the program reads into an empty slice again and again.
- Modes.Moder: the interface is a datatype over its two implementations, so a third one is not modelled.
- Address slices handed out by `GetAddresses` alias the stored ones; callers that change them are not modelled.
- IrcState.State.Update: requires that the event does not end in a failure of the program: missing arguments, a bot without a user, a mode change for someone who is not a member, a name with a symbol on an unknown channel, or a field asked of a nil entry.
- `SetNetworkInfo` in the middle of a run reinterprets stored bits; kinds and symbols are fixed for a run.
- The getters of the state, `IsOn` and the iterators only read; they would be easy members.
- `Set`, `Unset`, `IsSet` and `parseSimpleModestrings`: `apply` covers the general form.
- `Channel.SetBans` deletes from the wrong map (data/channel.go:66-71); nothing is claimed of it.
- `UserModes.String` and `StringSymbols`: easy members over the same bits.
- ArgBinding.FilterArgs: what the state and the store find for a word is given as maps; `FindAccessByUser` fails on an empty word, which splitting never produces. What an error leaves bound so far is not stated.
- Users of the store are plain values: serialisation is taken as exact, and values are not changed between saves. Authentication, access levels and passwords are not part of this model.
- Bot orchestration, configuration, event dispatch by reflection and the extensions.
